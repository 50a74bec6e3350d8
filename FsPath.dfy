/** The parts of `std::filesystem::path` the extractors use, on paths whose
    separator is '/': the file name, the extension and
    `replace_extension`. */
module FsPath {
  import opened Wrappers
  import opened Strings

  /** The length of the directory part: up to and including the last '/'. */
  function DirLength(p: string): (n: nat)
    ensures n <= |p|
    ensures n > 0 ==> p[n - 1] == '/'
  {
    if p == [] then 0
    else if p[|p| - 1] == '/' then |p|
    else DirLength(p[..|p| - 1])
  }

  /** No '/' follows the directory part. */
  lemma {:induction false} DirLengthLast(p: string)
    ensures forall k | DirLength(p) <= k < |p| :: p[k] != '/'
  {
    if p != [] && p[|p| - 1] != '/' {
      DirLengthLast(p[..|p| - 1]);
    }
  }

  /** Text without '/' after a path does not move its directory part. */
  lemma {:induction false} DirLengthAppend(a: string, b: string)
    requires '/' !in b
    ensures DirLength(a + b) == DirLength(a)
  {
    if b == [] {
      assert a + b == a;
    } else {
      assert (a + b)[|a + b| - 1] == b[|b| - 1];
      assert (a + b)[..|a + b| - 1] == a + b[..|b| - 1];
      DirLengthAppend(a, b[..|b| - 1]);
    }
  }

  /** Cutting a path after its directory part keeps the directory part. */
  lemma {:induction false} DirLengthPrefix(p: string, m: nat)
    requires DirLength(p) <= m <= |p|
    ensures DirLength(p[..m]) == DirLength(p)
    decreases |p|
  {
    if m == |p| {
      assert p[..m] == p;
    } else {
      DirLengthLast(p);
      assert p[..|p| - 1][..m] == p[..m];
      DirLengthPrefix(p[..|p| - 1], m);
    }
  }

  /** `filename()`: the text after the last '/'. */
  function FileName(p: string): (name: string)
    ensures |name| <= |p| && '/' !in name
  {
    DirLengthLast(p);
    p[DirLength(p)..]
  }

  /** The position of the last '.' in `name`, if any. */
  function LastDot(name: string): (i: Option<nat>)
    ensures i.Some? ==> i.value < |name| && name[i.value] == '.'
    ensures i.None? ==> '.' !in name
  {
    if name == [] then None
    else if name[|name| - 1] == '.' then Some(|name| - 1)
    else
      var r := LastDot(name[..|name| - 1]);
      assert forall k | 0 <= k < |name| - 1 :: name[..|name| - 1][k] == name[k];
      r
  }

  /** Text after a '.' moves the last '.' by the length of what precedes. */
  lemma {:induction false} LastDotAppend(a: string, b: string)
    requires LastDot(b).Some?
    ensures LastDot(a + b) == Some(|a| + LastDot(b).value)
  {
    assert (a + b)[|a + b| - 1] == b[|b| - 1];
    if b[|b| - 1] != '.' {
      assert (a + b)[..|a + b| - 1] == a + b[..|b| - 1];
      LastDotAppend(a, b[..|b| - 1]);
    }
  }

  /** Where the extension of a file name starts: at its last '.', unless
      that '.' is the name's first character or the name is "." or "..";
      with no extension, at the end of the name. */
  function ExtensionStart(name: string): (k: nat)
    ensures k <= |name|
    ensures k < |name| ==> 0 < k && name[k] == '.' && name != "." && name != ".."
    ensures |name| > 0 ==> k > 0
  {
    if name == "." || name == ".." then |name|
    else
      match LastDot(name)
      case None => |name|
      case Some(i) => if i == 0 then |name| else i
  }

  /** The path without the extension of its file name: the directory part
      and the file name's stem (unlike `stem()`, which drops the directory). */
  function WithoutExtension(p: string): (s: string)
    ensures s <= p && |s| >= DirLength(p)
  {
    p[..DirLength(p) + ExtensionStart(FileName(p))]
  }

  /** `replace_extension(ext)`: the extension of the file name is replaced
      by `ext`, with a '.' put in front of a non-empty `ext` that lacks one;
      an empty `ext` removes the extension. */
  function ReplaceExtension(p: string, ext: string): (r: string)
    ensures ext != [] && ext[0] == '.' ==> EndsWith(r, ext) && r == WithoutExtension(p) + ext
    ensures ext != [] && ext[0] != '.' ==> EndsWith(r, "." + ext) && r == WithoutExtension(p) + "." + ext
    ensures ext == [] ==> r == WithoutExtension(p)
  {
    var dot := if ext != [] && ext[0] != '.' then "." else "";
    EndsWithConcat(WithoutExtension(p) + dot, ext);
    EndsWithConcat(WithoutExtension(p), dot + ext);
    assert WithoutExtension(p) + dot + ext == WithoutExtension(p) + (dot + ext);
    assert WithoutExtension(p) + dot + ext == (WithoutExtension(p) + dot) + ext;
    WithoutExtension(p) + dot + ext
  }

  /** An extension proper: a '.', then at least one character, with no
      further '.' and no '/'. */
  predicate ProperExtension(ext: string)
  {
    |ext| >= 2 && ext[0] == '.' && '.' !in ext[1..] && '/' !in ext
  }

  /** Replacing the extension by a proper one twice is replacing it once,
      for a path that names a file. */
  lemma ReplaceExtensionIdempotent(p: string, ext: string)
    requires ProperExtension(ext) && FileName(p) != []
    ensures ReplaceExtension(ReplaceExtension(p, ext), ext) == ReplaceExtension(p, ext)
  {
    assert ReplaceExtension(p, ext) == WithoutExtension(p) + ext;
    WithoutExtensionOfReplaced(p, ext);
  }

  /** Removing the extension of a path whose extension was replaced gives
      the path without its old extension. */
  lemma WithoutExtensionOfReplaced(p: string, ext: string)
    requires ProperExtension(ext) && FileName(p) != []
    ensures WithoutExtension(WithoutExtension(p) + ext) == WithoutExtension(p)
  {
    var s := WithoutExtension(p);
    var k := ExtensionStart(FileName(p));
    assert |s| == DirLength(p) + k;
    WithoutExtensionThenExtension(p, ext);
    ExtensionAfterStem(FileName(p)[..k], ext);
    assert (s + ext)[..|s|] == s;
  }

  /** The path with its extension replaced keeps its directory part, and its
      file name is the old name's stem followed by the new extension. */
  lemma WithoutExtensionThenExtension(p: string, ext: string)
    requires ProperExtension(ext)
    ensures var q := WithoutExtension(p) + ext;
      DirLength(q) == DirLength(p) &&
      FileName(q) == FileName(p)[..ExtensionStart(FileName(p))] + ext
  {
    var d := DirLength(p);
    var k := ExtensionStart(FileName(p));
    var s := WithoutExtension(p);
    DirLengthPrefix(p, d + k);
    DirLengthAppend(s, ext);
    var q := s + ext;
    assert q[d..] == s[d..] + ext;
    assert s[d..] == FileName(p)[..k];
  }

  /** A non-empty stem followed by a proper extension has its extension
      start right after the stem. */
  lemma ExtensionAfterStem(stem: string, ext: string)
    requires ProperExtension(ext) && stem != []
    ensures ExtensionStart(stem + ext) == |stem|
  {
    LastDotOfDotFirst(ext);
    LastDotAppend(stem, ext);
    assert |stem + ext| >= 3;
  }

  /** A proper extension's last '.' is its first character. */
  lemma {:induction false} LastDotOfDotFirst(ext: string)
    requires |ext| >= 1 && ext[0] == '.' && '.' !in ext[1..]
    ensures LastDot(ext) == Some(0)
  {
    if |ext| > 1 {
      assert ext[|ext| - 1] == ext[1..][|ext| - 2];
      assert ext[..|ext| - 1][1..] == ext[1..][..|ext| - 2];
      LastDotOfDotFirst(ext[..|ext| - 1]);
    }
  }
}
