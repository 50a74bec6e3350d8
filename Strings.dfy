/** The string helpers the extractors use: suffix and prefix tests, ASCII
    lower-casing with `::tolower` in the "C" locale, and the replacement of
    one character by another with `std::replace`. */
module Strings {

  /** `StringUtils::EndsWith`: `s` ends with `suffix`. */
  predicate EndsWith(s: string, suffix: string)
  {
    |suffix| <= |s| && s[|s| - |suffix|..] == suffix
  }

  /** `StringUtils::BeginsWith`: `s` starts with `prefix`. */
  predicate BeginsWith(s: string, prefix: string)
  {
    |prefix| <= |s| && s[..|prefix|] == prefix
  }

  lemma EndsWithConcat(p: string, suffix: string)
    ensures EndsWith(p + suffix, suffix)
  {
    assert (p + suffix)[|p|..] == suffix;
  }

  lemma BeginsWithConcat(prefix: string, s: string)
    ensures BeginsWith(prefix + s, prefix)
  {
    assert (prefix + s)[..|prefix|] == prefix;
  }

  predicate IsUpper(c: char)
  {
    'A' <= c <= 'Z'
  }

  /** `::tolower` on one character: the 26 upper-case ASCII letters move to
      lower case, every other character is kept. */
  function Lower(c: char): (l: char)
    ensures !IsUpper(l)
    ensures IsUpper(c) ==> l as int == c as int + 32
    ensures !IsUpper(c) ==> l == c
  {
    if IsUpper(c) then (c as int + 32) as char else c
  }

  /** `std::transform(s.begin(), s.end(), s.begin(), ::tolower)`. */
  function Lowercase(s: string): (l: string)
    ensures |l| == |s|
    ensures forall i | 0 <= i < |s| :: l[i] == Lower(s[i])
  {
    seq(|s|, i requires 0 <= i < |s| => Lower(s[i]))
  }

  /** Lower-casing twice is lower-casing once. */
  lemma LowercaseIdempotent(s: string)
    ensures Lowercase(Lowercase(s)) == Lowercase(s)
  {
  }

  /** Lower-casing distributes over concatenation, so a lower-case literal
      joined to a lower-cased string stays as it is. */
  lemma LowercaseConcat(a: string, b: string)
    ensures Lowercase(a + b) == Lowercase(a) + Lowercase(b)
  {
    assert forall i | 0 <= i < |a + b| :: Lowercase(a + b)[i] == (Lowercase(a) + Lowercase(b))[i];
  }

  /** `std::replace(s.begin(), s.end(), from, to)`. */
  function Replace(s: string, from: char, to: char): (r: string)
    ensures |r| == |s|
    ensures forall i | 0 <= i < |s| :: r[i] == if s[i] == from then to else s[i]
  {
    seq(|s|, i requires 0 <= i < |s| => if s[i] == from then to else s[i])
  }

  /** After the replacement no `from` is left, unless `from` is `to`. */
  lemma ReplaceRemoves(s: string, from: char, to: char)
    requires from != to
    ensures from !in Replace(s, from, to)
  {
  }

  /** Replacing a character the string does not hold changes nothing. */
  lemma ReplaceAbsent(s: string, from: char, to: char)
    requires from !in s
    ensures Replace(s, from, to) == s
  {
    assert forall i | 0 <= i < |s| :: s[i] != from;
  }

  /** Replacing a character keeps or drops a suffix that holds neither the
      replaced character nor its replacement exactly as before. */
  lemma ReplaceKeepsSuffix(s: string, from: char, to: char, suffix: string)
    requires from !in suffix && to !in suffix
    ensures EndsWith(Replace(s, from, to), suffix) <==> EndsWith(s, suffix)
  {
    var r := Replace(s, from, to);
    if |suffix| <= |s| {
      var k := |s| - |suffix|;
      var rs, ss := r[k..], s[k..];
      forall i | 0 <= i < |suffix|
        ensures rs[i] == suffix[i] <==> ss[i] == suffix[i]
      {
        assert rs[i] == r[k + i] && ss[i] == s[k + i];
        assert suffix[i] in suffix;
      }
      if EndsWith(s, suffix) {
        assert rs == suffix;
      }
      if EndsWith(r, suffix) {
        assert ss == suffix;
      }
    }
  }

  /** A string that ends with a lower-case suffix still ends with it after
      lower-casing (the converse fails: "ABC" lower-cases to a string ending
      with "abc"). */
  lemma LowercaseKeepsSuffix(s: string, suffix: string)
    requires Lowercase(suffix) == suffix
    ensures EndsWith(s, suffix) ==> EndsWith(Lowercase(s), suffix)
  {
    if EndsWith(s, suffix) {
      var k := |s| - |suffix|;
      assert s == s[..k] + suffix;
      LowercaseConcat(s[..k], suffix);
      EndsWithConcat(Lowercase(s[..k]), suffix);
    }
  }
}
