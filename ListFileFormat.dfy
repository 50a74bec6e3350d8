/** The format of the community list file as `CascListFile::ParseListFile`
    reads it: text lines `<file id>;<path>`, the records they hold, and the
    tables and id lists the records fill in. */
module ListFileFormat {
  import opened Bytes
  import opened Wrappers
  import opened Strings

  const CR: char := '\r'
  const LF: char := '\n'

  /** The two characters the parser scans for: ';' after an id, and CR or
      LF after a path. */
  datatype Delimiter = Semicolon | LineEnd

  predicate Ends(c: char, d: Delimiter)
  {
    if d == Semicolon then c == ';' else c == CR || c == LF
  }

  /** The first index at or after `i` whose character ends a `stop` field, or
      `|buf|` when the rest of the buffer has none. */
  function ScanTo(buf: seq<char>, i: nat, stop: Delimiter): (j: nat)
    requires i <= |buf|
    ensures i <= j <= |buf|
    ensures j < |buf| ==> Ends(buf[j], stop)
    decreases |buf| - i
  {
    if i == |buf| then i
    else if Ends(buf[i], stop) then i
    else ScanTo(buf, i + 1, stop)
  }

  /** No character before the one `ScanTo` finds ends a `stop` field. */
  lemma {:induction false} ScanToSkips(buf: seq<char>, i: nat, stop: Delimiter)
    requires i <= |buf|
    ensures forall k | i <= k < ScanTo(buf, i, stop) :: !Ends(buf[k], stop)
    decreases |buf| - i
  {
    if i < |buf| && !Ends(buf[i], stop) {
      ScanToSkips(buf, i + 1, stop);
    }
  }

  /** The first-occurrence property pins `ScanTo` down. */
  lemma {:induction false} ScanToFinds(buf: seq<char>, i: nat, stop: Delimiter, j: nat)
    requires i <= j <= |buf|
    requires j < |buf| ==> Ends(buf[j], stop)
    requires forall k | i <= k < j :: !Ends(buf[k], stop)
    ensures ScanTo(buf, i, stop) == j
    decreases j - i
  {
    if i < j {
      ScanToFinds(buf, i + 1, stop, j);
    }
  }

  // ---- std::stoi ----

  predicate IsSpace(c: char)
  {
    c == ' ' || c == '\t' || c == '\n' || c == '\U{0B}' || c == '\U{0C}' || c == '\r'
  }

  predicate IsDigit(c: char)
  {
    '0' <= c <= '9'
  }

  predicate AllDigits(d: string)
  {
    forall k | 0 <= k < |d| :: IsDigit(d[k])
  }

  /** The end of the run of characters satisfying `IsSpace` (`space`) or
      `IsDigit` (`!space`) that starts at `i`. */
  function RunEnd(t: string, i: nat, space: bool): (j: nat)
    requires i <= |t|
    ensures i <= j <= |t|
    decreases |t| - i
  {
    if i == |t| then i
    else if (if space then IsSpace(t[i]) else IsDigit(t[i])) then RunEnd(t, i + 1, space)
    else i
  }

  /** A run of digits reaching the end of the text ends there. */
  lemma {:induction false} DigitRunEnd(t: string, i: nat)
    requires i <= |t| && forall k | i <= k < |t| :: IsDigit(t[k])
    ensures RunEnd(t, i, false) == |t|
    decreases |t| - i
  {
    if i < |t| {
      DigitRunEnd(t, i + 1);
    }
  }

  /** The value of a string of decimal digits, most significant first. */
  function DecimalValue(d: string): int
  {
    if d == [] then 0
    else DecimalValue(d[..|d| - 1]) * 10 + (d[|d| - 1] as int - '0' as int)
  }

  /** `std::stoi(t)`: leading white space, an optional sign and the longest
      run of decimal digits, the rest ignored; `None` where it throws
      (no digits: `invalid_argument`; outside `int`: `out_of_range`). */
  function Stoi(t: string): Option<int>
  {
    var i := RunEnd(t, 0, true);
    var negative := i < |t| && t[i] == '-';
    var j := if i < |t| && (t[i] == '+' || t[i] == '-') then i + 1 else i;
    var k := RunEnd(t, j, false);
    if k == j then None
    else
      var magnitude: int := DecimalValue(t[j..k]);
      var v: int := if negative then -magnitude else magnitude;
      if -0x8000_0000 <= v < 0x8000_0000 then Some(v) else None
  }

  /** The `int` returned by `stoi` stored in the `u32` file id. */
  function FileIdOf(v: int): u32
  {
    v % 0x1_0000_0000
  }

  /** The decimal text of `n`, without sign or leading zeros. */
  function DecimalString(n: nat): (d: string)
    ensures |d| >= 1 && AllDigits(d)
  {
    var last := [('0' as int + n % 10) as char];
    if n < 10 then last else DecimalString(n / 10) + last
  }

  lemma {:induction false} DecimalValueOfString(n: nat)
    ensures DecimalValue(DecimalString(n)) == n
  {
    var d := DecimalString(n);
    if n >= 10 {
      DecimalValueOfString(n / 10);
      assert d[..|d| - 1] == DecimalString(n / 10);
    }
  }

  /** `stoi` reads back the decimal text of every id below 2^31. */
  lemma StoiOfDecimal(n: nat)
    requires n < 0x8000_0000
    ensures Stoi(DecimalString(n)) == Some(n)
  {
    var t := DecimalString(n);
    DecimalValueOfString(n);
    assert RunEnd(t, 0, true) == 0;
    DigitRunEnd(t, 0);
    assert t[0..|t|] == t;
  }

  // ---- records ----

  /** One line of the list file. */
  datatype Record = Record(id: u32, path: string)

  /** A record and the read position after it. */
  datatype Step = Step(record: Record, next: nat)

  /** The text of a record's id: up to the first ';' after `pos`, or, when
      the rest of the buffer has none, all of it except its last character
      (the end index is always one before the read position). */
  function IdText(buf: seq<char>, pos: nat): string
    requires pos < |buf|
  {
    var s := ScanTo(buf, pos, Semicolon);
    if s < |buf| then buf[pos..s] else buf[pos..|buf| - 1]
  }

  /** The read position once the id has been read. */
  function PathStart(buf: seq<char>, pos: nat): (p: nat)
    requires pos < |buf|
    ensures pos < p <= |buf|
  {
    var s := ScanTo(buf, pos, Semicolon);
    if s < |buf| then s + 1 else |buf|
  }

  /** The read position once the path and its first line-end character have
      been read: where the parser peeks for a second one. */
  function PeekIndex(buf: seq<char>, p: nat): (r: nat)
    requires p <= |buf|
    ensures p <= r <= |buf|
  {
    var e := ScanTo(buf, p, LineEnd);
    if e < |buf| then e + 1 else |buf|
  }

  /** The peek after the path's first line end stays in the buffer or, just
      past it, sees a byte that is no line end (otherwise the cursor would
      step past the buffer's end). */
  predicate PeekSafe(buf: seq<char>, pastEnd: char, p: nat)
    requires p <= |buf|
  {
    PeekIndex(buf, p) == |buf| ==> pastEnd != CR && pastEnd != LF
  }

  /** The read position after the path block at `p`: past the first line
      end, and past one more line-end character when the peek sees one. */
  function PathBlockEnd(buf: seq<char>, pastEnd: char, p: nat): (next: nat)
    requires p <= |buf| && PeekSafe(buf, pastEnd, p)
    ensures PeekIndex(buf, p) <= next <= |buf|
  {
    var r := PeekIndex(buf, p);
    var current := if r < |buf| then buf[r] else pastEnd;
    if current == CR || current == LF then r + 1 else r
  }

  /** The path the path block at `p` keeps: the text up to the read
      position less the line-end characters counted, which is exactly the
      text up to the first line end. */
  function PathText(buf: seq<char>, pastEnd: char, p: nat): (path: string)
    requires p <= |buf| && PeekSafe(buf, pastEnd, p)
    ensures path == buf[p..ScanTo(buf, p, LineEnd)]
  {
    var e := ScanTo(buf, p, LineEnd);
    var counted := if e < |buf| then 1 else 0;
    var r := PeekIndex(buf, p);
    var next := PathBlockEnd(buf, pastEnd, p);
    var skipped := next - r;
    buf[p..next - (counted + skipped)]
  }

  /** What reading the record at `pos` needs: an id text `stoi` accepts
      and a safe peek after the path. */
  predicate RecordParsable(buf: seq<char>, pastEnd: char, pos: nat)
    requires pos < |buf|
  {
    Stoi(IdText(buf, pos)).Some? && PeekSafe(buf, pastEnd, PathStart(buf, pos))
  }

  /** One iteration of the parser at `pos`: the id block, then the path
      block. */
  function NextRecord(buf: seq<char>, pastEnd: char, pos: nat): (s: Step)
    requires pos < |buf| && RecordParsable(buf, pastEnd, pos)
    ensures pos < s.next <= |buf|
  {
    var p := PathStart(buf, pos);
    Step(Record(FileIdOf(Stoi(IdText(buf, pos)).value), PathText(buf, pastEnd, p)), PathBlockEnd(buf, pastEnd, p))
  }

  /** Every record from `pos` to the end of the buffer can be read. */
  predicate ListParsable(buf: seq<char>, pastEnd: char, pos: nat)
    decreases |buf| - pos
  {
    pos >= |buf| ||
    (RecordParsable(buf, pastEnd, pos) && ListParsable(buf, pastEnd, NextRecord(buf, pastEnd, pos).next))
  }

  /** The records the parser reads from `pos` on. */
  function Records(buf: seq<char>, pastEnd: char, pos: nat): seq<Record>
    requires ListParsable(buf, pastEnd, pos)
    decreases |buf| - pos
  {
    if pos >= |buf| then []
    else
      var s := NextRecord(buf, pastEnd, pos);
      [s.record] + Records(buf, pastEnd, s.next)
  }

  /** No path read holds a line end. */
  lemma {:induction false} RecordsHaveNoLineEnds(buf: seq<char>, pastEnd: char, pos: nat)
    requires ListParsable(buf, pastEnd, pos)
    ensures forall r <- Records(buf, pastEnd, pos) :: CR !in r.path && LF !in r.path
    decreases |buf| - pos
  {
    if pos < |buf| {
      var s := NextRecord(buf, pastEnd, pos);
      var p := PathStart(buf, pos);
      ScanToSkips(buf, p, LineEnd);
      RecordsHaveNoLineEnds(buf, pastEnd, s.next);
    }
  }

  /** Reading one record from the records still to come. */
  lemma RecordsStep(buf: seq<char>, pastEnd: char, pos: nat)
    requires pos < |buf| && ListParsable(buf, pastEnd, pos)
    ensures var s := NextRecord(buf, pastEnd, pos);
      ListParsable(buf, pastEnd, s.next) &&
      Records(buf, pastEnd, pos) == [s.record] + Records(buf, pastEnd, s.next)
  {
  }

  /** The records from `pos` are the record read there followed by the
      records from where it ends. */
  lemma RecordsCons(buf: seq<char>, pastEnd: char, pos: nat, r: Record, next: nat, tail: seq<Record>)
    requires pos < |buf| && RecordParsable(buf, pastEnd, pos)
    requires NextRecord(buf, pastEnd, pos) == Step(r, next)
    requires ListParsable(buf, pastEnd, next) && Records(buf, pastEnd, next) == tail
    ensures ListParsable(buf, pastEnd, pos) && Records(buf, pastEnd, pos) == [r] + tail
  {
  }

  // ---- the tables and lists ----

  function IdOf(r: Record): u32 { r.id }
  function PathOf(r: Record): string { r.path }

  /** The map after `table[key(r)] = value(r)` for every record in order. */
  function Assign<K(==), V>(m: map<K, V>, rs: seq<Record>, key: Record -> K, value: Record -> V): map<K, V>
  {
    if rs == [] then m
    else
      var last := rs[|rs| - 1];
      Assign(m, rs[..|rs| - 1], key, value)[key(last) := value(last)]
  }

  /** No record after the `i`-th has the same key. */
  predicate LastWithKey<K(==)>(rs: seq<Record>, i: nat, key: Record -> K)
    requires i < |rs|
  {
    forall j | i < j < |rs| :: key(rs[j]) != key(rs[i])
  }

  /** The assigned map holds the earlier keys and the records' keys. */
  lemma {:induction false} AssignKeys<K, V>(m: map<K, V>, rs: seq<Record>, key: Record -> K, value: Record -> V)
    ensures Assign(m, rs, key, value).Keys == m.Keys + set r <- rs :: key(r)
  {
    if rs != [] {
      var init := rs[..|rs| - 1];
      var last := rs[|rs| - 1];
      AssignKeys(m, init, key, value);
      assert rs == init + [last];
      assert (set r <- rs :: key(r)) == (set r <- init :: key(r)) + {key(last)};
    }
  }

  /** A record's key maps to the value of the last record with that key. */
  lemma {:induction false} AssignLast<K, V>(m: map<K, V>, rs: seq<Record>, key: Record -> K, value: Record -> V)
    ensures forall i | 0 <= i < |rs| && LastWithKey(rs, i, key) :: key(rs[i]) in Assign(m, rs, key, value) && Assign(m, rs, key, value)[key(rs[i])] == value(rs[i])
  {
    if rs != [] {
      var init := rs[..|rs| - 1];
      var last := rs[|rs| - 1];
      AssignLast(m, init, key, value);
      forall i | 0 <= i < |rs| - 1 && LastWithKey(rs, i, key)
        ensures key(rs[i]) in Assign(m, rs, key, value) && Assign(m, rs, key, value)[key(rs[i])] == value(rs[i])
      {
        assert key(last) != key(rs[i]);
        assert LastWithKey(init, i, key);
      }
    }
  }

  /** A key no record has keeps its earlier value. */
  lemma {:induction false} AssignUntouched<K, V>(m: map<K, V>, rs: seq<Record>, key: Record -> K, value: Record -> V)
    ensures forall k | k in m && (forall r <- rs :: key(r) != k) :: k in Assign(m, rs, key, value) && Assign(m, rs, key, value)[k] == m[k]
  {
    if rs != [] {
      var init := rs[..|rs| - 1];
      var last := rs[|rs| - 1];
      AssignUntouched(m, init, key, value);
      assert last in rs;
      assert forall r <- init :: r in rs;
    }
  }

  /** Which id list a path goes to: `.m2` or `.mdx` models, `.wmo` map
      objects, `.blp` textures, checked in that order. */
  datatype Kind = Model | MapObject | Texture | Other

  function KindOf(path: string): Kind
  {
    if EndsWith(path, ".m2") || EndsWith(path, ".mdx") then Model
    else if EndsWith(path, ".wmo") then MapObject
    else if EndsWith(path, ".blp") then Texture
    else Other
  }

  /** The four suffixes end in different characters, so a path has at most
      one of them and the order of the tests does not matter. */
  lemma KindBySuffix(path: string)
    ensures KindOf(path) == Model <==> EndsWith(path, ".m2") || EndsWith(path, ".mdx")
    ensures KindOf(path) == MapObject <==> EndsWith(path, ".wmo")
    ensures KindOf(path) == Texture <==> EndsWith(path, ".blp")
  {
    if EndsWith(path, ".wmo") || EndsWith(path, ".blp") {
      assert path[|path| - 1] in {'o', 'p'};
    }
  }

  /** The ids of the records of one kind, in file order. */
  function IdsOfKind(rs: seq<Record>, k: Kind): seq<u32>
  {
    if rs == [] then []
    else
      var last := rs[|rs| - 1];
      IdsOfKind(rs[..|rs| - 1], k) + (if KindOf(last.path) == k then [last.id] else [])
  }

  /** Every record lands in exactly one list (or none, for other paths):
      the lists' lengths add up to the number of records, and an id is in a
      list exactly when a record of that kind carries it. */
  lemma {:induction false} KindsPartition(rs: seq<Record>)
    ensures |IdsOfKind(rs, Model)| + |IdsOfKind(rs, MapObject)| + |IdsOfKind(rs, Texture)| + |IdsOfKind(rs, Other)| == |rs|
    ensures forall k, id :: id in IdsOfKind(rs, k) <==> exists r <- rs :: r.id == id && KindOf(r.path) == k
  {
    if rs != [] {
      var init := rs[..|rs| - 1];
      var last := rs[|rs| - 1];
      KindsPartition(init);
      assert rs == init + [last];
      forall k, id
        ensures id in IdsOfKind(rs, k) <==> exists r <- rs :: r.id == id && KindOf(r.path) == k
      {
        assert IdsOfKind(rs, k) == IdsOfKind(init, k) + (if KindOf(last.path) == k then [last.id] else []);
        if id in IdsOfKind(init, k) {
          var r :| r in init && r.id == id && KindOf(r.path) == k;
          assert r in rs;
        }
      }
    }
  }

  lemma IdsOfKindAppend(rs: seq<Record>, r: Record, k: Kind)
    ensures IdsOfKind(rs + [r], k) == IdsOfKind(rs, k) + if KindOf(r.path) == k then [r.id] else []
  {
    assert (rs + [r])[..|rs|] == rs;
  }

  /** What the parser fills in: the two tables and the three id lists. */
  datatype Tables = Tables(idToPath: map<u32, string>, pathToId: map<string, u32>,
                           m2Files: seq<u32>, wmoFiles: seq<u32>, blpFiles: seq<u32>)
  {
    /** `HasFileWithID`. */
    predicate HasFileWithID(fileId: u32)
    {
      fileId in idToPath
    }

    /** `GetFilePathFromID`: `at` throws for an id that is not there. */
    function GetFilePathFromID(fileId: u32): Result<string>
    {
      if fileId in idToPath then Success(idToPath[fileId]) else Failure("key not found")
    }

    /** `HasFileWithPath`. */
    predicate HasFileWithPath(filePath: string)
    {
      filePath in pathToId
    }

    /** `GetFileIDFromPath`: `at` throws for a path that is not there. */
    function GetFileIDFromPath(filePath: string): Result<u32>
    {
      if filePath in pathToId then Success(pathToId[filePath]) else Failure("key not found")
    }

    /** `GetNumEntries`: the size of the id table cast to 32 bits. */
    function GetNumEntries(): u32
    {
      |idToPath| % 0x1_0000_0000
    }
  }

  /** The tables after the records are added to `t` in order. */
  function Loaded(t: Tables, rs: seq<Record>): Tables
  {
    Tables(Assign(t.idToPath, rs, IdOf, PathOf), Assign(t.pathToId, rs, PathOf, IdOf),
           t.m2Files + IdsOfKind(rs, Model), t.wmoFiles + IdsOfKind(rs, MapObject),
           t.blpFiles + IdsOfKind(rs, Texture))
  }

  /** Adding one more record to loaded tables. */
  function AddedRecord(t: Tables, r: Record): Tables
  {
    Tables(t.idToPath[r.id := r.path], t.pathToId[r.path := r.id],
           t.m2Files + (if KindOf(r.path) == Model then [r.id] else []),
           t.wmoFiles + (if KindOf(r.path) == MapObject then [r.id] else []),
           t.blpFiles + (if KindOf(r.path) == Texture then [r.id] else []))
  }

  lemma LoadedAppend(t: Tables, rs: seq<Record>, r: Record)
    ensures Loaded(t, rs + [r]) == AddedRecord(Loaded(t, rs), r)
  {
    assert (rs + [r])[..|rs|] == rs;
    IdsOfKindAppend(rs, r, Model);
    IdsOfKindAppend(rs, r, MapObject);
    IdsOfKindAppend(rs, r, Texture);
  }
}
