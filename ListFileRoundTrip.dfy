/** Writing records as list-file lines and reading them back: the
    parser's partner. */
module ListFileRoundTrip {
  import opened Bytes
  import opened Wrappers
  import opened ListFileFormat

  /** A record written as a line of the list file. */
  function Line(r: Record): string
  {
    DecimalString(r.id) + ";" + r.path + "\n"
  }

  function Serialize(rs: seq<Record>): string
  {
    if rs == [] then [] else Line(rs[0]) + Serialize(rs[1..])
  }

  /** A record the list file can hold: an id `stoi` can read back and a
      path without line ends. */
  predicate Writable(r: Record)
  {
    r.id < 0x8000_0000 && CR !in r.path && LF !in r.path
  }

  /** The id of a written line: the text before its ';'. */
  lemma ParseLineId(buf: string, pos: nat, d: string)
    requires AllDigits(d) && pos + |d| < |buf|
    requires buf[pos..pos + |d|] == d && buf[pos + |d|] == ';'
    ensures IdText(buf, pos) == d && PathStart(buf, pos) == pos + |d| + 1
  {
    forall k | pos <= k < pos + |d|
      ensures !Ends(buf[k], Semicolon)
    {
      assert buf[k] == d[k - pos];
    }
    ScanToFinds(buf, pos, Semicolon, pos + |d|);
  }

  /** The path of a written line: the text before its '\n'. */
  lemma ParseLinePath(buf: string, p: nat, path: string)
    requires CR !in path && LF !in path && p + |path| < |buf|
    requires buf[p..p + |path|] == path && buf[p + |path|] == LF
    ensures ScanTo(buf, p, LineEnd) == p + |path| && PeekIndex(buf, p) == p + |path| + 1
  {
    forall k | p <= k < p + |path|
      ensures !Ends(buf[k], LineEnd)
    {
      assert buf[k] == path[k - p];
    }
    ScanToFinds(buf, p, LineEnd, p + |path|);
  }

  /** Where the parts of a written line lie in the buffer. */
  lemma LineLayout(pre: string, r: Record, rest: string)
    ensures var buf := pre + Line(r) + rest;
      var d := DecimalString(r.id);
      var p := |pre| + |d| + 1;
      var e := p + |r.path|;
      |buf| == e + 1 + |rest| && e + 1 == |pre| + |Line(r)| &&
      buf[|pre|..|pre| + |d|] == d && buf[|pre| + |d|] == ';' &&
      buf[p..e] == r.path && buf[e] == LF &&
      (rest != [] ==> buf[e + 1] == rest[0])
  {
  }

  /** The path block at `p` when the path's first line end is at `e` and
      the byte after it is no line end. */
  lemma PathBlockAt(buf: seq<char>, pastEnd: char, p: nat, e: nat)
    requires p <= e < |buf| && ScanTo(buf, p, LineEnd) == e
    requires e + 1 < |buf| ==> buf[e + 1] != CR && buf[e + 1] != LF
    requires e + 1 == |buf| ==> pastEnd != CR && pastEnd != LF
    ensures PeekSafe(buf, pastEnd, p)
    ensures PathBlockEnd(buf, pastEnd, p) == e + 1 && PathText(buf, pastEnd, p) == buf[p..e]
  {
    assert PeekIndex(buf, p) == e + 1;
  }

  /** The record read at `pos` when its id text, its path's end and the
      byte after the path's line end are known. */
  lemma NextRecordAt(buf: seq<char>, pastEnd: char, pos: nat, v: int, e: nat)
    requires pos < |buf| && Stoi(IdText(buf, pos)) == Some(v)
    requires PathStart(buf, pos) <= e < |buf| && ScanTo(buf, PathStart(buf, pos), LineEnd) == e
    requires e + 1 < |buf| ==> buf[e + 1] != CR && buf[e + 1] != LF
    requires e + 1 == |buf| ==> pastEnd != CR && pastEnd != LF
    ensures RecordParsable(buf, pastEnd, pos)
    ensures NextRecord(buf, pastEnd, pos) == Step(Record(FileIdOf(v), buf[PathStart(buf, pos)..e]), e + 1)
  {
    PathBlockAt(buf, pastEnd, PathStart(buf, pos), e);
  }

  /** The record read at `pos` from a line laid out as written: digits
      `d` that `stoi` reads as `v`, a ';', the path and a '\n', followed by
      a byte that is no line end. */
  lemma ParseLineAt(buf: seq<char>, pastEnd: char, pos: nat, d: string, v: u32, path: string)
    requires AllDigits(d) && Stoi(d) == Some(v as int)
    requires CR !in path && LF !in path
    requires pos + |d| + 1 + |path| < |buf|
    requires buf[pos..pos + |d|] == d && buf[pos + |d|] == ';'
    requires buf[pos + |d| + 1..pos + |d| + 1 + |path|] == path && buf[pos + |d| + 1 + |path|] == LF
    requires var e := pos + |d| + 1 + |path|;
      (e + 1 < |buf| ==> buf[e + 1] != CR && buf[e + 1] != LF) &&
      (e + 1 == |buf| ==> pastEnd != CR && pastEnd != LF)
    ensures RecordParsable(buf, pastEnd, pos)
    ensures NextRecord(buf, pastEnd, pos) == Step(Record(v, path), pos + |d| + 1 + |path| + 1)
  {
    var p := pos + |d| + 1;
    ParseLineId(buf, pos, d);
    ParseLinePath(buf, p, path);
    NextRecordAt(buf, pastEnd, pos, v as int, p + |path|);
    assert FileIdOf(v as int) == v;
  }

  /** Reading one written line from `pos` gives its record and moves to the
      next line. */
  lemma ParseLine(pre: string, r: Record, rest: string, pastEnd: char)
    requires Writable(r)
    requires rest == [] ==> pastEnd != CR && pastEnd != LF
    requires rest != [] ==> rest[0] != CR && rest[0] != LF
    ensures var buf := pre + Line(r) + rest;
      RecordParsable(buf, pastEnd, |pre|) &&
      NextRecord(buf, pastEnd, |pre|) == Step(r, |pre| + |Line(r)|)
  {
    var buf := pre + Line(r) + rest;
    LineLayout(pre, r, rest);
    StoiOfDecimal(r.id);
    ParseLineAt(buf, pastEnd, |pre|, DecimalString(r.id), r.id, r.path);
  }

  /** Written text starts with a digit, never with a line end. */
  lemma SerializeStart(rs: seq<Record>)
    requires rs != []
    ensures Serialize(rs) != [] && Serialize(rs)[0] != CR && Serialize(rs)[0] != LF
  {
    assert Serialize(rs)[0] == DecimalString(rs[0].id)[0];
  }

  /** Written text after `pre` is the first line after `pre`, then the
      rest. */
  lemma SerializeAfter(pre: string, rs: seq<Record>)
    requires rs != []
    ensures pre + Serialize(rs) == pre + Line(rs[0]) + Serialize(rs[1..])
  {
    assert Serialize(rs) == Line(rs[0]) + Serialize(rs[1..]);
  }

  /** A written line in front of written records that read back adds its
      record in front of them. */
  lemma ParseSerializedCons(pre: string, r: Record, tail: seq<Record>, pastEnd: char)
    requires Writable(r) && pastEnd != CR && pastEnd != LF
    requires var pre' := pre + Line(r);
      ListParsable(pre' + Serialize(tail), pastEnd, |pre'|) &&
      Records(pre' + Serialize(tail), pastEnd, |pre'|) == tail
    ensures ListParsable(pre + Line(r) + Serialize(tail), pastEnd, |pre|)
    ensures Records(pre + Line(r) + Serialize(tail), pastEnd, |pre|) == [r] + tail
  {
    var rest := Serialize(tail);
    if rest != [] {
      assert tail != [];
      SerializeStart(tail);
    }
    ParseLine(pre, r, rest, pastEnd);
    RecordsCons(pre + Line(r) + rest, pastEnd, |pre|, r, |pre + Line(r)|, tail);
  }

  /** Written records are read back: the parser inverts `Serialize` for
      records it can hold, whatever precedes them, given a byte after the
      buffer that is no line end. */
  lemma {:induction false} ParseSerialized(pre: string, rs: seq<Record>, pastEnd: char)
    requires forall r <- rs :: Writable(r)
    requires pastEnd != CR && pastEnd != LF
    ensures ListParsable(pre + Serialize(rs), pastEnd, |pre|)
    ensures Records(pre + Serialize(rs), pastEnd, |pre|) == rs
    decreases |rs|
  {
    if rs == [] {
      assert |pre + Serialize(rs)| == |pre|;
    } else {
      ParseSerialized(pre + Line(rs[0]), rs[1..], pastEnd);
      ParseSerializedCons(pre, rs[0], rs[1..], pastEnd);
      SerializeAfter(pre, rs);
      assert [rs[0]] + rs[1..] == rs;
    }
  }
}
