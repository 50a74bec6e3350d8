/** `CascListFile`: the community list file, read into the id-to-path and
    path-to-id tables and into the id lists of the model, map-object and
    texture files. */
module CascListFile {
  import opened Bytes
  import opened Wrappers
  import opened Strings
  import opened ListFileFormat

  /** The read buffer (`Bytebuffer`) the list file is loaded into: its
      bytes, the byte that lies in memory right after them, and the read
      cursor. */
  class Bytebuffer {
    const data: seq<char>
    const pastEnd: char
    var readData: nat

    constructor(data: seq<char>, pastEnd: char)
      ensures this.data == data && this.pastEnd == pastEnd && readData == 0
    {
      this.data := data;
      this.pastEnd := pastEnd;
      readData := 0;
    }

    /** `Get<char>`: the next byte, or `false` at the end of the buffer. */
    method Get() returns (ok: bool, c: char)
      modifies this
      ensures ok == (old(readData) < |data|)
      ensures ok ==> c == data[old(readData)] && readData == old(readData) + 1
      ensures !ok ==> readData == old(readData)
    {
      if readData < |data| {
        ok, c := true, data[readData];
        readData := readData + 1;
      } else {
        ok, c := false, 0 as char;
      }
    }

    /** The byte under the cursor, which at the end of
      the buffer is the one after it. */
    function Peek(): char
      reads this
    {
      if readData < |data| then data[readData] else pastEnd
    }
  }

  /** The id block of `ParseListFile`: reads up to and including the
      first ';' and converts the text before it with `stoi`. */
  method ReadFileId(fileBuffer: Bytebuffer) returns (fileId: u32)
    requires fileBuffer.readData < |fileBuffer.data| && Stoi(IdText(fileBuffer.data, fileBuffer.readData)).Some?
    modifies fileBuffer
    ensures fileBuffer.readData == PathStart(fileBuffer.data, old(fileBuffer.readData))
    ensures fileId == FileIdOf(Stoi(IdText(fileBuffer.data, old(fileBuffer.readData))).value)
  {
    var buffer := fileBuffer.data;
    var numberStart := fileBuffer.readData;
    var i := numberStart;
    var found := false;
    while i < |buffer| && !found
      invariant numberStart <= i == fileBuffer.readData <= |buffer|
      invariant !found ==> ScanTo(buffer, numberStart, Semicolon) == ScanTo(buffer, i, Semicolon)
      invariant found ==> numberStart < i && ScanTo(buffer, numberStart, Semicolon) == i - 1
      decreases |buffer| - i, !found
    {
      var ok, c := fileBuffer.Get();
      if !ok {
        break;
      }
      if c == ';' {
        found := true;
      }
      i := i + 1;
    }
    var numberEnd := fileBuffer.readData - 1;
    var numberText := buffer[numberStart..numberEnd];
    fileId := FileIdOf(Stoi(numberText).value);
  }

  /** The loop of the path block: reads up to and including the first
      line end and counts it. */
  method ReadToLineEnd(fileBuffer: Bytebuffer) returns (numLineEndingSymbols: nat)
    requires fileBuffer.readData <= |fileBuffer.data|
    modifies fileBuffer
    ensures fileBuffer.readData == PeekIndex(fileBuffer.data, old(fileBuffer.readData))
    ensures numLineEndingSymbols == if ScanTo(fileBuffer.data, old(fileBuffer.readData), LineEnd) < |fileBuffer.data| then 1 else 0
  {
    var buffer := fileBuffer.data;
    var pathStart := fileBuffer.readData;
    numLineEndingSymbols := 0;
    var i := pathStart;
    while i < |buffer| && numLineEndingSymbols == 0
      invariant pathStart <= i == fileBuffer.readData <= |buffer| && numLineEndingSymbols <= 1
      invariant numLineEndingSymbols == 0 ==> ScanTo(buffer, pathStart, LineEnd) == ScanTo(buffer, i, LineEnd)
      invariant numLineEndingSymbols == 1 ==> pathStart < i && ScanTo(buffer, pathStart, LineEnd) == i - 1
      decreases |buffer| - i, 1 - numLineEndingSymbols
    {
      var ok, c := fileBuffer.Get();
      if !ok {
        break;
      }
      if c == CR || c == LF {
        numLineEndingSymbols := numLineEndingSymbols + 1;
      }
      i := i + 1;
    }
  }

  /** The path block of `ParseListFile`: reads up to and including the
      first line end, skips one more line-end character if the next byte is
      one (`SkipRead(1)`), and keeps the text without the line ends counted. */
  method ReadFilePath(fileBuffer: Bytebuffer) returns (filePath: string)
    requires fileBuffer.readData <= |fileBuffer.data| && PeekSafe(fileBuffer.data, fileBuffer.pastEnd, fileBuffer.readData)
    modifies fileBuffer
    ensures fileBuffer.readData == PathBlockEnd(fileBuffer.data, fileBuffer.pastEnd, old(fileBuffer.readData))
    ensures filePath == PathText(fileBuffer.data, fileBuffer.pastEnd, old(fileBuffer.readData))
  {
    var buffer := fileBuffer.data;
    var pathStart := fileBuffer.readData;
    var numLineEndingSymbols := ReadToLineEnd(fileBuffer);
    var currentData := fileBuffer.Peek();
    if currentData == CR || currentData == LF {
      numLineEndingSymbols := numLineEndingSymbols + 1;
      fileBuffer.readData := fileBuffer.readData + 1;
    }
    var pathEnd := fileBuffer.readData - numLineEndingSymbols;
    filePath := buffer[pathStart..pathEnd];
  }

  /** One record of `ParseListFile`: its id, then its path. */
  method ReadRecord(fileBuffer: Bytebuffer) returns (fileId: u32, filePath: string)
    requires fileBuffer.readData < |fileBuffer.data| && ListParsable(fileBuffer.data, fileBuffer.pastEnd, fileBuffer.readData)
    modifies fileBuffer
    ensures var buffer, pastEnd := fileBuffer.data, fileBuffer.pastEnd;
      old(fileBuffer.readData) < fileBuffer.readData <= |buffer| &&
      ListParsable(buffer, pastEnd, fileBuffer.readData) &&
      Records(buffer, pastEnd, old(fileBuffer.readData)) == [Record(fileId, filePath)] + Records(buffer, pastEnd, fileBuffer.readData)
  {
    ghost var recordStart := fileBuffer.readData;
    fileId := ReadFileId(fileBuffer);
    filePath := ReadFilePath(fileBuffer);
    ghost var s := NextRecord(fileBuffer.data, fileBuffer.pastEnd, recordStart);
    assert s.record.id == fileId;
    assert s.record == Record(fileId, filePath);
    RecordsStep(fileBuffer.data, fileBuffer.pastEnd, recordStart);
  }

  /** Moving the next record from the records to come to the records
      done keeps their concatenation. */
  lemma MoveFirst(done: seq<Record>, before: seq<Record>, r: Record, after: seq<Record>, all: seq<Record>)
    requires done + before == all && before == [r] + after
    ensures (done + [r]) + after == all
  {
    assert (done + [r]) + after == done + ([r] + after);
  }

  /** The list file as `CascListFile` holds it: the path it is read from,
      the buffer it was loaded into, the two tables and the three id lists. */
  class ListFile {
    const listPath: string
    var fileBuffer: Bytebuffer?
    var idToPath: map<u32, string>
    var pathToId: map<string, u32>
    var m2Files: seq<u32>
    var wmoFiles: seq<u32>
    var blpFiles: seq<u32>

    constructor(listPath: string)
      ensures this.listPath == listPath && fileBuffer == null
      ensures Current() == Tables(map[], map[], [], [], [])
    {
      this.listPath := listPath;
      fileBuffer := null;
      idToPath := map[];
      pathToId := map[];
      m2Files := [];
      wmoFiles := [];
      blpFiles := [];
    }

    /** The tables and lists as they stand. */
    function Current(): Tables
      reads this
    {
      Tables(idToPath, pathToId, m2Files, wmoFiles, blpFiles)
    }

    predicate HasFileWithID(fileId: u32)
      reads this
    {
      Current().HasFileWithID(fileId)
    }

    function GetFilePathFromID(fileId: u32): Result<string>
      reads this
    {
      Current().GetFilePathFromID(fileId)
    }

    predicate HasFileWithPath(filePath: string)
      reads this
    {
      Current().HasFileWithPath(filePath)
    }

    function GetFileIDFromPath(filePath: string): Result<u32>
      reads this
    {
      Current().GetFileIDFromPath(filePath)
    }

    function GetNumEntries(): u32
      reads this
    {
      Current().GetNumEntries()
    }

    /** The table and list updates for one record of `ParseListFile`. */
    method AddRecord(fileId: u32, filePath: string)
      modifies this
      ensures fileBuffer == old(fileBuffer)
      ensures Current() == AddedRecord(old(Current()), Record(fileId, filePath))
    {
      idToPath := idToPath[fileId := filePath];
      pathToId := pathToId[filePath := fileId];
      if EndsWith(filePath, ".m2") || EndsWith(filePath, ".mdx") {
        m2Files := m2Files + [fileId];
      } else if EndsWith(filePath, ".wmo") {
        wmoFiles := wmoFiles + [fileId];
      } else if EndsWith(filePath, ".blp") {
        blpFiles := blpFiles + [fileId];
      }
    }

    /** `ParseListFile`: reads records until the buffer is used up; each
      sets both tables (a later record overwrites an earlier one with the
      same id or path) and joins at most one id list, by its suffix. */
    method ParseListFile()
      requires fileBuffer != null && fileBuffer.readData <= |fileBuffer.data|
      requires ListParsable(fileBuffer.data, fileBuffer.pastEnd, fileBuffer.readData)
      modifies this, fileBuffer
      ensures fileBuffer == old(fileBuffer) && fileBuffer.readData == |fileBuffer.data|
      ensures Current() == Loaded(old(Current()), Records(fileBuffer.data, fileBuffer.pastEnd, old(fileBuffer.readData)))
    {
      var buf := fileBuffer;
      ghost var start := Current();
      ghost var all := Records(buf.data, buf.pastEnd, buf.readData);
      ghost var done: seq<Record> := [];
      while buf.readData < |buf.data|
        invariant fileBuffer == buf
        invariant buf.readData <= |buf.data| && ListParsable(buf.data, buf.pastEnd, buf.readData)
        invariant done + Records(buf.data, buf.pastEnd, buf.readData) == all
        invariant Current() == Loaded(start, done)
        decreases |buf.data| - buf.readData
      {
        ghost var before := Records(buf.data, buf.pastEnd, buf.readData);
        var fileId, filePath := ReadRecord(buf);
        ghost var after := Records(buf.data, buf.pastEnd, buf.readData);
        AddRecord(fileId, filePath);
        LoadedAppend(start, done, Record(fileId, filePath));
        MoveFirst(done, before, Record(fileId, filePath), after, all);
        done := done + [Record(fileId, filePath)];
      }
      assert Records(buf.data, buf.pastEnd, buf.readData) == [];
      assert done == all;
    }

    /** `Initialize`: when the list file exists and opens, its contents are
      read into a new buffer and parsed; otherwise nothing changes. The file
      system is the parameters `pathExists`, `opens` and `contents` (with
      `after`, the byte in memory after the buffer). */
    method Initialize(pathExists: bool, opens: bool, contents: seq<char>, after: char) returns (ok: bool)
      requires pathExists && opens ==> ListParsable(contents, after, 0)
      modifies this
      ensures ok == (pathExists && opens)
      ensures !ok ==> unchanged(this)
      ensures ok ==> fileBuffer != null && fresh(fileBuffer) && fileBuffer.data == contents
      ensures ok ==> Current() == Loaded(old(Current()), Records(contents, after, 0))
    {
      if !pathExists || !opens {
        return false;
      }
      fileBuffer := new Bytebuffer(contents, after);
      ParseListFile();
      ok := true;
    }
  }

  /** An id is found in loaded tables exactly when a record carries it,
      and gives the path of the last record that does; an id no record
      carries keeps what it had. */
  lemma IdLookups(t: Tables, rs: seq<Record>)
    ensures forall id: u32 :: Loaded(t, rs).HasFileWithID(id) <==> t.HasFileWithID(id) || exists r <- rs :: r.id == id
    ensures forall i | 0 <= i < |rs| && LastWithKey(rs, i, IdOf) :: Loaded(t, rs).GetFilePathFromID(rs[i].id) == Success(rs[i].path)
    ensures forall id: u32 | (forall r <- rs :: r.id != id) :: Loaded(t, rs).GetFilePathFromID(id) == t.GetFilePathFromID(id)
  {
    AssignKeys(t.idToPath, rs, IdOf, PathOf);
    AssignLast(t.idToPath, rs, IdOf, PathOf);
    AssignUntouched(t.idToPath, rs, IdOf, PathOf);
    forall id: u32
      ensures Loaded(t, rs).HasFileWithID(id) <==> t.HasFileWithID(id) || exists r <- rs :: r.id == id
    {
      if id in (set r <- rs :: IdOf(r)) {
        var r :| r in rs && IdOf(r) == id;
      }
    }
  }

  /** A path is found in loaded tables exactly when a record carries it,
      and gives the id of the last record that does. */
  lemma PathLookups(t: Tables, rs: seq<Record>)
    ensures forall path :: Loaded(t, rs).HasFileWithPath(path) <==> t.HasFileWithPath(path) || exists r <- rs :: r.path == path
    ensures forall i | 0 <= i < |rs| && LastWithKey(rs, i, PathOf) :: Loaded(t, rs).GetFileIDFromPath(rs[i].path) == Success(rs[i].id)
  {
    AssignKeys(t.pathToId, rs, PathOf, IdOf);
    AssignLast(t.pathToId, rs, PathOf, IdOf);
    forall path
      ensures Loaded(t, rs).HasFileWithPath(path) <==> t.HasFileWithPath(path) || exists r <- rs :: r.path == path
    {
      if path in (set r <- rs :: PathOf(r)) {
        var r :| r in rs && PathOf(r) == path;
      }
    }
  }

  /** Loaded into empty tables, the entry count is the number of distinct
      ids in the file, cast to 32 bits. */
  lemma NumEntriesLoaded(rs: seq<Record>)
    ensures Loaded(Tables(map[], map[], [], [], []), rs).GetNumEntries() == |set r <- rs :: r.id| % 0x1_0000_0000
  {
    var m := Assign(map[], rs, IdOf, PathOf);
    AssignKeys(map[], rs, IdOf, PathOf);
    assert m.Keys == set r <- rs :: IdOf(r);
    assert (set r <- rs :: IdOf(r)) == set r <- rs :: r.id;
    assert |m| == |m.Keys|;
  }
}
