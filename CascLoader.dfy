/** `CascLoader`: the locale table, the open/close state of the CASC
    storage, the progress callback, the sizing of file reads and the
    list-file lookups. CascLib's calls are parameters: the storage opener
    is a function of the arguments it is given, and an open file is the
    size CascLib reports, its bytes and whether reading succeeds. */
module CascLoader {
  import opened Bytes
  import opened Wrappers
  import opened Strings
  import opened ListFileFormat
  import opened CascListFile

  // ---- locales ----

  /** The CascLib locale constants `GetLocaleFromString` chooses from; they
      are distinct values, so the model keeps them as names. */
  datatype Locale =
    | NONE | ALL | ALL_WOW | ENUS | KOKR | FRFR | DEDE | ZHCN | ESES | ZHTW
    | ENGB | ENCN | ENTW | ESMX | RURU | PTBR | ITIT | PTPT

  /** `GetLocaleFromString`: the locale constant for one of the seventeen
      lower-case names, and `CASC_LOCALE_NONE` for every other string. */
  function GetLocaleFromString(locale: string): (result: Locale)
    ensures result != NONE ==> locale == LocaleName(result)
  {
    if locale == "all" then ALL
    else if locale == "all_wow" then ALL_WOW
    else if locale == "enus" then ENUS
    else if locale == "kokr" then KOKR
    else if locale == "frfr" then FRFR
    else if locale == "dede" then DEDE
    else if locale == "zhcn" then ZHCN
    else if locale == "eses" then ESES
    else if locale == "zhtw" then ZHTW
    else if locale == "engb" then ENGB
    else if locale == "encn" then ENCN
    else if locale == "entw" then ENTW
    else if locale == "esmx" then ESMX
    else if locale == "ruru" then RURU
    else if locale == "ptbr" then PTBR
    else if locale == "itit" then ITIT
    else if locale == "ptpt" then PTPT
    else NONE
  }

  /** The name each locale is chosen by; `NONE` has none and is given the
      empty string, which no name matches. */
  function LocaleName(l: Locale): (name: string)
    ensures l != NONE <==> |name| >= 3
  {
    match l
    case NONE => ""
    case ALL => "all"
    case ALL_WOW => "all_wow"
    case ENUS => "enus"
    case KOKR => "kokr"
    case FRFR => "frfr"
    case DEDE => "dede"
    case ZHCN => "zhcn"
    case ESES => "eses"
    case ZHTW => "zhtw"
    case ENGB => "engb"
    case ENCN => "encn"
    case ENTW => "entw"
    case ESMX => "esmx"
    case RURU => "ruru"
    case PTBR => "ptbr"
    case ITIT => "itit"
    case PTPT => "ptpt"
  }

  /** Every locale is chosen by its name. */
  lemma LocaleRoundTrip(l: Locale)
    ensures GetLocaleFromString(LocaleName(l)) == l
  {
    if l in {NONE, ALL, ALL_WOW, ENUS, KOKR, FRFR, DEDE, ZHCN, ESES} {
      EarlyLocaleRoundTrip(l);
    } else {
      LateLocaleRoundTrip(l);
    }
  }

  lemma EarlyLocaleRoundTrip(l: Locale)
    requires l in {NONE, ALL, ALL_WOW, ENUS, KOKR, FRFR, DEDE, ZHCN, ESES}
    ensures GetLocaleFromString(LocaleName(l)) == l
  {
    match l
    case NONE =>
    case ALL =>
    case ALL_WOW =>
    case ENUS =>
    case KOKR =>
    case FRFR =>
    case DEDE =>
    case ZHCN =>
    case ESES =>
  }

  lemma LateLocaleRoundTrip(l: Locale)
    requires l in {ZHTW, ENGB, ENCN, ENTW, ESMX, RURU, PTBR, ITIT, PTPT}
    ensures GetLocaleFromString(LocaleName(l)) == l
  {
    match l
    case ZHTW =>
    case ENGB =>
    case ENCN =>
    case ENTW =>
    case ESMX =>
    case RURU =>
    case PTBR =>
    case ITIT =>
    case PTPT =>
  }

  /** Only the names choose a locale: a string that is not exactly one of
      them gives `NONE`. */
  lemma LocaleExact(s: string)
    ensures GetLocaleFromString(s) != NONE ==> s == LocaleName(GetLocaleFromString(s))
    ensures (forall l: Locale :: l != NONE ==> s != LocaleName(l)) ==> GetLocaleFromString(s) == NONE
  {
    if GetLocaleFromString(s) != NONE {
      LocaleRoundTrip(GetLocaleFromString(s));
    } else if s != "" {
      LocaleNamesDiffer(s);
    }
  }

  lemma LocaleNamesDiffer(s: string)
    requires GetLocaleFromString(s) == NONE && s != ""
    ensures forall l: Locale :: l != NONE ==> s != LocaleName(l)
  {
    forall l: Locale | l != NONE
      ensures s != LocaleName(l)
    {
      LocaleRoundTrip(l);
    }
  }

  /** The names are lower case, so a locale read from a lower-cased
      string is found whatever the case of the original. */
  lemma LocaleNamesLowerCase(l: Locale)
    ensures Lowercase(LocaleName(l)) == LocaleName(l)
  {
  }

  // ---- the storage ----

  /** `CascLoader::Result`. */
  datatype LoadResult = Success | AlreadyInitialized | MissingCasc | MissingListFile | MissingLocale

  /** The `CASC_OPEN_STORAGE_ARGS` that `Load` hands to `CascOpenStorageEx`. */
  datatype StorageArgs = StorageArgs(localPath: string, codeName: string, region: string, localeMask: Locale)

  /** The arguments `Load` fills in: the working directory, the classic
      client's code name, the EU region and the chosen locale. */
  function OpenArgs(currentPath: string, locale: Locale): (args: StorageArgs)
    ensures args.codeName == "wow_classic" && args.region == "eu"
    ensures args.localPath == currentPath && args.localeMask == locale
  {
    StorageArgs(currentPath, "wow_classic", "eu", locale)
  }

  /** The progress message whose repeats the callback prints only once. */
  const IndexFilesMessage := "Loading index files"

  /** The line `DebugHandler::Print("[CascLoader] : {0}", ...)` prints. */
  function Line(message: string): (line: string)
    ensures BeginsWith(line, "[CascLoader] : ") && |line| == 15 + |message|
  {
    BeginsWithConcat("[CascLoader] : ", message);
    "[CascLoader] : " + message
  }

  /** The index-loading flag and the printed lines after CascLib reports
      the progress messages `works`, in order, to `LoadingCallback`. */
  function AfterCallbacks(flag: bool, printed: seq<string>, works: seq<string>): (bool, seq<string>)
    decreases |works|
  {
    if works == [] then (flag, printed)
    else
      var (f, p) := AfterCallbacks(flag, printed, works[..|works| - 1]);
      var w := works[|works| - 1];
      if BeginsWith(w, IndexFilesMessage) && f then (f, p)
      else (f || BeginsWith(w, IndexFilesMessage), p + [Line(w)])
  }

  /** The flag is up after the callbacks exactly when it was before or an
      index-files message was reported. */
  lemma {:induction false} CallbacksFlag(flag: bool, printed: seq<string>, works: seq<string>)
    ensures AfterCallbacks(flag, printed, works).0 <==>
      flag || exists w <- works :: BeginsWith(w, IndexFilesMessage)
    decreases |works|
  {
    if works != [] {
      var init := works[..|works| - 1];
      CallbacksFlag(flag, printed, init);
      assert works == init + [works[|works| - 1]];
    }
  }

  /** The printed lines that report index-file loading. */
  function IndexLines(lines: seq<string>): nat
  {
    if lines == [] then 0
    else IndexLines(lines[..|lines| - 1]) + if BeginsWith(lines[|lines| - 1], Line(IndexFilesMessage)) then 1 else 0
  }

  /** A line reports index-file loading exactly when its message does. */
  lemma IndexLine(message: string)
    ensures BeginsWith(Line(message), Line(IndexFilesMessage)) <==> BeginsWith(message, IndexFilesMessage)
  {
    var n := |IndexFilesMessage|;
    if |message| >= n {
      assert Line(message)[..15 + n] == Line(message[..n]);
    }
  }

  /** The callbacks only append lines; every message that is not about
      index files is printed; and index-file loading is printed exactly once
      when it is first reported, never when the flag was already up. */
  lemma {:induction false} CallbacksPrint(flag: bool, printed: seq<string>, works: seq<string>)
    ensures var lines := AfterCallbacks(flag, printed, works).1;
      printed <= lines &&
      (forall w <- works :: !BeginsWith(w, IndexFilesMessage) ==> Line(w) in lines) &&
      IndexLines(lines) == IndexLines(printed) +
        if !flag && exists w <- works :: BeginsWith(w, IndexFilesMessage) then 1 else 0
    decreases |works|
  {
    if works != [] {
      var init := works[..|works| - 1];
      var w := works[|works| - 1];
      assert works == init + [w];
      CallbacksPrint(flag, printed, init);
      CallbacksFlag(flag, printed, init);
      var (f, p) := AfterCallbacks(flag, printed, init);
      if !(BeginsWith(w, IndexFilesMessage) && f) {
        IndexLine(w);
        assert (p + [Line(w)])[..|p|] == p;
      }
    }
  }

  /** A file opened in the storage: the size `CascGetFileSize` reports, the
      bytes `CascReadFile` delivers and whether reading succeeds. */
  datatype CascFile = CascFile(size: u32, content: seq<u8>, readable: bool)

  /** `CASC_INVALID_SIZE`. */
  const InvalidSize: u32 := U32Max

  /** A buffer handed back by a read: its bytes and `writtenData`. */
  datatype FileBuffer = FileBuffer(data: seq<u8>, writtenData: nat)

  /** `CascReadFile` of `count` bytes into a buffer of that size. */
  function ReadFile(file: CascFile, count: nat): (r: Option<seq<u8>>)
    ensures r.Some? <==> file.readable && count <= |file.content|
    ensures r.Some? ==> r.value == file.content[..count]
  {
    if file.readable && count <= |file.content| then Some(file.content[..count]) else None
  }

  /** `GetFileByHandle`: the whole file, or nothing when its size is
      invalid or the read fails. */
  function GetFileByHandle(file: CascFile): (b: Option<FileBuffer>)
    ensures file.size == InvalidSize ==> b.None?
    ensures b.Some? ==> file.size <= |file.content| && b.value.writtenData == file.size == |b.value.data|
    ensures b.Some? ==> b.value.data == file.content[..file.size]
  {
    if file.size == InvalidSize then None
    else
      match ReadFile(file, file.size)
      case None => None
      case Some(data) => Some(FileBuffer(data, file.size))
  }

  function Min(a: u32, b: u32): (m: u32)
    ensures m <= a && m <= b && (m == a || m == b)
  {
    if a < b then a else b
  }

  /** `GetFilePartialByHandle`: at most `size` bytes, the smaller of the
      file's size and `size`; nothing when the file's size is invalid or
      the read fails. */
  function GetFilePartialByHandle(file: CascFile, size: u32): (b: Option<FileBuffer>)
    ensures file.size == InvalidSize ==> b.None?
    ensures b.Some? ==> b.value.writtenData == |b.value.data| && b.value.writtenData <= size && b.value.writtenData <= file.size
    ensures b.Some? ==> b.value.writtenData == file.size || b.value.writtenData == size
    ensures b.Some? ==> b.value.writtenData <= |file.content| && b.value.data == file.content[..b.value.writtenData]
  {
    if file.size == InvalidSize then None
    else
      var calculatedSize := Min(file.size, size);
      match ReadFile(file, calculatedSize)
      case None => None
      case Some(data) => Some(FileBuffer(data, calculatedSize))
  }

  /** A partial read is a prefix of the whole file, and a limit at least
      the file's size reads the whole file. */
  lemma PartialIsPrefix(file: CascFile, size: u32)
    requires GetFileByHandle(file).Some?
    ensures GetFilePartialByHandle(file, size).Some?
    ensures GetFilePartialByHandle(file, size).value.data <= GetFileByHandle(file).value.data
    ensures size >= file.size ==> GetFilePartialByHandle(file, size) == GetFileByHandle(file)
  {
  }

  // ---- opening files ----

  /** The files `CascOpenFile` can open in the storage, by file data id and
      by name; opening any other key fails. */
  datatype Storage = Storage(byId: map<u32, CascFile>, byName: map<string, CascFile>)

  /** `GetFileByID`: the whole file with data id `fileId`, or nothing when
      it cannot be opened or read. */
  function GetFileByID(storage: Storage, fileId: u32): (b: Option<FileBuffer>)
    ensures b.Some? <==> fileId in storage.byId && GetFileByHandle(storage.byId[fileId]).Some?
    ensures b.Some? ==> b.value.data == storage.byId[fileId].content[..storage.byId[fileId].size]
  {
    if fileId !in storage.byId then None else GetFileByHandle(storage.byId[fileId])
  }

  /** `GetFilePartialByID`: at most `size` leading bytes of the file with
      data id `fileId`, or nothing when it cannot be opened or read. */
  function GetFilePartialByID(storage: Storage, fileId: u32, size: u32): (b: Option<FileBuffer>)
    ensures b.Some? ==>
      fileId in storage.byId && b.value.writtenData <= size && b.value.data <= storage.byId[fileId].content
    ensures GetFileByID(storage, fileId).Some? ==> b.Some? && b.value.data <= GetFileByID(storage, fileId).value.data
  {
    if fileId !in storage.byId then None else GetFilePartialByHandle(storage.byId[fileId], size)
  }

  /** `GetFileByPath`: the whole file named `filePath` in the storage, or
      nothing when it cannot be opened or read. */
  function GetFileByPath(storage: Storage, filePath: string): (b: Option<FileBuffer>)
    ensures b.Some? <==> filePath in storage.byName && GetFileByHandle(storage.byName[filePath]).Some?
    ensures b.Some? ==> b.value.data == storage.byName[filePath].content[..storage.byName[filePath].size]
  {
    if filePath !in storage.byName then None else GetFileByHandle(storage.byName[filePath])
  }

  /** `GetFileByListFilePath`: the file whose id the list file gives for
      `filePath`; a path the list file lacks asks for id 0. */
  function GetFileByListFilePath(storage: Storage, t: Tables, filePath: string): (b: Option<FileBuffer>)
    ensures t.HasFileWithPath(filePath) ==> b == GetFileByID(storage, t.pathToId[filePath])
    ensures !t.HasFileWithPath(filePath) ==> b == GetFileByID(storage, 0)
  {
    GetFileByID(storage, IdForPath(t, filePath))
  }

  /** `FileExistsInCasc`: the file with data id `fileId` opens and has a
      valid size. */
  predicate FileExistsInCasc(storage: Storage, fileId: u32): (found: bool)
    ensures GetFileByID(storage, fileId).Some? ==> found
    ensures found ==> fileId in storage.byId
    ensures found && storage.byId[fileId].readable ==> GetFilePartialByID(storage, fileId, 0).Some?
  {
    fileId in storage.byId && storage.byId[fileId].size != InvalidSize
  }

  /** A file that reads whole exists; an existing file reads whole unless
      the read itself fails. */
  lemma ReadableIffExists(storage: Storage, fileId: u32)
    ensures GetFileByID(storage, fileId).Some? ==> FileExistsInCasc(storage, fileId)
    ensures FileExistsInCasc(storage, fileId) ==>
      (GetFileByID(storage, fileId).Some? <==>
        storage.byId[fileId].readable && storage.byId[fileId].size <= |storage.byId[fileId].content|)
  {
  }

  /** The loader: whether the storage handle is set, the list file, the
      locale string and the flag `_isLoadingIndexFiles` (a static in the
      source, shared by every loader), with the messages the callback has
      printed. */
  class Loader {
    var storageOpen: bool
    const listFile: ListFile
    var locale: string
    var isLoadingIndexFiles: bool
    var printed: seq<string>

    constructor(listPath: string, locale: string)
      ensures !storageOpen && this.locale == locale && !isLoadingIndexFiles && printed == []
      ensures fresh(listFile) && listFile.listPath == listPath && listFile.fileBuffer == null
      ensures listFile.Current() == Tables(map[], map[], [], [], [])
    {
      storageOpen := false;
      this.locale := locale;
      isLoadingIndexFiles := false;
      printed := [];
      listFile := new ListFile(listPath);
    }

    /** `Load`: refuses a second initialisation; lower-cases the locale
      in place and refuses an empty or unknown one; opens the storage with
      `openStorage`, during which CascLib reports the messages `progress` to
      `LoadingCallback`; then reads the list file (the file system is the
      parameters `listExists`, `listOpens`, `listContents` and `after`).
      The storage stays open when the list file cannot be read. */
    method Load(currentPath: string, openStorage: StorageArgs -> bool, progress: seq<string>,
                listExists: bool, listOpens: bool, listContents: seq<char>, after: char)
      returns (result: LoadResult)
      requires listExists && listOpens ==> ListParsable(listContents, after, 0)
      modifies this, listFile
      ensures old(storageOpen) ==> result == AlreadyInitialized && unchanged(this) && unchanged(listFile)
      ensures result == AlreadyInitialized <==> old(storageOpen)
      ensures !old(storageOpen) ==> locale == Lowercase(old(locale))
      ensures result == MissingLocale ==> isLoadingIndexFiles == old(isLoadingIndexFiles) && printed == old(printed)
      ensures result in {MissingCasc, MissingListFile, LoadResult.Success} ==>
        var (flag, lines) := AfterCallbacks(old(isLoadingIndexFiles), old(printed), progress);
        isLoadingIndexFiles == flag &&
        printed == lines +
          (if result == MissingCasc then [] else [Line("Loading ListFile")]) +
          (if result == LoadResult.Success
           then [Line("Loaded ListFile with " + DecimalString(listFile.GetNumEntries()) + " entries")]
           else [])
      ensures !old(storageOpen) ==>
        var chosen := GetLocaleFromString(Lowercase(old(locale)));
        (result == MissingLocale <==> chosen == NONE) &&
        (result == MissingCasc <==> chosen != NONE && !openStorage(OpenArgs(currentPath, chosen))) &&
        (result in {MissingListFile, LoadResult.Success} ==> storageOpen) &&
        (result in {MissingLocale, MissingCasc} ==> !storageOpen && unchanged(listFile)) &&
        (result == MissingListFile <==> storageOpen && !(listExists && listOpens)) &&
        (result == LoadResult.Success ==> listFile.Current() == Loaded(old(listFile.Current()), Records(listContents, after, 0)))
    {
      if storageOpen {
        return AlreadyInitialized;
      }
      locale := Lowercase(locale);
      var chosen := GetLocaleFromString(locale);
      if |locale| == 0 || chosen == NONE {
        return MissingLocale;
      }
      var args := OpenArgs(currentPath, chosen);
      ReportProgress(progress);
      if !openStorage(args) {
        return MissingCasc;
      }
      storageOpen := true;
      printed := printed + [Line("Loading ListFile")];
      var ok := listFile.Initialize(listExists, listOpens, listContents, after);
      if !ok {
        return MissingListFile;
      }
      var numFileEntries := listFile.GetNumEntries();
      printed := printed + [Line("Loaded ListFile with " + DecimalString(numFileEntries) + " entries")];
      return LoadResult.Success;
    }

    /** CascLib calling `LoadingCallback` once per progress message while
      the storage opens. */
    method ReportProgress(works: seq<string>)
      modifies this
      ensures storageOpen == old(storageOpen) && locale == old(locale)
      ensures (isLoadingIndexFiles, printed) == AfterCallbacks(old(isLoadingIndexFiles), old(printed), works)
    {
      for i := 0 to |works|
        invariant storageOpen == old(storageOpen) && locale == old(locale)
        invariant (isLoadingIndexFiles, printed) == AfterCallbacks(old(isLoadingIndexFiles), old(printed), works[..i])
      {
        assert works[..i + 1][..i] == works[..i];
        var stop := LoadingCallback(works[i]);
      }
      assert works[..|works|] == works;
    }

    /** `Close`: nothing without an open storage; otherwise closes it and
      clears the index-loading flag. */
    method Close()
      modifies this
      ensures !storageOpen && printed == old(printed) && locale == old(locale)
      ensures isLoadingIndexFiles == (old(isLoadingIndexFiles) && !old(storageOpen))
    {
      if !storageOpen {
        return;
      }
      storageOpen := false;
      isLoadingIndexFiles := false;
    }

    /** `LoadingCallback`: prints each progress message, but a message
      starting with "Loading index files" only the first time; never asks
      CascLib to stop. */
    method LoadingCallback(work: string) returns (stop: bool)
      modifies this
      ensures !stop
      ensures storageOpen == old(storageOpen) && locale == old(locale)
      ensures isLoadingIndexFiles == (old(isLoadingIndexFiles) || BeginsWith(work, IndexFilesMessage))
      ensures printed == if BeginsWith(work, IndexFilesMessage) && old(isLoadingIndexFiles) then old(printed)
                         else old(printed) + [Line(work)]
    {
      if BeginsWith(work, IndexFilesMessage) {
        if isLoadingIndexFiles {
          return false;
        }
        isLoadingIndexFiles := true;
      }
      printed := printed + [Line(work)];
      return false;
    }

    /** `ListFileContainsID`. */
    predicate ListFileContainsID(fileId: u32)
      reads this, listFile
    {
      listFile.HasFileWithID(fileId)
    }

    /** `ListFileContainsPath`. */
    predicate ListFileContainsPath(filePath: string)
      reads this, listFile
    {
      listFile.HasFileWithPath(filePath)
    }

    /** `InCascAndListFile`, with `FileExistsInCasc` as the parameter
      `existsInCasc`. */
    predicate InCascAndListFile(existsInCasc: u32 -> bool, fileId: u32)
      reads this, listFile
    {
      existsInCasc(fileId) && ListFileContainsID(fileId)
    }

    /** `GetFilePathFromListFileID`. */
    function GetFilePathFromListFileID(fileId: u32): Result<string>
      reads this, listFile
    {
      listFile.GetFilePathFromID(fileId)
    }

    /** `GetFileIDFromListFilePath`. */
    function GetFileIDFromListFilePath(filePath: string): u32
      reads this, listFile
    {
      IdForPath(listFile.Current(), filePath)
    }
  }

  /** The id `GetFileIDFromListFilePath` gives for a path in tables `t`:
      0 for a path not there. */
  function IdForPath(t: Tables, filePath: string): (id: u32)
    ensures !t.HasFileWithPath(filePath) ==> id == 0
    ensures t.HasFileWithPath(filePath) ==> t.GetFileIDFromPath(filePath) == Wrappers.Success(id)
  {
    if !t.HasFileWithPath(filePath) then 0 else t.GetFileIDFromPath(filePath).value
  }

  /** After a list file is loaded into empty tables, a path gives the id of
      the last record with that path, and a path no record has gives 0. */
  lemma IdForPathLoaded(rs: seq<Record>, filePath: string)
    ensures (forall r <- rs :: r.path != filePath) ==> IdForPath(Loaded(Tables(map[], map[], [], [], []), rs), filePath) == 0
    ensures forall i | 0 <= i < |rs| && LastWithKey(rs, i, PathOf) ::
      IdForPath(Loaded(Tables(map[], map[], [], [], []), rs), rs[i].path) == rs[i].id
  {
    PathLookups(Tables(map[], map[], [], [], []), rs);
  }
}
