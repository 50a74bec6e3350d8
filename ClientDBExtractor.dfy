/** The record and path helpers of the client database extractor: the
    rewriting of texture and model extensions in string fields, the paths
    of DB2 tables and map WDT files, the remap of item component sections,
    the field conversions of a few tables and the paths of light skyboxes.
    The DB2 parser is outside the model: the raw field values it returns
    are the parameters of these functions. */
module ClientDBExtractor {
  import opened Bytes
  import opened Wrappers
  import opened Strings
  import opened FsPath
  import opened ListFileFormat
  import opened CascListFile
  import opened CascLoader
  import opened Arith

  /** `Model::FILE_EXTENSION`, the extension of converted models. */
  const ModelExtension: string := ".complexmodel"

  /** A suffix `FixPathExtension` rewrites. */
  predicate HasConvertedSuffix(path: string)
  {
    EndsWith(path, ".mdx") || EndsWith(path, ".m2") || EndsWith(path, ".blp")
  }

  /** `FixPathExtension`: a model path ending in ".mdx" or ".m2" gets the
      converted model extension instead; a texture path ending in ".blp"
      gets ".dds" and is lower-cased as a whole; the tests are
      case-sensitive and made in that order, and every other path, the
      empty one included, is kept. The source rewrites its argument in
      place; here the rewritten string is the result. */
  function FixPathExtension(path: string): (fixed: string)
    ensures EndsWith(path, ".mdx") ==> fixed == path[..|path| - 4] + ModelExtension
    ensures !EndsWith(path, ".mdx") && EndsWith(path, ".m2") ==> fixed == path[..|path| - 3] + ModelExtension
    ensures !EndsWith(path, ".mdx") && !EndsWith(path, ".m2") && EndsWith(path, ".blp") ==>
      fixed == Lowercase(path[..|path| - 4]) + ".dds"
    ensures !HasConvertedSuffix(path) ==> fixed == path
  {
    if |path| == 0 then path
    else if EndsWith(path, ".mdx") then path[..|path| - 4] + ModelExtension
    else if EndsWith(path, ".m2") then path[..|path| - 3] + ModelExtension
    else if EndsWith(path, ".blp") then
      LowercaseConcat(path[..|path| - 4], ".dds");
      Lowercase(path[..|path| - 4] + ".dds")
    else path
  }

  /** A string does not end with a suffix whose last character differs
      from its own. */
  lemma LastCharDecides(s: string, suffix: string)
    requires s != [] && suffix != [] && s[|s| - 1] != suffix[|suffix| - 1]
    ensures !EndsWith(s, suffix)
  {
    if |suffix| <= |s| {
      assert s[|s| - |suffix|..][|suffix| - 1] == s[|s| - 1];
    }
  }

  /** No rewritten path keeps a suffix that would be rewritten again. */
  lemma FixedHasNoConvertedSuffix(path: string)
    ensures !HasConvertedSuffix(FixPathExtension(path))
  {
    var fixed := FixPathExtension(path);
    if HasConvertedSuffix(path) {
      assert fixed[|fixed| - 1] in {'l', 's'};
      LastCharDecides(fixed, ".mdx");
      LastCharDecides(fixed, ".m2");
      LastCharDecides(fixed, ".blp");
    }
  }

  /** Rewriting an already rewritten path changes nothing. */
  lemma FixPathExtensionIdempotent(path: string)
    ensures FixPathExtension(FixPathExtension(path)) == FixPathExtension(path)
  {
    FixedHasNoConvertedSuffix(path);
  }

  /** `GetStringFromRecordIndex` and `GetStringFromArrRecordIndex` on the
      raw string `value` of the field: the extension is rewritten, then
      every '\\' becomes '/'. */
  function RecordString(value: string): (s: string)
    ensures '\\' !in s
    ensures |s| == |FixPathExtension(value)|
    ensures forall i | 0 <= i < |s| :: FixPathExtension(value)[i] != '\\' ==> s[i] == FixPathExtension(value)[i]
  {
    Replace(FixPathExtension(value), '\\', '/')
  }

  /** Reading back a string that the record helpers produced changes
      nothing. */
  lemma RecordStringIdempotent(value: string)
    ensures RecordString(RecordString(value)) == RecordString(value)
  {
    var f := FixPathExtension(value);
    var s := Replace(f, '\\', '/');
    assert !HasConvertedSuffix(s) by {
      FixedHasNoConvertedSuffix(value);
      ReplaceKeepsSuffix(f, '\\', '/', ".mdx");
      ReplaceKeepsSuffix(f, '\\', '/', ".m2");
      ReplaceKeepsSuffix(f, '\\', '/', ".blp");
    }
    assert FixPathExtension(s) == s;
    assert '\\' !in s by {
      ReplaceRemoves(f, '\\', '/');
    }
    ReplaceAbsent(s, '\\', '/');
  }

  const DB2Directory: string := "dbfilesclient/"
  const DB2Extension: string := ".db2"

  /** `GetFilePathForDB2ByName`: the lower-cased path of table `name` in
      the client's DB2 directory. */
  function GetFilePathForDB2ByName(name: string): (path: string)
    ensures path == DB2Directory + Lowercase(name) + DB2Extension
  {
    LowercaseConcat(DB2Directory + name, DB2Extension);
    LowercaseConcat(DB2Directory, name);
    Lowercase(DB2Directory + name + DB2Extension)
  }

  /** Two table names share a path exactly when they agree up to case. */
  lemma DB2PathsDiffer(a: string, b: string)
    ensures GetFilePathForDB2ByName(a) == GetFilePathForDB2ByName(b) <==> Lowercase(a) == Lowercase(b)
  {
    var pa := GetFilePathForDB2ByName(a);
    var pb := GetFilePathForDB2ByName(b);
    if pa == pb {
      assert pa[14..|pa| - 4] == Lowercase(a);
      assert pb[14..|pb| - 4] == Lowercase(b);
    }
  }

  /** The list-file path of the WDT file of the map with internal name
      `name`, lower-cased. */
  function WdtPath(name: string): (path: string)
    ensures path == "world/maps/" + Lowercase(name) + "/" + Lowercase(name) + ".wdt"
  {
    LowercaseConcat("world/maps/" + name + "/" + name, ".wdt");
    LowercaseConcat("world/maps/" + name + "/", name);
    LowercaseConcat("world/maps/" + name, "/");
    LowercaseConcat("world/maps/", name);
    Lowercase("world/maps/" + name + "/" + name + ".wdt")
  }

  /** Two map names share a WDT path exactly when they agree up to case. */
  lemma WdtPathsDiffer(a: string, b: string)
    ensures WdtPath(a) == WdtPath(b) <==> Lowercase(a) == Lowercase(b)
  {
    var pa := WdtPath(a);
    var pb := WdtPath(b);
    if pa == pb {
      assert |a| == |b|;
      assert pa[11..11 + |a|] == Lowercase(a);
      assert pb[11..11 + |b|] == Lowercase(b);
    }
  }

  /** `hasWDTFile`: the WDT path has a non-zero id in the list file, and
      that id is in the storage (`existsInCasc`) and in the list file. */
  predicate HasWdtFile(loader: Loader, existsInCasc: u32 -> bool, name: string): (found: bool)
    reads loader, loader.listFile
    ensures found ==> loader.ListFileContainsPath(WdtPath(name))
  {
    var fileId := loader.GetFileIDFromListFilePath(WdtPath(name));
    fileId > 0 && loader.InCascAndListFile(existsInCasc, fileId)
  }

  /** For a list file loaded from records `rs`, a map has a WDT file exactly
      when the last record with its WDT path has a non-zero id that is in
      the storage. */
  lemma HasWdtFileLoaded(loader: Loader, existsInCasc: u32 -> bool, name: string, rs: seq<Record>)
    requires loader.listFile.Current() == Loaded(Tables(map[], map[], [], [], []), rs)
    ensures HasWdtFile(loader, existsInCasc, name) <==>
      exists i | 0 <= i < |rs| && rs[i].path == WdtPath(name) && LastWithKey(rs, i, PathOf) ::
        rs[i].id != 0 && existsInCasc(rs[i].id)
  {
    var path := WdtPath(name);
    if i :| 0 <= i < |rs| && rs[i].path == path {
      var j := LastIndexWithPath(rs, path, i);
      LastRecordLookup(rs, j);
      LastIndexUnique(rs, j);
    } else {
      IdForPathLoaded(rs, path);
    }
  }

  /** The last record with a path gives that path's id, and its id is in
      the loaded id table. */
  lemma LastRecordLookup(rs: seq<Record>, j: nat)
    requires j < |rs| && LastWithKey(rs, j, PathOf)
    ensures var t := Loaded(Tables(map[], map[], [], [], []), rs);
      IdForPath(t, rs[j].path) == rs[j].id && t.HasFileWithID(rs[j].id)
  {
    var empty := Tables(map[], map[], [], [], []);
    IdForPathLoaded(rs, rs[j].path);
    AssignKeys(empty.idToPath, rs, IdOf, PathOf);
    assert IdOf(rs[j]) == rs[j].id;
  }

  /** There is one last record with a given path. */
  lemma LastIndexUnique(rs: seq<Record>, j: nat)
    requires j < |rs| && LastWithKey(rs, j, PathOf)
    ensures forall k | 0 <= k < |rs| && rs[k].path == rs[j].path && LastWithKey(rs, k, PathOf) :: k == j
  {
  }

  /** A record with a path has a last record with that path. */
  lemma LastIndexWithPath(rs: seq<Record>, path: string, i: nat) returns (j: nat)
    requires i < |rs| && rs[i].path == path
    ensures i <= j < |rs| && rs[j].path == path && LastWithKey(rs, j, PathOf)
    decreases |rs| - i
  {
    if k :| i < k < |rs| && rs[k].path == path {
      j := LastIndexWithPath(rs, path, k);
    } else {
      j := i;
    }
  }

  /** The item component sections of the client, in its numbering, that
      the extractor knows. */
  const ClientSections: set<u8> := {0, 1, 2, 3, 4, 5, 6, 7, 9, 10}

  /** The component-section switch of the item display material
      resources: the client's arm, hand, torso, leg, foot and scalp
      sections are renumbered, and every other section becomes 255. */
  function RemapComponentSection(section: u8): (r: u8)
    ensures r == 255 <==> section !in ClientSections
    ensures r != 255 ==> 1 <= r <= 10
  {
    match section
    case 0 => 5   // ArmUpper
    case 1 => 6   // ArmLower
    case 2 => 7   // Hand
    case 3 => 3   // TorsoUpper
    case 4 => 4   // TorsoLower
    case 5 => 8   // LegUpper
    case 6 => 9   // LegLower
    case 7 => 10  // Foot
    case 9 => 1   // ScalpUpper
    case 10 => 2  // ScalpLower
    case _ => 255
  }

  /** The client's section for a remapped section, if there is one. */
  function ClientComponentSection(r: u8): (section: Option<u8>)
    ensures section.Some? <==> 1 <= r <= 10
  {
    match r
    case 1 => Some(9)
    case 2 => Some(10)
    case 3 => Some(3)
    case 4 => Some(4)
    case 5 => Some(0)
    case 6 => Some(1)
    case 7 => Some(2)
    case 8 => Some(5)
    case 9 => Some(6)
    case 10 => Some(7)
    case _ => None
  }

  /** The remap is one-to-one on the known sections and onto 1..10, with
      `ClientComponentSection` as its inverse. */
  lemma ComponentSectionRoundTrip(section: u8, r: u8)
    ensures section in ClientSections ==>
      ClientComponentSection(RemapComponentSection(section)) == Some(section)
    ensures ClientComponentSection(r).Some? ==>
      ClientComponentSection(r).value in ClientSections &&
      RemapComponentSection(ClientComponentSection(r).value) == r
  {
  }

  /** The 64-bit animation flags from the field's two 32-bit words: the
      first word is the low half and the second the high half (the source
      ors the first word with the second shifted left by 32; the bits do
      not overlap, so the or is a sum). */
  function AnimationFlags(low: u32, high: u32): (flags: u64)
    ensures Bits(flags, 0, 32) == low && Bits(flags, 32, 32) == high
  {
    WordHalves(low, high);
    low + high * 0x1_0000_0000
  }

  /** Two 32-bit halves make a 64-bit word from which they read back. */
  lemma WordHalves(low: u32, high: u32)
    ensures var w := low + high * 0x1_0000_0000;
      w < 0x1_0000_0000_0000_0000 && Bits(w, 0, 32) == low && Bits(w, 32, 32) == high
  {
    var n := 0x1_0000_0000;
    Pow2Of32();
    RowMajor(n, high, low);
    MulLe(high, n, n - 1, n);
    assert low + high * n == high * n + low;
  }

  /** Splitting the flags into their two words and joining them again
      gives the flags back. */
  lemma AnimationFlagsSplit(flags: u64)
    ensures Bits(flags, 0, 32) < 0x1_0000_0000 && Bits(flags, 32, 32) < 0x1_0000_0000
    ensures AnimationFlags(Bits(flags, 0, 32), Bits(flags, 32, 32)) == flags
  {
    Pow2Of32();
    assert flags / 0x1_0000_0000 < 0x1_0000_0000;
    assert Bits(flags, 32, 32) == flags / 0x1_0000_0000;
    assert Bits(flags, 0, 32) == flags % 0x1_0000_0000;
  }

  /** The light data timestamp: the raw 16-bit value times 30, widened to
      32 bits first so that it never wraps. */
  function Timestamp(raw: u16): (t: u32)
    ensures t % 30 == 0 && t / 30 == raw
  {
    raw * 30
  }

  /** Timestamps keep the order of the raw values. */
  lemma TimestampMonotonic(a: u16, b: u16)
    ensures a <= b <==> Timestamp(a) <= Timestamp(b)
  {
  }

  /** The creature display gender: the signed raw byte plus one, computed
      in `int` as C++ promotes it. */
  function Gender(raw: i8): (g: int)
    ensures -127 <= g <= 128 && g - 1 == raw
  {
    raw + 1
  }

  /** `lightParam.flags` as written: `1 << 0 * highlightSky`, where `*`
      binds tighter than `<<`, so the shift is always by 0. */
  function LightParamFlags(highlightSky: bool): (flags: u32)
    ensures flags == 1
  {
    Pow2(0 * (if highlightSky then 1 else 0))
  }

  /** The flags word sets its first bit even for a light that does not
      highlight the sky. */
  lemma LightParamFlagsIgnoresSky()
    ensures Bits(LightParamFlags(false), 0, 1) == 1
  {
  }

  /** `lightParam.flags` as evidently intended: the highlight-sky flag
      `1 << 0` multiplied by the field. */
  function LightParamFlagsCorrected(highlightSky: bool): (flags: u32)
    ensures Bits(flags, 0, 1) == 1 <==> highlightSky
    ensures flags < 2
  {
    Pow2(0) * (if highlightSky then 1 else 0)
  }

  /** The skybox name: the record string, lower-cased. */
  function SkyboxName(raw: string): (name: string)
    ensures '\\' !in name
    ensures |name| == |RecordString(raw)|
    ensures forall i | 0 <= i < |name| :: !IsUpper(name[i])
  {
    Lowercase(RecordString(raw))
  }

  /** The light skybox's model path. With bit 1 of `flags` set and no file
      id the path stays empty; with no file id it is the skybox name;
      otherwise it is the list-file path of the id with the model
      extension, when the id is in the storage and in the list file, and
      empty when it is not. */
  function SkyboxModelPath(loader: Loader, existsInCasc: u32 -> bool, skyboxName: string,
                           flags: u8, fileId: u32): (path: string)
    reads loader, loader.listFile
    ensures Bits(flags, 1, 1) == 1 && fileId == 0 ==> path == ""
    ensures Bits(flags, 1, 1) == 0 && fileId == 0 ==> path == skyboxName
    ensures fileId > 0 && !loader.InCascAndListFile(existsInCasc, fileId) ==> path == ""
    ensures fileId > 0 && loader.InCascAndListFile(existsInCasc, fileId) ==>
      var listPath := loader.listFile.idToPath[fileId];
      path == WithoutExtension(listPath) + ModelExtension && EndsWith(path, ModelExtension)
  {
    if Bits(flags, 1, 1) == 0 || fileId > 0 then
      if fileId == 0 then skyboxName
      else if loader.InCascAndListFile(existsInCasc, fileId) then
        ReplaceExtension(loader.GetFilePathFromListFileID(fileId).value, ModelExtension)
      else ""
    else ""
  }

  /** A model path taken from the list file names the same file, without
      its extension, as the list-file path. */
  lemma SkyboxModelWithoutExtension(loader: Loader, existsInCasc: u32 -> bool, skyboxName: string, flags: u8, fileId: u32)
    requires fileId > 0 && loader.InCascAndListFile(existsInCasc, fileId)
    requires FileName(loader.listFile.idToPath[fileId]) != []
    ensures WithoutExtension(SkyboxModelPath(loader, existsInCasc, skyboxName, flags, fileId)) ==
      WithoutExtension(loader.listFile.idToPath[fileId])
  {
    WithoutExtensionOfReplaced(loader.listFile.idToPath[fileId], ModelExtension);
  }

  /** The light skybox's name field: the file name of the skybox name
      without its extension. */
  function SkyboxShortName(skyboxName: string): (name: string)
    ensures name <= FileName(skyboxName) && '/' !in name
    ensures |name| < |FileName(skyboxName)| ==> FileName(skyboxName)[|name|] == '.'
  {
    var file := FileName(skyboxName);
    NoDirectory(file);
    ReplaceExtension(file, "")
  }

  /** A skybox named by a directory, a stem and an extension is called by
      its stem. */
  lemma ShortNameOfFile(dir: string, stem: string, ext: string)
    requires dir == [] || dir[|dir| - 1] == '/'
    requires stem != [] && '/' !in stem && ProperExtension(ext)
    ensures SkyboxShortName(dir + stem + ext) == stem
  {
    assert dir + stem + ext == dir + (stem + ext);
    FileNameAfterDirectory(dir, stem + ext);
    ExtensionAfterStem(stem, ext);
    NoDirectory(stem + ext);
  }

  /** The file name of a path is what follows its directory part. */
  lemma FileNameAfterDirectory(dir: string, file: string)
    requires dir == [] || dir[|dir| - 1] == '/'
    requires '/' !in file
    ensures FileName(dir + file) == file
  {
    DirLengthAppend(dir, file);
    assert DirLength(dir) == |dir|;
  }

  /** A name without '/' has no directory part. */
  lemma NoDirectory(file: string)
    requires '/' !in file
    ensures DirLength(file) == 0 && FileName(file) == file
  {
  }
}
