/** The per-chunk post-processing of the map extractor that works on single
    values: the chunk's place in the map grid, the resolution of each
    liquid instance's vertex format through the liquid tables, the name
    hashes of model placements and the hash of the chunk's blend map. */
module MapChunk {
  import opened Bytes
  import opened Strings
  import opened FsPath
  import opened ListFileFormat
  import opened ClientDBExtractor

  /** The map is a grid of 64 by 64 chunks. */
  const ChunksPerStride: nat := 64

  /** `chunkGridPosX` and `chunkGridPosY` of chunk `chunkId`. */
  function ChunkGridPosition(chunkId: u32): (pos: (nat, nat))
    ensures pos.0 < ChunksPerStride && chunkId == pos.1 * ChunksPerStride + pos.0
    ensures chunkId < ChunksPerStride * ChunksPerStride ==> pos.1 < ChunksPerStride
  {
    (chunkId % ChunksPerStride, chunkId / ChunksPerStride)
  }

  /** The chunk at column `x` and row `y` of the grid. */
  function ChunkIdAt(x: nat, y: nat): (chunkId: nat)
    requires x < ChunksPerStride && y < ChunksPerStride
    ensures chunkId < ChunksPerStride * ChunksPerStride
  {
    y * ChunksPerStride + x
  }

  /** Every chunk of the map is at one grid position, and every grid
      position holds one chunk. */
  lemma ChunkGridRoundTrip(chunkId: u32, x: nat, y: nat)
    requires x < ChunksPerStride && y < ChunksPerStride
    ensures ChunkGridPosition(ChunkIdAt(x, y) as u32) == (x, y)
    ensures chunkId < ChunksPerStride * ChunksPerStride ==>
      var pos := ChunkGridPosition(chunkId);
      ChunkIdAt(pos.0, pos.1) == chunkId
  {
    Arith.RowMajor(ChunksPerStride, y, x);
  }

  /** The fields of an `MH2O` liquid instance the post-processing reads or
      writes. */
  datatype LiquidInstance = LiquidInstance(
    liquidType: u16, liquidVertexFormat: u16,
    offsetX: u8, offsetY: u8, width: u8, height: u8,
    vertexDataOffset: u32)

  /** The three client tables the resolution reads, by record id: the liquid
      type id of a liquid object, the material id of a liquid type and the
      vertex format of a liquid material. */
  datatype LiquidTables = LiquidTables(objects: map<int, i16>, types: map<int, int>, materials: map<int, u16>)

  /** `i16 liquidTypeID = liquidInstance.liquidType`: the 16 bits read as a
      signed number. */
  function AsI16(v: u16): (r: i16)
    ensures (r + 0x1_0000) % 0x1_0000 == v
  {
    if v < 0x8000 then v else v - 0x1_0000
  }

  /** The liquid type that is always drawn with vertex format 2. */
  const LiquidTypeTwo: u16 := 2
  /** The vertex format that has no vertex data of its own. */
  const FormatTwo: u16 := 2
  /** Vertex formats from 42 up are liquid object ids, not formats. */
  const FirstObjectFormat: u16 := 42

  /** The liquid type id a vertex format of 42 or more stands for: the
      liquid object's type when the format is a liquid object id, the
      instance's own type otherwise. */
  function LiquidTypeId(inst: LiquidInstance, tables: LiquidTables): i16
  {
    if inst.liquidVertexFormat as int in tables.objects then tables.objects[inst.liquidVertexFormat as int]
    else AsI16(inst.liquidType)
  }

  /** The first stage: a format below 42 is kept; liquid type 2 gets format
      2; any other liquid takes the format of the material of its liquid
      type, and keeps its format when the liquid type or the material is
      not in the tables. */
  function ResolveVertexFormat(inst: LiquidInstance, tables: LiquidTables): (format: u16)
    ensures inst.liquidVertexFormat < FirstObjectFormat ==> format == inst.liquidVertexFormat
    ensures inst.liquidVertexFormat >= FirstObjectFormat && inst.liquidType == LiquidTypeTwo ==> format == FormatTwo
    ensures format != inst.liquidVertexFormat ==>
      inst.liquidVertexFormat >= FirstObjectFormat &&
      (format == FormatTwo || format in tables.materials.Values)
  {
    var format := inst.liquidVertexFormat;
    if format < FirstObjectFormat then format
    else if inst.liquidType == LiquidTypeTwo then FormatTwo
    else
      var typeId := LiquidTypeId(inst, tables);
      if typeId as int in tables.types && tables.types[typeId as int] in tables.materials then
        tables.materials[tables.types[typeId as int]]
      else format
  }

  /** Both stages: an instance without vertex data that is not liquid type
      2 gets format 2; an instance of format 2 covers the whole 8 by 8 cell
      from its corner and has no vertex data (offset u32 max); every other
      instance keeps all but its format. */
  function PostProcessLiquid(inst: LiquidInstance, tables: LiquidTables): (r: LiquidInstance)
    ensures r.liquidType == inst.liquidType
    ensures inst.vertexDataOffset == 0 && inst.liquidType != LiquidTypeTwo ==> r.liquidVertexFormat == FormatTwo
    ensures !(inst.vertexDataOffset == 0 && inst.liquidType != LiquidTypeTwo) ==>
      r.liquidVertexFormat == ResolveVertexFormat(inst, tables)
    ensures r.liquidVertexFormat == FormatTwo ==>
      r.width == 8 && r.height == 8 && r.offsetX == 0 && r.offsetY == 0 && r.vertexDataOffset == U32Max
    ensures r.liquidVertexFormat != FormatTwo ==> r == inst.(liquidVertexFormat := r.liquidVertexFormat)
  {
    var format :=
      if inst.vertexDataOffset == 0 && inst.liquidType != LiquidTypeTwo then FormatTwo
      else ResolveVertexFormat(inst, tables);
    if format == FormatTwo then
      inst.(liquidVertexFormat := format, width := 8, height := 8, offsetX := 0, offsetY := 0,
            vertexDataOffset := U32Max)
    else inst.(liquidVertexFormat := format)
  }

  /** Post-processing an instance a second time changes nothing once its
      format is a real format, below 42. */
  lemma PostProcessLiquidIdempotent(inst: LiquidInstance, tables: LiquidTables)
    requires PostProcessLiquid(inst, tables).liquidVertexFormat < FirstObjectFormat
    ensures PostProcessLiquid(PostProcessLiquid(inst, tables), tables) == PostProcessLiquid(inst, tables)
  {
    var r := PostProcessLiquid(inst, tables);
    if r.liquidVertexFormat != FormatTwo {
      assert r.vertexDataOffset == inst.vertexDataOffset;
      assert !(inst.vertexDataOffset == 0 && inst.liquidType != LiquidTypeTwo);
    }
  }

  /** The loop over the chunk's liquid instances: each is rewritten in
      place by the two stages. */
  method PostProcessLiquids(instances: array<LiquidInstance>, tables: LiquidTables)
    modifies instances
    ensures forall i | 0 <= i < instances.Length :: instances[i] == PostProcessLiquid(old(instances[i]), tables)
  {
    var i := 0;
    while i < instances.Length
      invariant 0 <= i <= instances.Length
      invariant forall k | 0 <= k < i :: instances[k] == PostProcessLiquid(old(instances[k]), tables)
      invariant forall k | i <= k < instances.Length :: instances[k] == old(instances[k])
    {
      var liquidInstance := instances[i];
      var liquidVertexFormat := liquidInstance.liquidVertexFormat;
      if liquidVertexFormat >= FirstObjectFormat {
        if liquidInstance.liquidType == LiquidTypeTwo {
          liquidVertexFormat := FormatTwo;
        } else {
          var liquidTypeId: i16 := -1;
          if liquidVertexFormat as int in tables.objects {
            liquidTypeId := tables.objects[liquidVertexFormat as int];
          } else {
            liquidTypeId := AsI16(liquidInstance.liquidType);
          }
          if liquidTypeId as int in tables.types {
            var materialId := tables.types[liquidTypeId as int];
            if materialId in tables.materials {
              liquidVertexFormat := tables.materials[materialId];
            }
          }
        }
      }
      if liquidInstance.vertexDataOffset == 0 && liquidInstance.liquidType != LiquidTypeTwo {
        liquidVertexFormat := FormatTwo;
      }
      if liquidVertexFormat == FormatTwo {
        liquidInstance := liquidInstance.(width := 8, height := 8, offsetX := 0, offsetY := 0);
      }
      liquidInstance := liquidInstance.(liquidVertexFormat := liquidVertexFormat);
      if liquidInstance.liquidVertexFormat == FormatTwo {
        liquidInstance := liquidInstance.(vertexDataOffset := U32Max);
      }
      instances[i] := liquidInstance;
      i := i + 1;
    }
  }

  /** The name hash of a model placement after the post-processing: the
      sentinels 0 and u32 max, and ids not in the storage and the list
      file, are kept; any other id becomes the hash of its list-file path
      with the model extension. */
  function PlacementNameHash(t: Tables, existsInCasc: u32 -> bool, hash: string -> u32, nameHash: u32): (r: u32)
    ensures nameHash == 0 || nameHash == U32Max ==> r == nameHash
    ensures !(existsInCasc(nameHash) && t.HasFileWithID(nameHash)) ==> r == nameHash
    ensures nameHash != 0 && nameHash != U32Max && existsInCasc(nameHash) && t.HasFileWithID(nameHash) ==>
      exists path :: path == WithoutExtension(t.idToPath[nameHash]) + ModelExtension && r == hash(path)
  {
    if nameHash == 0 || nameHash == U32Max then nameHash
    else if !(existsInCasc(nameHash) && t.HasFileWithID(nameHash)) then nameHash
    else hash(ReplaceExtension(t.idToPath[nameHash], ModelExtension))
  }

  /** The loop over the chunk's model placements. */
  method PostProcessPlacements(t: Tables, existsInCasc: u32 -> bool, hash: string -> u32, nameHashes: array<u32>)
    modifies nameHashes
    ensures forall i | 0 <= i < nameHashes.Length ::
      nameHashes[i] == PlacementNameHash(t, existsInCasc, hash, old(nameHashes[i]))
  {
    var i := 0;
    while i < nameHashes.Length
      invariant 0 <= i <= nameHashes.Length
      invariant forall k | 0 <= k < i :: nameHashes[k] == PlacementNameHash(t, existsInCasc, hash, old(nameHashes[k]))
      invariant forall k | i <= k < nameHashes.Length :: nameHashes[k] == old(nameHashes[k])
    {
      var nameHash := nameHashes[i];
      if nameHash == 0 || nameHash == U32Max {
        i := i + 1;
        continue;
      }
      if !(existsInCasc(nameHash) && t.HasFileWithID(nameHash)) {
        i := i + 1;
        continue;
      }
      var modelPath := ReplaceExtension(t.idToPath[nameHash], ModelExtension);
      nameHashes[i] := hash(modelPath);
      i := i + 1;
    }
  }

  /** The path of the chunk's blend map, with the grid position written in
      decimal: a `.dds` file named after the map, in the map's directory
      under "blendmaps" (distinct positions give distinct paths, see
      `BlendMapPathsDiffer`). */
  function BlendMapPath(internalName: string, x: nat, y: nat): (path: string)
    ensures BeginsWith(path, "blendmaps/" + internalName + "/" + internalName + "_")
    ensures EndsWith(path, ".dds")
  {
    var front := "blendmaps/" + internalName + "/" + internalName + "_";
    var path := front + DecimalString(x) + "_" + DecimalString(y) + ".dds";
    BeginsWithConcat(front, DecimalString(x) + "_" + DecimalString(y) + ".dds");
    assert path == front + (DecimalString(x) + "_" + DecimalString(y) + ".dds");
    EndsWithConcat(front + DecimalString(x) + "_" + DecimalString(y), ".dds");
    path
  }

  /** `chunkAlphaMapTextureHash`: the 32-bit sum `hash * set + max * !set`,
      which selects the hash of the blend map's path when some alpha byte
      is set and the sentinel u32 max when none is. */
  function ChunkAlphaMapTextureHash(hash: string -> u32, internalName: string, x: nat, y: nat,
                                    isAlphaMapSet: bool): (h: u32)
    ensures h == if isAlphaMapSet then hash(BlendMapPath(internalName, x, y)) else U32Max
  {
    var selected := if isAlphaMapSet then 1 else 0;
    (hash(BlendMapPath(internalName, x, y)) * selected + U32Max * (1 - selected)) % 0x1_0000_0000
  }

  /** The chunks of one map have blend maps at distinct paths. */
  lemma BlendMapPathsDiffer(internalName: string, x: nat, y: nat, x2: nat, y2: nat)
    requires BlendMapPath(internalName, x, y) == BlendMapPath(internalName, x2, y2)
    ensures x == x2 && y == y2
  {
    var front := "blendmaps/" + internalName + "/" + internalName + "_";
    var a := DecimalString(x) + "_" + DecimalString(y);
    var b := DecimalString(x2) + "_" + DecimalString(y2);
    assert BlendMapPath(internalName, x, y) == front + a + ".dds";
    assert BlendMapPath(internalName, x2, y2) == front + b + ".dds";
    CancelAround(front, a, b, ".dds");
    SplitAtSeparator(DecimalString(x), DecimalString(y), DecimalString(x2), DecimalString(y2));
    DecimalValueOfString(x);
    DecimalValueOfString(x2);
    DecimalValueOfString(y);
    DecimalValueOfString(y2);
  }

  /** Texts between the same front and back are equal when the joined
      texts are. */
  lemma CancelAround(front: string, a: string, b: string, back: string)
    requires front + a + back == front + b + back
    ensures a == b
  {
    var s := front + a + back;
    assert |a| == |b|;
    assert a == s[|front|..|front| + |a|];
  }

  /** Digits joined by '_' to more text split back at the '_'. */
  lemma SplitAtSeparator(a: string, b: string, a2: string, b2: string)
    requires AllDigits(a) && AllDigits(a2)
    requires a + "_" + b == a2 + "_" + b2
    ensures a == a2 && b == b2
  {
    var s := a + "_" + b;
    FirstSeparator(a, b);
    FirstSeparator(a2, b2);
    assert |a| == |a2|;
    assert a == s[..|a|];
    assert a2 == s[..|a2|];
    assert b == s[|a| + 1..];
    assert b2 == s[|a2| + 1..];
  }

  /** The first '_' after digits is the one that follows them. */
  lemma FirstSeparator(a: string, b: string)
    requires AllDigits(a)
    ensures (a + "_" + b)[|a|] == '_'
    ensures forall k | 0 <= k < |a| :: (a + "_" + b)[k] != '_'
  {
    assert forall k | 0 <= k < |a| :: (a + "_" + b)[k] == a[k];
  }
}
