/** The per-chunk texture-layer pass of the map extractor: the texture ids
    of the cells' four layers are turned into hashes of their converted
    texture paths, and the alpha maps of layers 1 to 3 are packed into one
    four-channel byte buffer for the chunk, channel by channel through the
    swizzle {2, 1, 0, 3}. The cells' texture ids are the rows of
    `layerTextureIDs` and `alphas[i][l]` is the alpha map of layer `l + 1`
    of cell `i`. */
module MapAlphaMaps {
  import opened Bytes
  import opened Strings
  import opened FsPath
  import opened ListFileFormat
  import opened Arith

  /** The key a layer texture is hashed by: its list-file path with the
      extension "dds", lower-cased, with every '\\' made a '/'. */
  function TextureKey(path: string): (key: string)
    ensures EndsWith(key, ".dds") && '\\' !in key
    ensures forall i | 0 <= i < |key| :: !IsUpper(key[i])
  {
    var converted := ReplaceExtension(path, "dds");
    KeySuffix(converted);
    Replace(Lowercase(converted), '\\', '/')
  }

  /** Lower-casing and the separator replacement keep the ".dds" suffix. */
  lemma KeySuffix(converted: string)
    requires EndsWith(converted, "." + "dds")
    ensures EndsWith(Replace(Lowercase(converted), '\\', '/'), ".dds")
  {
    assert "." + "dds" == ".dds";
    assert Lowercase(".dds") == ".dds";
    LowercaseKeepsSuffix(converted, ".dds");
    ReplaceKeepsSuffix(Lowercase(converted), '\\', '/', ".dds");
  }

  /** A layer whose texture id is neither of the sentinels 0 and u32 max
      and whose list-file path is not empty: its id is rewritten to a
      hash, and its alpha map is packed. */
  predicate WritesLayer(t: Tables, fileId: u32)
  {
    fileId != 0 && fileId != U32Max && fileId in t.idToPath && t.idToPath[fileId] != ""
  }

  /** `GetFilePathFromListFileID` uses `at`, so a texture id other than the
      sentinels must be in the list file. */
  predicate KnownTextureId(t: Tables, fileId: u32)
  {
    fileId == 0 || fileId == U32Max || fileId in t.idToPath
  }

  /** The texture id a layer ends with: a hashed key for a layer that
      writes, 0 for the sentinel 0 and u32 max for everything else (the
      sentinel u32 max and an empty list-file path). */
  function LayerTextureId(t: Tables, hash: string -> u32, fileId: u32): (r: u32)
    requires KnownTextureId(t, fileId)
    ensures WritesLayer(t, fileId) ==> r == hash(TextureKey(t.idToPath[fileId]))
    ensures !WritesLayer(t, fileId) ==> r == if fileId == 0 then 0 else U32Max
  {
    if fileId == 0 || fileId == U32Max then fileId
    else if t.idToPath[fileId] == "" then U32Max
    else hash(TextureKey(t.idToPath[fileId]))
  }

  /** `CHUNK_ALPHAMAP_CELL_RESOLUTION`: each cell's alpha map is a 64 by 64
      image (the blend map is written as one 64 by 64 layer per cell). */
  const CellResolution: nat := 64 * 64

  /** The bytes of one cell in the buffer: four channels per pixel. */
  const CellBytes: nat := CellResolution * 4

  /** `swizzleMap`: layer `l` (1 to 3) writes channel `swizzleMap[l - 1]`. */
  const Swizzle: seq<nat> := [2, 1, 0, 3]

  /** The channel of a layer, and back: channel `c` holds layer `3 - c`. */
  function LayerChannel(layer: nat): (channel: nat)
    requires 1 <= layer <= 3
    ensures channel < 3 && channel == 3 - layer
  {
    Swizzle[layer - 1]
  }

  /** Byte `k` of the buffer belongs to cell `cell` and channel `channel`;
      each cell holds `CellResolution` pixels of four bytes. */
  predicate InCellChannel(cell: nat, channel: nat, k: nat)
  {
    k / CellBytes == cell && k % 4 == channel
  }

  /** The pixel of its cell that byte `k` belongs to. */
  function PixelOf(k: nat): (p: nat)
    ensures p < CellResolution
  {
    (k % CellBytes) / 4
  }

  /** `basePixelDestination + pixel * 4 + channel` is the byte of that
      pixel and channel in that cell, and no other byte is. */
  lemma PixelIndex(cell: nat, pixel: nat, channel: nat)
    requires pixel < CellResolution && channel < 4
    ensures var dst := cell * CellBytes + pixel * 4 + channel;
      InCellChannel(cell, channel, dst) && PixelOf(dst) == pixel &&
      forall k: nat | InCellChannel(cell, channel, k) && PixelOf(k) == pixel :: k == dst
  {
    var size := CellBytes;
    var dst := cell * CellBytes + pixel * 4 + channel;
    assert dst == cell * size + (pixel * 4 + channel);
    RowMajor(size, cell, pixel * 4 + channel);
    RowMajor(4, pixel, channel);
    assert dst == (cell * CellResolution + pixel) * 4 + channel;
    RowMajor(4, cell * CellResolution + pixel, channel);
    forall k: nat | InCellChannel(cell, channel, k) && PixelOf(k) == pixel
      ensures k == dst
    {
      IndexParts(k);
    }
  }

  /** Every byte is its cell's start plus four bytes per pixel plus its
      channel. */
  lemma IndexParts(k: nat)
    ensures k == (k / CellBytes) * CellBytes + PixelOf(k) * 4 + k % 4
  {
    var size := CellBytes;
    var r := k % size;
    assert k == (k / size) * size + r;
    assert r == (r / 4) * 4 + r % 4;
    assert size == CellBytes;
    assert (k / size) * size + (r / 4) * 4 + r % 4 == ((k / size) * CellResolution + r / 4) * 4 + r % 4;
    RowMajor(4, (k / size) * CellResolution + r / 4, r % 4);
  }

  /** The inner pixel loop: the alpha map of one layer of one cell goes to
      that layer's channel of the cell's pixels; `anySet` says whether any
      of its bytes is non-zero. */
  method WriteLayerAlpha(buffer: array<u8>, cell: nat, channel: nat, alpha: seq<u8>)
    returns (anySet: bool)
    requires channel < 4 && CellResolution <= |alpha|
    requires (cell + 1) * CellBytes <= buffer.Length
    modifies buffer
    ensures anySet <==> exists p | 0 <= p < CellResolution :: alpha[p] != 0
    ensures forall k | 0 <= k < buffer.Length ::
      buffer[k] == if InCellChannel(cell, channel, k) then alpha[PixelOf(k)] else old(buffer[k])
  {
    var basePixelDestination := cell * CellBytes;
    anySet := false;
    var pixel := 0;
    while pixel < CellResolution
      invariant 0 <= pixel <= CellResolution
      invariant anySet <==> exists p | 0 <= p < pixel :: alpha[p] != 0
      invariant forall k | 0 <= k < buffer.Length ::
        buffer[k] == if InCellChannel(cell, channel, k) && PixelOf(k) < pixel
                     then alpha[PixelOf(k)] else old(buffer[k])
    {
      var dst := basePixelDestination + pixel * 4 + channel;
      PixelIndex(cell, pixel, channel);
      MulLe(cell + 1, CellBytes, cell + 1, CellBytes);
      assert dst < (cell + 1) * CellBytes by {
        assert (cell + 1) * CellBytes == cell * CellBytes + CellBytes;
      }
      var pixelValue := alpha[pixel];
      anySet := anySet || pixelValue != 0;
      buffer[dst] := pixelValue;
      pixel := pixel + 1;
    }
  }

  /** The texture ids of one cell, as a sequence. */
  function CellIds(ids: array2<u32>, cell: nat): (row: seq<u32>)
    requires cell < ids.Length0 && ids.Length1 == 4
    reads ids
    ensures |row| == 4 && forall l | 0 <= l < 4 :: row[l] == ids[cell, l]
  {
    [ids[cell, 0], ids[cell, 1], ids[cell, 2], ids[cell, 3]]
  }

  /** The texture ids of all cells, as sequences. */
  function Rows(ids: array2<u32>): (rows: seq<seq<u32>>)
    requires ids.Length1 == 4
    reads ids
    ensures |rows| == ids.Length0 && forall i | 0 <= i < ids.Length0 :: rows[i] == CellIds(ids, i)
  {
    seq(ids.Length0, i requires 0 <= i < ids.Length0 reads ids => CellIds(ids, i))
  }

  /** The alpha maps a cell needs: one of at least `CellResolution` bytes for
      every layer from 1 up that writes. */
  predicate CellAlphaShape(t: Tables, row: seq<u32>, alpha: seq<seq<u8>>)
    requires |row| == 4
  {
    forall l | 1 <= l < 4 && WritesLayer(t, row[l]) :: l - 1 < |alpha| && CellResolution <= |alpha[l - 1]|
  }

  /** The byte at `k` after cell `cell` is packed into `buf`. */
  function CellByte(buf: seq<u8>, t: Tables, row: seq<u32>, alpha: seq<seq<u8>>,
                    cell: nat, k: nat): u8
    requires k < |buf| && |row| == 4 && CellAlphaShape(t, row, alpha)
  {
    if k / CellBytes == cell && k % 4 < 3 && WritesLayer(t, row[3 - k % 4])
    then alpha[2 - k % 4][PixelOf(k)]
    else buf[k]
  }

  /** Some byte of a layer that writes in this cell is non-zero. */
  predicate CellSetsAlpha(t: Tables, row: seq<u32>, alpha: seq<seq<u8>>)
    requires |row| == 4 && CellAlphaShape(t, row, alpha)
  {
    LayersSetAlpha(t, row, alpha, 4)
  }

  /** Some byte of a layer below `j` (from 1 up) that writes is non-zero. */
  predicate LayersSetAlpha(t: Tables, row: seq<u32>, alpha: seq<seq<u8>>, j: nat)
    requires |row| == 4 && j <= 4 && CellAlphaShape(t, row, alpha)
  {
    exists l, p | 1 <= l < j && 0 <= p < CellResolution && WritesLayer(t, row[l]) :: LayerAlpha(alpha, l, p) != 0
  }

  /** Byte `p` of the alpha map of layer `l`; layer 0 has none, so layer
      `l` reads map `l - 1`. */
  function LayerAlpha(alpha: seq<seq<u8>>, l: nat, p: nat): u8
    requires 1 <= l <= |alpha| && p < |alpha[l - 1]|
  {
    alpha[l - 1][p]
  }

  /** The byte at `k` once the layers below `j` of cell `cell` are packed
      over `before`. */
  function PartialCellByte(before: seq<u8>, t: Tables, row: seq<u32>, alpha: seq<seq<u8>>,
                           cell: nat, j: nat, k: nat): u8
    requires k < |before| && |row| == 4 && CellAlphaShape(t, row, alpha)
  {
    if k / CellBytes == cell && k % 4 < 3 && 3 - k % 4 < j && WritesLayer(t, row[3 - k % 4])
    then alpha[2 - k % 4][PixelOf(k)]
    else before[k]
  }

  /** The body of the layer loop for layer `j`: its texture id is
      rewritten and, from layer 1 up, a layer that writes has its alpha map
      packed into channel `LayerChannel(j)` of the cell's pixels. */
  method PackLayer(t: Tables, hash: string -> u32, ids: array2<u32>, cell: nat, j: nat,
                   alpha: seq<seq<u8>>, buffer: array<u8>) returns (layerSet: bool)
    requires ids.Length1 == 4 && cell < ids.Length0 && j < 4
    requires (cell + 1) * CellBytes <= buffer.Length
    requires KnownTextureId(t, ids[cell, j])
    requires j > 0 && WritesLayer(t, ids[cell, j]) ==> j - 1 < |alpha| && CellResolution <= |alpha[j - 1]|
    modifies ids, buffer
    ensures ids[cell, j] == LayerTextureId(t, hash, old(ids[cell, j]))
    ensures forall i, l | 0 <= i < ids.Length0 && 0 <= l < 4 && (i != cell || l != j) :: ids[i, l] == old(ids[i, l])
    ensures j > 0 && WritesLayer(t, old(ids[cell, j])) ==>
      (layerSet <==> exists p | 0 <= p < CellResolution :: LayerAlpha(alpha, j, p) != 0) &&
      forall k | 0 <= k < buffer.Length ::
        buffer[k] == if InCellChannel(cell, LayerChannel(j), k) then alpha[j - 1][PixelOf(k)] else old(buffer[k])
    ensures !(j > 0 && WritesLayer(t, old(ids[cell, j]))) ==> !layerSet && buffer[..] == old(buffer[..])
  {
    layerSet := false;
    var fileId := ids[cell, j];
    if fileId == 0 || fileId == U32Max {
      return;
    }
    var texturePath := t.idToPath[fileId];
    if texturePath == "" {
      ids[cell, j] := U32Max;
      return;
    }
    var textureNameHash := hash(TextureKey(texturePath));
    ids[cell, j] := textureNameHash;
    if j > 0 {
      layerSet := WriteLayerAlpha(buffer, cell, LayerChannel(j), alpha[j - 1]);
      if layerSet {
        var p :| 0 <= p < CellResolution && alpha[j - 1][p] != 0;
        assert LayerAlpha(alpha, j, p) != 0;
      }
      if exists p | 0 <= p < CellResolution :: LayerAlpha(alpha, j, p) != 0 {
        var p :| 0 <= p < CellResolution && LayerAlpha(alpha, j, p) != 0;
        assert alpha[j - 1][p] != 0;
      }
    }
  }

  /** The layer loop over one cell: every layer's texture id is rewritten,
      and the alpha map of every layer from 1 up that writes is packed. */
  method PackCell(t: Tables, hash: string -> u32, ids: array2<u32>, cell: nat,
                  alpha: seq<seq<u8>>, buffer: array<u8>) returns (cellSet: bool)
    requires ids.Length1 == 4 && cell < ids.Length0
    requires buffer.Length == ids.Length0 * CellBytes
    requires forall l | 0 <= l < 4 :: KnownTextureId(t, ids[cell, l])
    requires CellAlphaShape(t, CellIds(ids, cell), alpha)
    modifies ids, buffer
    ensures forall l | 0 <= l < 4 :: ids[cell, l] == LayerTextureId(t, hash, old(ids[cell, l]))
    ensures forall i, l | 0 <= i < ids.Length0 && i != cell && 0 <= l < 4 :: ids[i, l] == old(ids[i, l])
    ensures forall k | 0 <= k < buffer.Length ::
      buffer[k] == CellByte(old(buffer[..]), t, old(CellIds(ids, cell)), alpha, cell, k)
    ensures cellSet == CellSetsAlpha(t, old(CellIds(ids, cell)), alpha)
  {
    ghost var row := CellIds(ids, cell);
    ghost var before := buffer[..];
    MulLe(cell + 1, CellBytes, ids.Length0, CellBytes);
    cellSet := false;
    var j := 0;
    while j < 4
      invariant 0 <= j <= 4
      invariant forall l | 0 <= l < 4 :: ids[cell, l] == if l < j then LayerTextureId(t, hash, row[l]) else row[l]
      invariant forall i, l | 0 <= i < ids.Length0 && i != cell && 0 <= l < 4 :: ids[i, l] == old(ids[i, l])
      invariant forall k | 0 <= k < buffer.Length :: buffer[k] == PartialCellByte(before, t, row, alpha, cell, j, k)
      invariant cellSet == LayersSetAlpha(t, row, alpha, j)
    {
      ghost var mid := buffer[..];
      var layerSet := PackLayer(t, hash, ids, cell, j, alpha, buffer);
      if j > 0 && WritesLayer(t, row[j]) {
        LayerStep(t, row, alpha, cell, j, before, mid, buffer[..]);
        LayerSetStep(t, row, alpha, j);
      } else {
        SkipLayer(t, row, alpha, cell, j, before, buffer[..]);
      }
      cellSet := cellSet || layerSet;
      j := j + 1;
    }
  }

  /** Packing the alpha map of layer `j` adds that layer's channel to the
      bytes of the cell packed so far. */
  lemma LayerStep(t: Tables, row: seq<u32>, alpha: seq<seq<u8>>, cell: nat, j: nat,
                  before: seq<u8>, mid: seq<u8>, after: seq<u8>)
    requires |row| == 4 && 1 <= j < 4 && WritesLayer(t, row[j]) && CellAlphaShape(t, row, alpha)
    requires |before| == |mid| == |after|
    requires forall k | 0 <= k < |mid| :: mid[k] == PartialCellByte(before, t, row, alpha, cell, j, k)
    requires forall k | 0 <= k < |after| ::
      after[k] == if InCellChannel(cell, LayerChannel(j), k) then alpha[j - 1][PixelOf(k)] else mid[k]
    ensures forall k | 0 <= k < |after| :: after[k] == PartialCellByte(before, t, row, alpha, cell, j + 1, k)
  {
  }

  /** A layer that does not write (or layer 0, which has no alpha map)
      leaves the packed bytes and the flag as they were. */
  lemma SkipLayer(t: Tables, row: seq<u32>, alpha: seq<seq<u8>>, cell: nat, j: nat,
                  before: seq<u8>, buf: seq<u8>)
    requires |row| == 4 && j < 4 && (j == 0 || !WritesLayer(t, row[j])) && CellAlphaShape(t, row, alpha)
    requires |before| == |buf|
    requires forall k | 0 <= k < |buf| :: buf[k] == PartialCellByte(before, t, row, alpha, cell, j, k)
    ensures forall k | 0 <= k < |buf| :: buf[k] == PartialCellByte(before, t, row, alpha, cell, j + 1, k)
    ensures LayersSetAlpha(t, row, alpha, j + 1) == LayersSetAlpha(t, row, alpha, j)
  {
    if LayersSetAlpha(t, row, alpha, j + 1) {
      var l, p :| 1 <= l < j + 1 && 0 <= p < CellResolution && WritesLayer(t, row[l]) && LayerAlpha(alpha, l, p) != 0;
      assert l < j;
    }
  }

  /** A writing layer sets the flag when some byte of its alpha map is
      non-zero. */
  lemma LayerSetStep(t: Tables, row: seq<u32>, alpha: seq<seq<u8>>, j: nat)
    requires |row| == 4 && 1 <= j < 4 && WritesLayer(t, row[j]) && CellAlphaShape(t, row, alpha)
    ensures LayersSetAlpha(t, row, alpha, j + 1) ==
      (LayersSetAlpha(t, row, alpha, j) || exists p | 0 <= p < CellResolution :: LayerAlpha(alpha, j, p) != 0)
  {
    if LayersSetAlpha(t, row, alpha, j + 1) && !LayersSetAlpha(t, row, alpha, j) {
      var l, p :| 1 <= l < j + 1 && 0 <= p < CellResolution && WritesLayer(t, row[l]) && LayerAlpha(alpha, l, p) != 0;
      assert l == j;
    }
  }

  /** The bytes of the alpha buffer after the cells below `n` are packed
      into `base`. */
  function PackedByte(base: seq<u8>, t: Tables, rows: seq<seq<u32>>, alphas: seq<seq<seq<u8>>>,
                      n: nat, k: nat): u8
    requires k < |base| && AlphaShape(t, rows, alphas) && n <= |rows|
  {
    if k / CellBytes < n then
      var cell := k / CellBytes;
      CellByte(base, t, rows[cell], alphas[cell], cell, k)
    else base[k]
  }

  /** Every cell has its four texture ids and the alpha maps its layers
      need. */
  predicate AlphaShape(t: Tables, rows: seq<seq<u32>>, alphas: seq<seq<seq<u8>>>)
  {
    |alphas| == |rows| &&
    forall i | 0 <= i < |rows| :: |rows[i]| == 4 && CellAlphaShape(t, rows[i], alphas[i])
  }

  /** `isAlphaMapSet` once the cells below `n` are packed. */
  predicate AnySetBelow(t: Tables, rows: seq<seq<u32>>, alphas: seq<seq<seq<u8>>>, n: nat)
    requires AlphaShape(t, rows, alphas) && n <= |rows|
  {
    exists i | 0 <= i < n :: CellSetsAlpha(t, rows[i], alphas[i])
  }

  /** The texture-layer pass over all cells of a chunk. The borrowed buffer
      is cleared first only when the chunk's alpha maps are written out;
      otherwise the bytes it is not given keep what they held. */
  method PackAlphaMaps(t: Tables, hash: string -> u32, ids: array2<u32>,
                       alphas: seq<seq<seq<u8>>>, buffer: array<u8>, createChunkAlphaMaps: bool)
    returns (isAlphaMapSet: bool)
    requires ids.Length1 == 4 && buffer.Length == ids.Length0 * CellBytes
    requires forall i, l | 0 <= i < ids.Length0 && 0 <= l < 4 :: KnownTextureId(t, ids[i, l])
    requires AlphaShape(t, Rows(ids), alphas)
    modifies ids, buffer
    ensures forall i, l | 0 <= i < ids.Length0 && 0 <= l < 4 :: ids[i, l] == LayerTextureId(t, hash, old(ids[i, l]))
    ensures var base := if createChunkAlphaMaps then seq(buffer.Length, k => 0) else old(buffer[..]);
      forall k | 0 <= k < buffer.Length ::
        buffer[k] == PackedByte(base, t, old(Rows(ids)), alphas, ids.Length0, k)
    ensures isAlphaMapSet == AnySetBelow(t, old(Rows(ids)), alphas, ids.Length0)
  {
    ghost var rows := Rows(ids);
    if createChunkAlphaMaps {
      forall k | 0 <= k < buffer.Length {
        buffer[k] := 0;
      }
    }
    ghost var base := buffer[..];
    isAlphaMapSet := false;
    var i := 0;
    while i < ids.Length0
      invariant 0 <= i <= ids.Length0
      invariant forall c, l | 0 <= c < i && 0 <= l < 4 :: ids[c, l] == LayerTextureId(t, hash, rows[c][l])
      invariant forall c, l | i <= c < ids.Length0 && 0 <= l < 4 :: ids[c, l] == rows[c][l]
      invariant forall k | 0 <= k < buffer.Length :: buffer[k] == PackedByte(base, t, rows, alphas, i, k)
      invariant isAlphaMapSet == AnySetBelow(t, rows, alphas, i)
    {
      assert CellIds(ids, i) == rows[i];
      ghost var packed := buffer[..];
      var cellSet := PackCell(t, hash, ids, i, alphas[i], buffer);
      CellStep(base, packed, buffer[..], t, rows, alphas, i);
      AnySetStep(t, rows, alphas, i);
      isAlphaMapSet := isAlphaMapSet || cellSet;
      i := i + 1;
    }
  }

  /** Packing cell `n` extends the packed cells by one. */
  lemma CellStep(base: seq<u8>, packed: seq<u8>, after: seq<u8>, t: Tables, rows: seq<seq<u32>>,
                 alphas: seq<seq<seq<u8>>>, n: nat)
    requires AlphaShape(t, rows, alphas) && n < |rows|
    requires |base| == |packed| == |after|
    requires forall k | 0 <= k < |packed| :: packed[k] == PackedByte(base, t, rows, alphas, n, k)
    requires forall k | 0 <= k < |after| :: after[k] == CellByte(packed, t, rows[n], alphas[n], n, k)
    ensures forall k | 0 <= k < |after| :: after[k] == PackedByte(base, t, rows, alphas, n + 1, k)
  {
  }

  lemma AnySetStep(t: Tables, rows: seq<seq<u32>>, alphas: seq<seq<seq<u8>>>, n: nat)
    requires AlphaShape(t, rows, alphas) && n < |rows|
    ensures AnySetBelow(t, rows, alphas, n + 1) ==
      (AnySetBelow(t, rows, alphas, n) || CellSetsAlpha(t, rows[n], alphas[n]))
  {
  }

  /** The byte that receives pixel `p` of layer `l` (1 to 3) of cell `i`. */
  function LayerByteIndex(i: nat, l: nat, p: nat): nat
    requires 1 <= l <= 3
  {
    i * CellBytes + p * 4 + Swizzle[l - 1]
  }

  /** Where the packing puts a layer's alpha: byte `p` of the alpha map of
      layer `l` (1 to 3) of cell `i` is at `i * CellBytes + p * 4 +
      swizzle[l - 1]` when that layer writes; the bytes of layers that do
      not write keep the base's. */
  lemma PackedLayerByte(base: seq<u8>, t: Tables, rows: seq<seq<u32>>, alphas: seq<seq<seq<u8>>>,
                        i: nat, l: nat, p: nat)
    requires AlphaShape(t, rows, alphas) && |base| == |rows| * CellBytes
    requires i < |rows| && 1 <= l <= 3 && p < CellResolution
    ensures var k := LayerByteIndex(i, l, p);
      k < |base| &&
      PackedByte(base, t, rows, alphas, |rows|, k) ==
        if WritesLayer(t, rows[i][l]) then alphas[i][l - 1][p] else base[k]
  {
    var k := i * CellBytes + p * 4 + LayerChannel(l);
    PixelIndex(i, p, LayerChannel(l));
    MulLe(i + 1, CellBytes, |rows|, CellBytes);
    assert (i + 1) * CellBytes == i * CellBytes + CellBytes;
  }

  /** Channel 3 (alpha) of every pixel is never written: layer 0 has no
      alpha map and layers 1 to 3 go to the other three channels. */
  lemma AlphaChannelKept(base: seq<u8>, t: Tables, rows: seq<seq<u32>>, alphas: seq<seq<seq<u8>>>,
                         k: nat)
    requires AlphaShape(t, rows, alphas) && k < |base| && k % 4 == 3
    ensures PackedByte(base, t, rows, alphas, |rows|, k) == base[k]
  {
  }

  /** `isAlphaMapSet` holds exactly when some byte the packing writes is
      non-zero. */
  lemma AlphaMapSetIffNonZero(base: seq<u8>, t: Tables, rows: seq<seq<u32>>, alphas: seq<seq<seq<u8>>>)
    requires AlphaShape(t, rows, alphas) && |base| == |rows| * CellBytes
    ensures AnySetBelow(t, rows, alphas, |rows|) <==>
      exists i, l, p | 0 <= i < |rows| && 1 <= l <= 3 && 0 <= p < CellResolution && WritesLayer(t, rows[i][l]) ::
        PackedByte(base, t, rows, alphas, |rows|, LayerByteIndex(i, l, p)) != 0
  {
    if AnySetBelow(t, rows, alphas, |rows|) {
      var i :| 0 <= i < |rows| && CellSetsAlpha(t, rows[i], alphas[i]);
      var l, p :| 1 <= l < 4 && 0 <= p < CellResolution && WritesLayer(t, rows[i][l]) && LayerAlpha(alphas[i], l, p) != 0;
      PackedLayerByte(base, t, rows, alphas, i, l, p);
    }
    if exists i, l, p | 0 <= i < |rows| && 1 <= l <= 3 && 0 <= p < CellResolution && WritesLayer(t, rows[i][l]) ::
        PackedByte(base, t, rows, alphas, |rows|, LayerByteIndex(i, l, p)) != 0 {
      var i, l, p :| 0 <= i < |rows| && 1 <= l <= 3 && 0 <= p < CellResolution && WritesLayer(t, rows[i][l]) &&
        PackedByte(base, t, rows, alphas, |rows|, LayerByteIndex(i, l, p)) != 0;
      PackedLayerByte(base, t, rows, alphas, i, l, p);
      assert LayerAlpha(alphas[i], l, p) != 0;
      assert LayersSetAlpha(t, rows[i], alphas[i], 4);
    }
  }
}
