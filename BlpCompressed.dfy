/** The reader of block-compressed (compression 2) BLP layers: all 4x4
    blocks are decoded in stream order into one buffer, then the pixels are
    gathered row by row out of their blocks and byte-swapped. */
module BlpCompressed {
  import opened Bytes
  import opened Wrappers
  import opened ByteStreams
  import opened BlpStructure
  import opened BlpFormat
  import opened DxtBlocks
  import opened BlpUncompressed
  import opened Arith

  const Word: nat := 0x1_0000_0000

  /** `(w + 3) / 4`: the blocks across a row of `w` pixels. */
  function BlocksAcross(w: u32): nat
  {
    (w + 3) / 4
  }

  /** The block buffer's `numBlocks * 16` entries fit in 32 bits. Then the
      source's `uint32_t` block counts equal the unbounded ones here: `w + 3u`
      wraps only when `w > 0xFFFF_FFFC`, and with `h > 0` that alone makes the
      buffer too large, while with `h == 0` both counts are 0. When the buffer
      does not fit and the layer has pixels, the source writes or reads its
      `std::vector`s out of range, which C++ leaves undefined. */
  predicate BlockArithmeticFits(w: u32, h: u32)
  {
    16 * (BlocksAcross(w) * BlocksAcross(h)) < Word
  }

  /** `decode` turns every run of `size` bytes into the 16 pixels of a block. */
  ghost predicate Decodes(decode: seq<u8> --> seq<u32>, size: nat)
  {
    forall b: seq<u8> :: |b| == size ==> decode.requires(b) && |decode(b)| == 16
  }

  /** The block reader `d` as a function from its bytes to its pixels. */
  function Decoder(d: DxtDecoder): (decode: seq<u8> --> seq<u32>)
    ensures Decodes(decode, BlockSize(d))
  {
    b requires |b| == BlockSize(d) => DecodeBlock(d, b)
  }

  /** The block buffer after `numBlocks` blocks are decoded with `decode`, the
      first from the `size` bytes at `pos`, each next one from the bytes after. */
  function BlockData(decode: seq<u8> --> seq<u32>, size: nat, data: seq<u8>, pos: nat, numBlocks: nat): (blocks: seq<u32>)
    requires Decodes(decode, size) && pos + size * numBlocks <= |data|
    ensures |blocks| == 16 * numBlocks
    decreases numBlocks
  {
    if numBlocks == 0 then []
    else
      MulPred(size, numBlocks);
      decode(data[pos..pos + size]) + BlockData(decode, size, data, pos + size, numBlocks - 1)
  }

  /** Entry `16 b + j` of the block buffer is pixel `j` of block `b`, decoded
      from the `size` bytes at `pos + b * size`. */
  lemma {:induction false} BlockDataEntry(decode: seq<u8> --> seq<u32>, size: nat, data: seq<u8>, pos: nat, numBlocks: nat, b: nat, j: nat)
    requires Decodes(decode, size) && pos + size * numBlocks <= |data| && b < numBlocks && j < 16
    ensures pos + size * b + size <= |data|
    ensures BlockData(decode, size, data, pos, numBlocks)[16 * b + j] == decode(data[pos + size * b..pos + size * b + size])[j]
    decreases b
  {
    MulMono(size, b + 1, numBlocks);
    MulPred(size, numBlocks);
    if b > 0 {
      BlockDataEntry(decode, size, data, pos + size, numBlocks - 1, b - 1, j);
      MulPred(size, b);
    }
  }

  /** Where pixel (`x`, `y`) of a `w`-wide layer sits in the block buffer:
      block (`x / 4`, `y / 4`) in row-major block order, inner pixel
      (`x % 4`, `y % 4`). */
  function TileIndex(w: u32, x: nat, y: nat): nat
  {
    ((y / 4) * BlocksAcross(w) + x / 4) * 16 + (y % 4) * 4 + x % 4
  }

  /** Every pixel of a `w * h` layer lies in the block buffer. */
  lemma TileIndexBound(w: u32, h: u32, x: nat, y: nat)
    requires x < w && y < h
    ensures TileIndex(w, x, y) < 16 * (BlocksAcross(w) * BlocksAcross(h))
  {
    var bw, bh := BlocksAcross(w), BlocksAcross(h);
    var row, column := y / 4, x / 4;
    assert column < bw && row < bh;
    assert row * bw + column < (row + 1) * bw;
    assert (row + 1) * bw <= bh * bw by {
      assert bh * bw == (row + 1) * bw + (bh - row - 1) * bw;
    }
  }

  /** Two different pixels never share an entry of the block buffer. */
  lemma TileIndexInjective(w: u32, x: nat, y: nat, x': nat, y': nat)
    requires x < w && x' < w
    requires TileIndex(w, x, y) == TileIndex(w, x', y')
    ensures x == x' && y == y'
  {
    var bw := BlocksAcross(w);
    var inner, inner' := (y % 4) * 4 + x % 4, (y' % 4) * 4 + x' % 4;
    var b, b' := (y / 4) * bw + x / 4, (y' / 4) * bw + x' / 4;
    DivUnique(TileIndex(w, x, y), 16, b, inner);
    DivUnique(TileIndex(w, x', y'), 16, b', inner');
    assert b == b' && inner == inner';
    BlockRowColumn(bw, y / 4, x / 4, y' / 4, x' / 4);
    assert x % 4 == x' % 4 && y % 4 == y' % 4;
  }

  /** Row and column in a row-major grid are unique. */
  lemma BlockRowColumn(bw: nat, r: nat, c: nat, r': nat, c': nat)
    requires c < bw && c' < bw && r * bw + c == r' * bw + c'
    ensures r == r' && c == c'
  {
    RowMajor(bw, r, c);
    RowMajor(bw, r', c');
  }

  /** The block-buffer entry of pixel `k` of a `w * h` layer: column `k % w`
      of row `k / w`. */
  function PixelTile(w: u32, h: u32, k: nat): (t: nat)
    requires k < w * h
    ensures t < 16 * (BlocksAcross(w) * BlocksAcross(h))
  {
    RowOfIndex(k, w, h);
    TileIndexBound(w, h, k % w, k / w);
    TileIndex(w, k % w, k / w)
  }

  /** The pixels of a `w * h` layer gathered from the block buffer, row by
      row, each byte-swapped. */
  function Untiled(blocks: seq<u32>, w: u32, h: u32): (pixels: seq<u32>)
    requires |blocks| == 16 * (BlocksAcross(w) * BlocksAcross(h))
    ensures |pixels| == w * h
  {
    seq(w * h, k requires 0 <= k < w * h => SwapByteOrder(blocks[PixelTile(w, h, k)]))
  }

  /** A block-compressed layer: the blocks decoded from `pos` on, untiled. */
  function CompressedPixels(d: DxtDecoder, data: seq<u8>, pos: nat, w: u32, h: u32): (pixels: seq<u32>)
    requires pos + BlockSize(d) * (BlocksAcross(w) * BlocksAcross(h)) <= |data|
    ensures |pixels| == w * h
  {
    Untiled(BlockData(Decoder(d), BlockSize(d), data, pos, BlocksAcross(w) * BlocksAcross(h)), w, h)
  }

  /** Under `BlockArithmeticFits`, the source's wrapping `uint32_t` block count
      `((w + 3u) / 4u) * ((h + 3u) / 4u)` and buffer size `numBlocks * 16u`
      are the unbounded ones. */
  lemma WrappedBlockCounts(w: u32, h: u32)
    requires BlockArithmeticFits(w, h)
    ensures var numBlocks := (((w + 3) % Word) / 4 * (((h + 3) % Word) / 4)) % Word;
      numBlocks == BlocksAcross(w) * BlocksAcross(h) && (numBlocks * 16) % Word == 16 * numBlocks
  {
    var bw, bh := BlocksAcross(w), BlocksAcross(h);
    var n := bw * bh;
    if w == 0 || h == 0 {
      assert (w + 3) % Word / 4 * ((h + 3) % Word / 4) == 0 == n;
    } else {
      MulLe(bw, 1, bw, bh);
      MulLe(1, bh, bw, bh);
      DivUnique(w + 3, Word, 0, w + 3);
      DivUnique(h + 3, Word, 0, h + 3);
    }
    DivUnique(n, Word, 0, n);
    DivUnique(16 * n, Word, 0, 16 * n);
  }

  /** The layer fits the block buffer: `w * h` pixels in 32 bits. */
  lemma PixelsFit(w: u32, h: u32)
    requires BlockArithmeticFits(w, h)
    ensures w * h <= 16 * (BlocksAcross(w) * BlocksAcross(h)) && NumEntries(w, h) == w * h
  {
    var bw, bh := BlocksAcross(w), BlocksAcross(h);
    assert w <= 4 * bw && h <= 4 * bh;
    MulLe(w, h, 4 * bw, 4 * bh);
    ScaleProduct(bw, bh);
    DivUnique(w * h, Word, 0, w * h);
  }

  /** Scaling both factors by 4 scales the product by 16. */
  lemma ScaleProduct(a: nat, b: nat)
    ensures (4 * a) * (4 * b) == 16 * (a * b)
  {
  }

  /** The block loop: `numBlocks` blocks decoded in stream order, block `i`
      into entries `16 i ..`; `decode` is what reader `d` computes. */
  method DecodeBlocks(d: DxtDecoder, stream: ByteStream, numBlocks: nat, ghost decode: seq<u8> --> seq<u32>)
    returns (blockData: array<u32>)
    requires Decodes(decode, BlockSize(d))
    requires forall b {:trigger DecodeBlock(d, b)} :: |b| == BlockSize(d) ==> decode(b) == DecodeBlock(d, b)
    requires stream.position + BlockSize(d) * numBlocks <= |stream.data|
    modifies stream
    ensures fresh(blockData)
    ensures stream.position == old(stream.position) + BlockSize(d) * numBlocks
    ensures blockData[..] == BlockData(decode, BlockSize(d), stream.data, old(stream.position), numBlocks)
  {
    ghost var p := stream.position;
    ghost var total := BlockData(decode, BlockSize(d), stream.data, p, numBlocks);
    blockData := new u32[16 * numBlocks];
    for i := 0 to numBlocks
      invariant stream.position == p + BlockSize(d) * i
      invariant blockData[..16 * i] == total[..16 * i]
    {
      DecodeNextBlock(d, stream, blockData, numBlocks, i, decode, p);
    }
    assert blockData[..] == blockData[..16 * numBlocks];
  }

  /** One turn of the block loop: block `i` decoded into entries `16 i ..`. */
  method DecodeNextBlock(d: DxtDecoder, stream: ByteStream, blockData: array<u32>, numBlocks: nat, i: nat,
                         ghost decode: seq<u8> --> seq<u32>, ghost p: nat)
    requires Decodes(decode, BlockSize(d))
    requires forall b {:trigger DecodeBlock(d, b)} :: |b| == BlockSize(d) ==> decode(b) == DecodeBlock(d, b)
    requires i < numBlocks && blockData.Length == 16 * numBlocks
    requires p + BlockSize(d) * numBlocks <= |stream.data|
    requires stream.position == p + BlockSize(d) * i
    requires blockData[..16 * i] == BlockData(decode, BlockSize(d), stream.data, p, numBlocks)[..16 * i]
    modifies stream, blockData
    ensures stream.position == p + BlockSize(d) * (i + 1)
    ensures blockData[..16 * (i + 1)] == BlockData(decode, BlockSize(d), stream.data, p, numBlocks)[..16 * (i + 1)]
  {
    ghost var total := BlockData(decode, BlockSize(d), stream.data, p, numBlocks);
    ghost var q := stream.position;
    assert q + BlockSize(d) <= |stream.data| && total[16 * i..16 * i + 16] == decode(stream.data[q..q + BlockSize(d)]) by {
      BlockDataSlice(decode, BlockSize(d), stream.data, p, numBlocks, i);
    }
    ReadBlock(d, stream, blockData, 16 * i, decode);
    assert stream.position == p + BlockSize(d) * (i + 1) by {
      MulAdd(BlockSize(d), i, 1);
    }
    assert blockData[..16 * (i + 1)] == total[..16 * (i + 1)] by {
      AppendSlices(blockData[..], 16 * i, 16);
      AppendSlices(total, 16 * i, 16);
    }
  }

  /** Entries `16 b ..` of the block buffer are block `b`, decoded from the
      `size` bytes at `pos + b * size`. */
  lemma BlockDataSlice(decode: seq<u8> --> seq<u32>, size: nat, data: seq<u8>, pos: nat, numBlocks: nat, b: nat)
    requires Decodes(decode, size) && pos + size * numBlocks <= |data| && b < numBlocks
    ensures pos + size * b + size <= |data|
    ensures BlockData(decode, size, data, pos, numBlocks)[16 * b..16 * b + 16] == decode(data[pos + size * b..pos + size * b + size])
  {
    var blocks := BlockData(decode, size, data, pos, numBlocks);
    BlockDataEntry(decode, size, data, pos, numBlocks, b, 0);
    var block := decode(data[pos + size * b..pos + size * b + size]);
    forall j | 0 <= j < 16
      ensures blocks[16 * b..16 * b + 16][j] == block[j]
    {
      BlockDataEntry(decode, size, data, pos, numBlocks, b, j);
    }
  }

  /** `GetBlock`, its result stated with the function `decode` it computes. */
  method ReadBlock(d: DxtDecoder, stream: ByteStream, blockData: array<u32>, blockOffset: nat,
                   ghost decode: seq<u8> --> seq<u32>)
    requires Decodes(decode, BlockSize(d))
    requires forall b {:trigger DecodeBlock(d, b)} :: |b| == BlockSize(d) ==> decode(b) == DecodeBlock(d, b)
    requires stream.position + BlockSize(d) <= |stream.data|
    requires blockOffset + 16 <= blockData.Length
    modifies stream, blockData
    ensures stream.position == old(stream.position) + BlockSize(d)
    ensures blockData[blockOffset..blockOffset + 16] == decode(stream.data[old(stream.position)..old(stream.position) + BlockSize(d)])
    ensures blockData[..blockOffset] == old(blockData[..blockOffset])
  {
    match d
    case Dxt1 => GetBlock(d, stream, blockData, blockOffset);
    case Dxt3 => GetBlock(d, stream, blockData, blockOffset);
    case Dxt5 => GetBlock(d, stream, blockData, blockOffset);
  }

  /** A prefix of `n + m` entries is the prefix of `n` then the next `m`. */
  lemma AppendSlices<T>(a: seq<T>, n: nat, m: nat)
    requires n + m <= |a|
    ensures a[..n + m] == a[..n] + a[n..n + m]
  {
  }

  /** The gathering loops: pixel after pixel, row by row, each copied out
      of its block. */
  method Untile(blockData: array<u32>, w: u32, h: u32, imageData: array<u32>)
    requires blockData.Length == 16 * (BlocksAcross(w) * BlocksAcross(h))
    requires imageData.Length == w * h && blockData != imageData
    modifies imageData
    ensures forall k :: 0 <= k < w * h ==> imageData[k] == blockData[PixelTile(w, h, k)]
  {
    var count: nat := 0;
    for y := 0 to h
      invariant count == y * w && count <= w * h
      invariant UntiledPrefix(imageData[..], blockData[..], w, h, count)
    {
      RowFits(y, w, h);
      MulAdd(w, y, 1);
      count := UntileRow(blockData, w, h, y, imageData, count);
    }
  }

  /** The first `count` pixels of `image` are gathered from their blocks. */
  predicate UntiledPrefix(image: seq<u32>, blocks: seq<u32>, w: u32, h: u32, count: nat)
    requires |blocks| == 16 * (BlocksAcross(w) * BlocksAcross(h)) && count <= |image| && count <= w * h
  {
    forall k :: 0 <= k < count ==> image[k] == blocks[PixelTile(w, h, k)]
  }

  /** One row of the gathering loops. */
  method UntileRow(blockData: array<u32>, w: u32, h: u32, y: nat, imageData: array<u32>, count: nat)
    returns (next: nat)
    requires blockData.Length == 16 * (BlocksAcross(w) * BlocksAcross(h))
    requires y < h && count == y * w && count + w <= w * h
    requires imageData.Length == w * h && blockData != imageData
    requires UntiledPrefix(imageData[..], blockData[..], w, h, count)
    modifies imageData
    ensures next == count + w
    ensures UntiledPrefix(imageData[..], blockData[..], w, h, next)
  {
    next := count;
    for x := 0 to w
      invariant next == count + x
      invariant forall k :: 0 <= k < next ==> imageData[k] == blockData[PixelTile(w, h, k)]
    {
      var blockX, blockY := x / 4, y / 4;
      var innerX, innerY := x % 4, y % 4;
      var blockIndex := blockY * BlocksAcross(w) + blockX;
      var innerIndex := innerY * 4 + innerX;
      TileIndexBound(w, h, x, y);
      RowMajor(w, y, x);
      assert PixelTile(w, h, next) == blockIndex * 16 + innerIndex;
      imageData[next] := blockData[blockIndex * 16 + innerIndex];
      next := next + 1;
    }
  }

  /** A block-compressed layer: the reader its format names, applied to
      every block; a format without a reader is rejected. */
  function CompressedLayer(header: BlpHeader, data: seq<u8>, pos: nat): (r: Result<seq<u32>>)
    requires CompressedFits(header, |data| - pos)
    ensures r.Failure? <==> !(GetFormat(header) in {BC1, BC2, BC3})
  {
    match GetDxtConvertFunction(GetFormat(header))
    case Failure(e) => Failure(e)
    case Success(d) => Success(CompressedPixels(d, data, pos, header.width, header.height))
  }

  /** The blocks of the layer, read with its format's reader, fit in `available` bytes. */
  predicate CompressedFits(header: BlpHeader, available: int)
  {
    var r := GetDxtConvertFunction(GetFormat(header));
    r.Success? ==>
      BlockSize(r.value) * (BlocksAcross(header.width) * BlocksAcross(header.height)) <= available
  }

  /** `ParseCompressed`: decodes every block, gathers the pixels and swaps
      their byte order. */
  method ParseCompressed(header: BlpHeader, stream: ByteStream) returns (imageData: array<u32>, status: Result<()>)
    requires BlockArithmeticFits(header.width, header.height)
    requires stream.position <= |stream.data| && CompressedFits(header, |stream.data| - stream.position)
    modifies stream
    ensures fresh(imageData)
    ensures Produces(CompressedLayer(header, stream.data, old(stream.position)), imageData[..], status)
  {
    var format := GetFormat(header);
    var w, h := header.width, header.height;
    var numEntries := NumEntries(w, h);
    PixelsFit(w, h);
    imageData := new u32[numEntries];

    var numBlocks := BlocksAcross(w) * BlocksAcross(h);
    var converter := GetDxtConvertFunction(format);
    if converter.Failure? {
      status := Failure(converter.error);
      return;
    }
    ghost var p := stream.position;
    forall b | |b| == BlockSize(converter.value)
      ensures Decoder(converter.value).requires(b) && Decoder(converter.value)(b) == DecodeBlock(converter.value, b)
    {
    }
    var blockData := DecodeBlocks(converter.value, stream, numBlocks, Decoder(converter.value));
    Untile(blockData, w, h, imageData);
    SwapAll(imageData, numEntries);
    status := Success(());
    assert imageData[..] == Untiled(blockData[..], w, h);
  }
}
