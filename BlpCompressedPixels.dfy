/** Where each pixel of a block-compressed BLP layer comes from: the entry
    of one decoded 4x4 block, byte-swapped. */
module BlpCompressedPixels {
  import opened Bytes
  import opened BlpUncompressed
  import opened DxtBlocks
  import opened BlpCompressed
  import opened Arith

  /** The block, in row-major block order, that holds pixel (`x`, `y`). */
  function BlockOfPixel(w: u32, x: nat, y: nat): nat
  {
    (y / 4) * BlocksAcross(w) + x / 4
  }

  /** The offset of block `b` in a run of `size`-byte blocks read from
      `pos` on. */
  function BlockStart(size: nat, pos: nat, b: nat): nat
  {
    pos + size * b
  }

  /** Pixel (`x`, `y`) of a `w * h` layer is entry (`x % 4`, `y % 4`) of
      block (`x / 4`, `y / 4`) of the block buffer. */
  lemma PixelBlock(w: u32, h: u32, x: nat, y: nat)
    requires x < w && y < h
    ensures 0 <= y * w + x < w * h
    ensures BlockOfPixel(w, x, y) < BlocksAcross(w) * BlocksAcross(h)
    ensures PixelTile(w, h, y * w + x) == 16 * BlockOfPixel(w, x, y) + ((y % 4) * 4 + x % 4)
  {
    MulMono(y, 0, w);
    RowFits(y, w, h);
    RowMajor(w, y, x);
    TileIndexBound(w, h, x, y);
  }

  /** Pixel (`x`, `y`) has a row-major index inside the layer. */
  lemma PixelInLayer(w: u32, h: u32, x: nat, y: nat)
    requires x < w && y < h
    ensures 0 <= y * w + x < w * h
  {
    MulMono(y, 0, w);
    RowFits(y, w, h);
  }

  /** `Decoder(d)` applied to one block's bytes is `DecodeBlock(d, ..)`. */
  lemma DecoderAt(d: DxtDecoder, b: seq<u8>)
    requires |b| == BlockSize(d)
    ensures Decoder(d)(b) == DecodeBlock(d, b)
  {
  }

  /** Pixel (`x`, `y`) of the untiled buffer of blocks decoded with
      `decode` is entry (`x % 4`, `y % 4`) of the block (`x / 4`, `y / 4`)
      decoded from its own `size` bytes, byte-swapped. */
  lemma UntiledPixelOfBlock(decode: seq<u8> --> seq<u32>, size: nat, data: seq<u8>, pos: nat, w: u32, h: u32,
                            n: nat, x: nat, y: nat, k: nat)
    requires n == BlocksAcross(w) * BlocksAcross(h)
    requires Decodes(decode, size) && pos + size * n <= |data|
    requires x < w && y < h && k == y * w + x && k < w * h
    ensures var start := BlockStart(size, pos, BlockOfPixel(w, x, y));
      start + size <= |data| &&
      Untiled(BlockData(decode, size, data, pos, n), w, h)[k] ==
        SwapByteOrder(decode(data[start..start + size])[(y % 4) * 4 + x % 4])
  {
    var blocks := BlockData(decode, size, data, pos, n);
    var b, j := BlockOfPixel(w, x, y), (y % 4) * 4 + x % 4;
    UntiledAt(blocks, w, h, x, y);
    BlockEntryAt(decode, size, data, pos, n, b, j);
  }

  /** `UntiledPixelOfBlock` for the layer's own block count and pixel index. */
  lemma UntiledPixelAt(decode: seq<u8> --> seq<u32>, size: nat, data: seq<u8>, pos: nat, w: u32, h: u32, x: nat, y: nat)
    requires Decodes(decode, size) && pos + size * (BlocksAcross(w) * BlocksAcross(h)) <= |data|
    requires x < w && y < h
    ensures 0 <= y * w + x < w * h
    ensures var start := BlockStart(size, pos, BlockOfPixel(w, x, y));
      start + size <= |data| &&
      Untiled(BlockData(decode, size, data, pos, BlocksAcross(w) * BlocksAcross(h)), w, h)[y * w + x] ==
        SwapByteOrder(decode(data[start..start + size])[(y % 4) * 4 + x % 4])
  {
    PixelInLayer(w, h, x, y);
    UntiledPixelOfBlock(decode, size, data, pos, w, h, BlocksAcross(w) * BlocksAcross(h), x, y, y * w + x);
  }

  /** `BlockDataEntry` with the block's offset written as `BlockStart`. */
  lemma BlockEntryAt(decode: seq<u8> --> seq<u32>, size: nat, data: seq<u8>, pos: nat, numBlocks: nat, b: nat, j: nat)
    requires Decodes(decode, size) && pos + size * numBlocks <= |data| && b < numBlocks && j < 16
    ensures BlockStart(size, pos, b) + size <= |data|
    ensures var start := BlockStart(size, pos, b);
      BlockData(decode, size, data, pos, numBlocks)[16 * b + j] == decode(data[start..start + size])[j]
  {
    BlockDataEntry(decode, size, data, pos, numBlocks, b, j);
  }

  /** Pixel (`x`, `y`) of an untiled buffer is its entry (`x % 4`, `y % 4`)
      of block (`x / 4`, `y / 4`), byte-swapped. */
  lemma UntiledAt(blocks: seq<u32>, w: u32, h: u32, x: nat, y: nat)
    requires |blocks| == 16 * (BlocksAcross(w) * BlocksAcross(h)) && x < w && y < h
    ensures 0 <= y * w + x < w * h
    ensures BlockOfPixel(w, x, y) < BlocksAcross(w) * BlocksAcross(h)
    ensures Untiled(blocks, w, h)[y * w + x] == SwapByteOrder(blocks[16 * BlockOfPixel(w, x, y) + ((y % 4) * 4 + x % 4)])
  {
    PixelBlock(w, h, x, y);
  }

  /** Pixel (`x`, `y`) of a block-compressed layer: entry (`x % 4`,
      `y % 4`) of block (`x / 4`, `y / 4`), decoded from that block's own
      bytes, byte-swapped. */
  lemma CompressedPixelAt(d: DxtDecoder, data: seq<u8>, pos: nat, w: u32, h: u32, x: nat, y: nat)
    requires pos + BlockSize(d) * (BlocksAcross(w) * BlocksAcross(h)) <= |data|
    requires x < w && y < h
    ensures 0 <= y * w + x < w * h
    ensures var start := BlockStart(BlockSize(d), pos, BlockOfPixel(w, x, y));
      start + BlockSize(d) <= |data| &&
      CompressedPixels(d, data, pos, w, h)[y * w + x] ==
        SwapByteOrder(DecodeBlock(d, data[start..start + BlockSize(d)])[(y % 4) * 4 + x % 4])
  {
    UntiledPixelAt(Decoder(d), BlockSize(d), data, pos, w, h, x, y);
    var start := BlockStart(BlockSize(d), pos, BlockOfPixel(w, x, y));
    DecoderAt(d, data[start..start + BlockSize(d)]);
  }
}
