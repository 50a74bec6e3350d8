/** The byte-order fix every decoded layer goes through, and the reader of
    uncompressed (compression 3) BLP layers. */
module BlpUncompressed {
  import opened Bytes
  import opened ByteStreams

  /** `SwapByteOrder`: exchanges bytes 0 and 2 of the word in memory, turning
      the stored ARGB order into BGRA; bytes 1 and 3 stay. */
  function SwapByteOrder(ui: u32): (r: u32)
  {
    Pack(ByteOf(ui, 2), ByteOf(ui, 1), ByteOf(ui, 0), ByteOf(ui, 3))
  }

  /** The swap moves byte 0 to 2 and byte 2 to 0 and keeps the other two. */
  lemma SwapByteOrderBytes(ui: u32)
    ensures ByteOf(SwapByteOrder(ui), 0) == ByteOf(ui, 2)
    ensures ByteOf(SwapByteOrder(ui), 1) == ByteOf(ui, 1)
    ensures ByteOf(SwapByteOrder(ui), 2) == ByteOf(ui, 0)
    ensures ByteOf(SwapByteOrder(ui), 3) == ByteOf(ui, 3)
  {
    ByteOfPack(ByteOf(ui, 2), ByteOf(ui, 1), ByteOf(ui, 0), ByteOf(ui, 3));
  }

  /** Swapping twice restores the word. */
  lemma SwapByteOrderInvolution(ui: u32)
    ensures SwapByteOrder(SwapByteOrder(ui)) == ui
  {
    SwapByteOrderBytes(ui);
    PackOfBytes(ui);
  }

  /** The swap keeps the alpha byte, so it commutes with replacing it. */
  lemma SwapByteOrderAlpha(ui: u32, a: u8)
    ensures SwapByteOrder(WithAlpha(ui, a)) == WithAlpha(SwapByteOrder(ui), a)
  {
    WithAlphaByteOf(ui, a);
    WithAlphaBytes(SwapByteOrder(ui), a);
    SwapByteOrderBytes(ui);
  }

  /** The swap loop: `SwapByteOrder(imageData[i])` for the first `n` words. */
  method SwapAll(imageData: array<u32>, n: nat)
    requires n <= imageData.Length
    modifies imageData
    ensures forall i :: 0 <= i < n ==> imageData[i] == SwapByteOrder(old(imageData[i]))
    ensures forall i :: n <= i < imageData.Length ==> imageData[i] == old(imageData[i])
  {
    for i := 0 to n
      invariant forall j :: 0 <= j < i ==> imageData[j] == SwapByteOrder(old(imageData[j]))
      invariant forall j :: i <= j < imageData.Length ==> imageData[j] == old(imageData[j])
    {
      imageData[i] := SwapByteOrder(imageData[i]);
    }
  }

  /** `numEntries = width * height` in 32-bit arithmetic. */
  function NumEntries(width: u32, height: u32): (n: u32)
  {
    (width * height) % 0x1_0000_0000
  }

  /** The `n` little-endian words at `pos`, each byte-swapped. */
  function UncompressedPixels(data: seq<u8>, pos: nat, n: nat): (pixels: seq<u32>)
    requires pos + 4 * n <= |data|
    ensures |pixels| == n
  {
    seq(n, i requires 0 <= i < n => SwapByteOrder(ReadU32(data, pos + 4 * i)))
  }

  /** Pixel `i` of an uncompressed layer is the stored word at `pos + 4i` with
      its first and third bytes exchanged. */
  lemma UncompressedPixelBytes(data: seq<u8>, pos: nat, n: nat, i: nat)
    requires pos + 4 * n <= |data| && i < n
    ensures var px := UncompressedPixels(data, pos, n)[i];
      ByteOf(px, 0) == data[pos + 4 * i + 2] && ByteOf(px, 1) == data[pos + 4 * i + 1] &&
      ByteOf(px, 2) == data[pos + 4 * i] && ByteOf(px, 3) == data[pos + 4 * i + 3]
  {
    var q := pos + 4 * i;
    var w := ReadU32(data, q);
    SwapByteOrderBytes(w);
    LEIsPack(data[q..q + 4]);
  }

  /** `data.read(imageData.data(), n * sizeof(uint32_t))` into a new vector of `n` words. */
  method ReadWords(stream: ByteStream, n: nat) returns (imageData: array<u32>)
    requires stream.position + 4 * n <= |stream.data|
    modifies stream
    ensures fresh(imageData) && imageData.Length == n
    ensures stream.position == old(stream.position) + 4 * n
    ensures forall i :: 0 <= i < n ==> imageData[i] == ReadU32(stream.data, old(stream.position) + 4 * i)
  {
    var bytes := stream.Read(4 * n);
    imageData := new u32[n](i requires 0 <= i < n => ReadU32(bytes, 4 * i));
    forall i | 0 <= i < n
      ensures imageData[i] == ReadU32(stream.data, old(stream.position) + 4 * i)
    {
      ReadLESlice(stream.data, old(stream.position), 4 * n, 4 * i, 4);
    }
  }

  /** `ParseUncompressed`: reads `width * height` words and swaps each. */
  method ParseUncompressed(width: u32, height: u32, stream: ByteStream) returns (imageData: array<u32>)
    requires stream.position + 4 * NumEntries(width, height) <= |stream.data|
    modifies stream
    ensures fresh(imageData)
    ensures stream.position == old(stream.position) + 4 * NumEntries(width, height)
    ensures imageData[..] == UncompressedPixels(stream.data, old(stream.position), NumEntries(width, height))
  {
    var numEntries := NumEntries(width, height);
    imageData := ReadWords(stream, numEntries);
    SwapAll(imageData, numEntries);
  }
}
