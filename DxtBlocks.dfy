/** Decoding of one 4x4 S3TC block into 16 pixels (the converter's DXT1, DXT3
    and DXT5 block readers, which decode BC1, BC2 and BC3). Pixel `i` of a
    block is row `i / 4`, column `i % 4`. */
module DxtBlocks {
  import opened Bytes
  import opened Wrappers
  import opened ByteStreams
  import opened BlpFormat
  import opened DxtColors
  import opened Arith

  /** The 2-bit palette selector of pixel `i`: `(indices >> 2i) & 3`. */
  function Selector(indices: u32, i: nat): (s: nat)
    ensures s < 4
  {
    assert Pow2(2) == 4;
    Bits(indices, 2 * i, 2)
  }

  /** The 16 colour words of an 8-byte colour block: two RGB565 endpoints,
      then 32 bits of selectors, each pixel taking the palette entry its
      selector names. */
  function ColorBlock(c: seq<u8>, preMultipliedAlpha: bool, use4Colors: bool): (block: seq<u32>)
    requires |c| == 8
    ensures |block| == 16
  {
    SelectColors(DxtPalette(ReadU16(c, 0), ReadU16(c, 2), preMultipliedAlpha, use4Colors), ReadU32(c, 4))
  }

  /** Each of the 16 pixels takes the palette entry its selector names. */
  function SelectColors(palette: seq<u8>, indices: u32): (block: seq<u32>)
    requires |palette| == 16
    ensures |block| == 16
  {
    seq(16, i requires 0 <= i < 16 => ColorWord(palette, Selector(indices, i)))
  }

  /** A BC1 block: a colour block whose palette is premultiplied, so a
      three-colour block has a transparent fourth entry. */
  function Dxt1Block(b: seq<u8>): (block: seq<u32>)
    requires |b| == 8
    ensures |block| == 16
  {
    ColorBlock(b, true, false)
  }

  /** Pixel `i`'s explicit BC2 alpha: nibble `i` of the leading 64 bits, times 17. */
  function Dxt3Alpha(alpha: u64, i: nat): (a: u8)
  {
    assert Pow2(4) == 16;
    Bits(alpha, 4 * i, 4) * 17
  }

  /** The scaled alpha gives back its nibble. */
  lemma Dxt3AlphaNibble(alpha: u64, i: nat)
    ensures Dxt3Alpha(alpha, i) % 17 == 0 && Dxt3Alpha(alpha, i) / 17 == Bits(alpha, 4 * i, 4)
  {
  }

  /** A BC2 block: 64 bits of 4-bit alphas, then a four-colour colour block. */
  function Dxt3Block(b: seq<u8>): (block: seq<u32>)
    requires |b| == 16
    ensures |block| == 16
  {
    WithAlphas(ColorBlock(b[8..16], false, true), Dxt3Alphas(ReadU64(b, 0)))
  }

  /** The 16 explicit alphas of a BC2 block. */
  function Dxt3Alphas(alpha: u64): (alphas: seq<u8>)
    ensures |alphas| == 16
  {
    seq(16, i requires 0 <= i < 16 => Dxt3Alpha(alpha, i))
  }

  /** Pixel by pixel, the colour's top byte replaced by the matching alpha. */
  function WithAlphas(colors: seq<u32>, alphas: seq<u8>): (block: seq<u32>)
    requires |colors| == 16 && |alphas| == 16
    ensures |block| == 16
  {
    seq(16, i requires 0 <= i < 16 => WithAlpha(colors[i], alphas[i]))
  }

  /** Each pixel keeps its colour's low 24 bits and takes its alpha on top. */
  lemma WithAlphasPixel(colors: seq<u32>, alphas: seq<u8>, i: nat)
    requires |colors| == 16 && |alphas| == 16 && i < 16
    ensures WithAlphas(colors, alphas)[i] % 0x100_0000 == colors[i] % 0x100_0000
    ensures WithAlphas(colors, alphas)[i] / 0x100_0000 == alphas[i]
  {
    WithAlphaParts(colors[i], alphas[i]);
  }

  /** Entry `2 + i` of an `n`-step alpha ramp between `a0` and `a1`:
      `((n - 1 - i) * a0 + (1 + i) * a1) / n`, truncated. */
  function RampEntry(a0: u8, a1: u8, n: nat, i: nat): (r: u8)
    requires n > 0 && i + 1 < n
    ensures Min(a0, a1) <= r <= Max(a0, a1)
  {
    WeightedMeanBounds(a0, a1, n - 1 - i, 1 + i);
    ((n - 1 - i) * a0 + (1 + i) * a1) / n
  }

  /** A weighted mean of two bytes lies between them. */
  lemma WeightedMeanBounds(x: u8, y: u8, w0: nat, w1: nat)
    requires w0 + w1 > 0
    ensures var m := (w0 * x + w1 * y) / (w0 + w1);
      Min(x, y) <= m <= Max(x, y)
  {
    var lo, hi := Min(x, y), Max(x, y);
    var s := w0 * x + w1 * y;
    MulMono(w0, lo, x);
    MulMono(w1, lo, y);
    MulMono(w0, x, hi);
    MulMono(w1, y, hi);
    assert (w0 + w1) * lo <= s <= (w0 + w1) * hi;
    DivBounds(s, w0 + w1, lo, hi);
  }

  /** The eight BC3 alpha values: the two stored endpoints, then six
      interpolated values when `a0 > a1`, else four interpolated values
      followed by 0 and 255. */
  function AlphaRamp(a0: u8, a1: u8): (ramp: seq<u8>)
    ensures |ramp| == 8
  {
    if a0 > a1 then
      [a0, a1] + seq(6, i requires 0 <= i < 6 => RampEntry(a0, a1, 7, i))
    else
      [a0, a1] + seq(4, i requires 0 <= i < 4 => RampEntry(a0, a1, 5, i)) + [0, 255]
  }

  /** Pixel `i`'s 3-bit alpha code: `(lookup >> 3i) & 7`. */
  function AlphaCode(lookup: nat, i: nat): (code: nat)
    ensures code < 8
  {
    assert Pow2(3) == 8;
    Bits(lookup, 3 * i, 3)
  }

  /** A BC3 block: two alpha endpoints, 48 bits of alpha codes, then a colour
      block that, unlike BC1, is not premultiplied and not forced to four colours. */
  function Dxt5Block(b: seq<u8>): (block: seq<u32>)
    requires |b| == 16
    ensures |block| == 16
  {
    WithAlphas(ColorBlock(b[8..16], false, false), Dxt5Alphas(AlphaRamp(b[0], b[1]), ReadLE(b, 2, 6)))
  }

  /** The 16 interpolated alphas of a BC3 block: each pixel's code picks a ramp entry. */
  function Dxt5Alphas(ramp: seq<u8>, lookup: nat): (alphas: seq<u8>)
    requires |ramp| == 8
    ensures |alphas| == 16
  {
    seq(16, i requires 0 <= i < 16 => ramp[AlphaCode(lookup, i)])
  }

  /** The interpolated alphas run monotonically from `a0` towards `a1`; a
      four-step ramp ends with fully transparent and fully opaque. */
  lemma AlphaRampOrder(a0: u8, a1: u8)
    ensures var r := AlphaRamp(a0, a1); r[0] == a0 && r[1] == a1
    ensures var r := AlphaRamp(a0, a1);
      a0 > a1 ==> (r[0] >= r[2] && r[7] >= r[1] && forall k :: 2 <= k < 7 ==> r[k + 1] <= r[k])
    ensures var r := AlphaRamp(a0, a1);
      a0 <= a1 ==> (r[0] <= r[2] && r[5] <= r[1] && r[6] == 0 && r[7] == 255 &&
                    forall k :: 2 <= k < 5 ==> r[k] <= r[k + 1])
  {
    var r := AlphaRamp(a0, a1);
    var x, y: int := a0, a1;
    if a0 > a1 {
      forall k | 2 <= k < 7
        ensures r[k + 1] <= r[k]
      {
        var i := k - 2;
        assert (6 - (i + 1)) * x + (1 + (i + 1)) * y == (6 - i) * x + (1 + i) * y - (x - y);
        DivMono((6 - (i + 1)) * x + (1 + (i + 1)) * y, (6 - i) * x + (1 + i) * y, 7);
      }
    } else {
      forall k | 2 <= k < 5
        ensures r[k] <= r[k + 1]
      {
        var i := k - 2;
        assert (4 - (i + 1)) * x + (1 + (i + 1)) * y == (4 - i) * x + (1 + i) * y + (y - x);
        DivMono((4 - i) * x + (1 + i) * y, (4 - (i + 1)) * x + (1 + (i + 1)) * y, 5);
      }
    }
  }

  /** The ramps between full opacity and full transparency: truncation makes
      the first interpolated step 218, not the rounded 219. */
  lemma AlphaRampExamples()
    ensures AlphaRamp(255, 0) == [255, 0, 218, 182, 145, 109, 72, 36]
    ensures AlphaRamp(0, 255) == [0, 255, 51, 102, 153, 204, 0, 255]
  {
    var r := AlphaRamp(255, 0);
    assert r[2] == 218 && r[3] == 182 && r[4] == 145 && r[5] == 109 && r[6] == 72 && r[7] == 36;
    var q := AlphaRamp(0, 255);
    assert q[2] == 51 && q[3] == 102 && q[4] == 153 && q[5] == 204;
  }

  /** A BC1 pixel is the palette entry its selector names; it is transparent
      exactly when the block has three colours (colour 0 <= colour 1) and the
      selector is 3. */
  lemma Dxt1Pixel(b: seq<u8>, i: nat)
    requires |b| == 8 && i < 16
    ensures var c0, c1 := ReadU16(b, 0), ReadU16(b, 2);
      var s := Selector(ReadU32(b, 4), i);
      var px := Dxt1Block(b)[i];
      (forall j :: 0 <= j < 4 ==> ByteOf(px, j) == DxtPalette(c0, c1, true, false)[4 * s + j]) &&
      (ByteOf(px, 3) == 0 <==> c0 <= c1 && s == 3)
  {
    var c0, c1 := ReadU16(b, 0), ReadU16(b, 2);
    var colors := DxtPalette(c0, c1, true, false);
    var s := Selector(ReadU32(b, 4), i);
    var px := Dxt1Block(b)[i];
    assert px == ColorWord(colors, s);
    ColorWordBytes(colors, s);
    PaletteAlpha(c0, c1, true, false, s);
    assert ByteOf(px, 3) == colors[4 * s + 3];
    assert FourColorMode(c0, c1, false) <==> c0 > c1;
  }

  /** Entry `s`'s alpha byte. */
  lemma PaletteAlpha(c0: u16, c1: u16, preMultipliedAlpha: bool, use4Colors: bool, s: nat)
    requires s < 4
    ensures var p := DxtPalette(c0, c1, preMultipliedAlpha, use4Colors);
      p[4 * s + 3] == if s == 3 && preMultipliedAlpha && !FourColorMode(c0, c1, use4Colors) then 0 else 0xFF
  {
    var p := DxtPalette(c0, c1, preMultipliedAlpha, use4Colors);
    PaletteEndpointsAndAlpha(c0, c1, preMultipliedAlpha, use4Colors);
    assert p[4 * s + 3] == [p[3], p[7], p[11], p[15]][s];
  }

  /** Two palettes that differ at most in entry 3's alpha give the same low
      24 bits for every entry. */
  lemma SameColorBits(p: seq<u8>, q: seq<u8>, s: nat)
    requires |p| == 16 && |q| == 16 && s < 4
    requires p[..15] == q[..15]
    ensures ColorWord(p, s) % 0x100_0000 == ColorWord(q, s) % 0x100_0000
  {
    assert p[4 * s] == p[..15][4 * s] && p[4 * s + 1] == p[..15][4 * s + 1] && p[4 * s + 2] == p[..15][4 * s + 2];
    assert q[4 * s] == q[..15][4 * s] && q[4 * s + 1] == q[..15][4 * s + 1] && q[4 * s + 2] == q[..15][4 * s + 2];
    PackLow(p[4 * s], p[4 * s + 1], p[4 * s + 2], p[4 * s + 3]);
    PackLow(q[4 * s], q[4 * s + 1], q[4 * s + 2], q[4 * s + 3]);
  }

  /** Premultiplying changes only the alpha of a colour block: the low 24 bits
      of every pixel are the same either way. When colour 0 > colour 1 the
      block has four colours anyway, so forcing four colours changes nothing. */
  lemma ColorBlockVariants(c: seq<u8>, i: nat)
    requires |c| == 8 && i < 16
    ensures ColorBlock(c, false, false)[i] % 0x100_0000 == ColorBlock(c, true, false)[i] % 0x100_0000
    ensures ReadU16(c, 0) > ReadU16(c, 2) ==> ColorBlock(c, false, true)[i] == ColorBlock(c, true, false)[i]
  {
    var c0, c1 := ReadU16(c, 0), ReadU16(c, 2);
    var s := Selector(ReadU32(c, 4), i);
    var plain, premultiplied := DxtPalette(c0, c1, false, false), DxtPalette(c0, c1, true, false);
    PremultipliedPalettePrefix(c0, c1);
    SameColorBits(plain, premultiplied, s);
    assert ColorBlock(c, false, false)[i] == ColorWord(plain, s);
    assert ColorBlock(c, true, false)[i] == ColorWord(premultiplied, s);
    if c0 > c1 {
      assert DxtPalette(c0, c1, false, true) == premultiplied;
    }
  }

  /** Premultiplying touches only the alpha of entry 3, the palette's last
      byte. */
  lemma PremultipliedPalettePrefix(c0: u16, c1: u16)
    ensures DxtPalette(c0, c1, false, false)[..15] == DxtPalette(c0, c1, true, false)[..15]
  {
    var p, q := DxtPalette(c0, c1, false, false), DxtPalette(c0, c1, true, false);
    assert forall k | 0 <= k < 15 :: p[k] == q[k];
  }

  /** A BC2 pixel keeps the low 24 bits of its colour-block pixel. */
  lemma Dxt3PixelColor(b: seq<u8>, i: nat)
    requires |b| == 16 && i < 16
    ensures var colors := ColorBlock(b[8..16], false, true);
      Dxt3Block(b)[i] % 0x100_0000 == colors[i] % 0x100_0000
  {
    WithAlphasPixel(ColorBlock(b[8..16], false, true), Dxt3Alphas(ReadU64(b, 0)), i);
  }

  /** A BC2 pixel's alpha is the pixel's nibble times 17. */
  lemma Dxt3PixelAlpha(b: seq<u8>, i: nat)
    requires |b| == 16 && i < 16
    ensures Dxt3Block(b)[i] / 0x100_0000 == 17 * Bits(ReadU64(b, 0), 4 * i, 4)
  {
    var a := ReadU64(b, 0);
    WithAlphasPixel(ColorBlock(b[8..16], false, true), Dxt3Alphas(a), i);
    assert Dxt3Alphas(a)[i] == Dxt3Alpha(a, i);
    Dxt3AlphaNibble(a, i);
  }

  /** A BC3 pixel keeps the low 24 bits of its colour-block pixel; its alpha is
      the ramp entry its 3-bit code picks. */
  lemma Dxt5Pixel(b: seq<u8>, i: nat)
    requires |b| == 16 && i < 16
    ensures Dxt5Block(b)[i] % 0x100_0000 == ColorBlock(b[8..16], false, false)[i] % 0x100_0000
    ensures Dxt5Block(b)[i] / 0x100_0000 == AlphaRamp(b[0], b[1])[AlphaCode(ReadLE(b, 2, 6), i)]
  {
    var lookup := ReadLE(b, 2, 6);
    WithAlphasPixel(ColorBlock(b[8..16], false, false), Dxt5Alphas(AlphaRamp(b[0], b[1]), lookup), i);
    assert Dxt5Alphas(AlphaRamp(b[0], b[1]), lookup)[i] == AlphaRamp(b[0], b[1])[AlphaCode(lookup, i)];
  }

  // ---- the block readers, on the stream and the block buffer

  /** The colour block at `q` of the buffer, in terms of the buffer's own reads. */
  lemma ColorBlockAt(data: seq<u8>, q: nat, preMultipliedAlpha: bool, use4Colors: bool)
    requires q + 8 <= |data|
    ensures ColorBlock(data[q..q + 8], preMultipliedAlpha, use4Colors) ==
      SelectColors(DxtPalette(ReadU16(data, q), ReadU16(data, q + 2), preMultipliedAlpha, use4Colors),
                   ReadU32(data, q + 4))
  {
    ReadLESlice(data, q, 8, 0, 2);
    ReadLESlice(data, q, 8, 2, 2);
    ReadLESlice(data, q, 8, 4, 4);
  }

  /** `Dxt1GetBlock`: decodes the BC1 block at the stream's position into
      `blockData[blockOffset..blockOffset + 16]`. */
  method Dxt1GetBlock(stream: ByteStream, blockData: array<u32>, blockOffset: nat)
    requires stream.position + 8 <= |stream.data|
    requires blockOffset + 16 <= blockData.Length
    modifies stream, blockData
    ensures stream.position == old(stream.position) + 8
    ensures blockData[blockOffset..blockOffset + 16] ==
      Dxt1Block(stream.data[old(stream.position)..old(stream.position) + 8])
    ensures forall k :: 0 <= k < blockData.Length && !(blockOffset <= k < blockOffset + 16) ==>
      blockData[k] == old(blockData[k])
  {
    ghost var p := stream.position;
    var colors := NewColors();
    ReadDxtColors(stream, colors, true, false);
    ghost var palette := colors[..];
    var indices := stream.ReadU32();
    WriteColors(colors, indices, blockData, blockOffset);
    ColorBlockAt(stream.data, p, true, false);
    assert palette == DxtPalette(ReadU16(stream.data, p), ReadU16(stream.data, p + 2), true, false);
    assert indices == ReadU32(stream.data, p + 4);
    assert blockData[blockOffset..blockOffset + 16] == SelectColors(palette, indices);
  }

  /** The selector loop of `Dxt1GetBlock`. */
  method WriteColors(colors: array<u8>, indices: u32, blockData: array<u32>, blockOffset: nat)
    requires colors.Length == 16 && blockOffset + 16 <= blockData.Length
    modifies blockData
    ensures blockData[blockOffset..blockOffset + 16] == SelectColors(colors[..], indices)
    ensures forall k :: 0 <= k < blockData.Length && !(blockOffset <= k < blockOffset + 16) ==>
      blockData[k] == old(blockData[k])
  {
    for i := 0 to 16
      invariant forall k :: blockOffset <= k < blockOffset + i ==>
        blockData[k] == ColorWord(colors[..], Selector(indices, k - blockOffset))
      invariant forall k :: 0 <= k < blockData.Length && !(blockOffset <= k < blockOffset + i) ==>
        blockData[k] == old(blockData[k])
    {
      blockData[blockOffset + i] := ColorWord(colors[..], Selector(indices, i));
    }
  }

  /** A BC2 block of the buffer, in terms of the buffer's own reads. */
  lemma Dxt3BlockAt(data: seq<u8>, p: nat)
    requires p + 16 <= |data|
    ensures Dxt3Block(data[p..p + 16]) ==
      WithAlphas(SelectColors(DxtPalette(ReadU16(data, p + 8), ReadU16(data, p + 10), false, true),
                              ReadU32(data, p + 12)),
                 Dxt3Alphas(ReadU64(data, p)))
  {
    var b := data[p..p + 16];
    assert b[8..16] == data[p + 8..p + 16];
    ColorBlockAt(data, p + 8, false, true);
    ReadLESlice(data, p, 16, 0, 8);
    assert ReadU64(b, 0) == ReadU64(data, p);
  }

  /** `Dxt3GetBlock`: decodes the BC2 block at the stream's position into
      `blockData[blockOffset..blockOffset + 16]`. */
  method Dxt3GetBlock(stream: ByteStream, blockData: array<u32>, blockOffset: nat)
    requires stream.position + 16 <= |stream.data|
    requires blockOffset + 16 <= blockData.Length
    modifies stream, blockData
    ensures stream.position == old(stream.position) + 16
    ensures blockData[blockOffset..blockOffset + 16] ==
      Dxt3Block(stream.data[old(stream.position)..old(stream.position) + 16])
    ensures forall k :: 0 <= k < blockData.Length && !(blockOffset <= k < blockOffset + 16) ==>
      blockData[k] == old(blockData[k])
  {
    ghost var p := stream.position;
    var alpha := stream.ReadU64();
    var alphaValues := Dxt3AlphaValues(alpha);

    var colors := NewColors();
    ReadDxtColors(stream, colors, false, true);
    ghost var palette := colors[..];
    var indices := stream.ReadU32();
    WriteColorsWithAlpha(colors, indices, alphaValues, blockData, blockOffset);
    Dxt3BlockAt(stream.data, p);
    assert palette == DxtPalette(ReadU16(stream.data, p + 8), ReadU16(stream.data, p + 10), false, true);
    assert indices == ReadU32(stream.data, p + 12);
    assert alphaValues[..] == Dxt3Alphas(ReadU64(stream.data, p));
    assert blockData[blockOffset..blockOffset + 16] == WithAlphas(SelectColors(palette, indices), alphaValues[..]);
  }

  /** The sixteen explicit alphas of `Dxt3GetBlock`. */
  method Dxt3AlphaValues(alpha: u64) returns (alphaValues: array<u8>)
    ensures fresh(alphaValues)
    ensures alphaValues[..] == Dxt3Alphas(alpha)
  {
    alphaValues := new u8[16];
    for i := 0 to 16
      invariant forall j :: 0 <= j < i ==> alphaValues[j] == Dxt3Alpha(alpha, j)
    {
      alphaValues[i] := Dxt3Alpha(alpha, i);
    }
  }

  /** The selector loop of `Dxt3GetBlock`: each pixel's colour with its own alpha on top. */
  method WriteColorsWithAlpha(colors: array<u8>, indices: u32, alphaValues: array<u8>,
                              blockData: array<u32>, blockOffset: nat)
    requires colors.Length == 16 && alphaValues.Length == 16
    requires blockOffset + 16 <= blockData.Length
    modifies blockData
    ensures blockData[blockOffset..blockOffset + 16] ==
      WithAlphas(SelectColors(colors[..], indices), alphaValues[..])
    ensures forall k :: 0 <= k < blockData.Length && !(blockOffset <= k < blockOffset + 16) ==>
      blockData[k] == old(blockData[k])
  {
    for i := 0 to 16
      invariant forall k :: blockOffset <= k < blockOffset + i ==>
        blockData[k] == WithAlpha(ColorWord(colors[..], Selector(indices, k - blockOffset)), alphaValues[k - blockOffset])
      invariant forall k :: 0 <= k < blockData.Length && !(blockOffset <= k < blockOffset + i) ==>
        blockData[k] == old(blockData[k])
    {
      blockData[blockOffset + i] := WithAlpha(ColorWord(colors[..], Selector(indices, i)), alphaValues[i]);
    }
  }

  /** A BC3 block of the buffer, in terms of the buffer's own reads. */
  lemma Dxt5BlockAt(data: seq<u8>, p: nat)
    requires p + 16 <= |data|
    ensures Dxt5Block(data[p..p + 16]) ==
      WithAlphas(SelectColors(DxtPalette(ReadU16(data, p + 8), ReadU16(data, p + 10), false, false),
                              ReadU32(data, p + 12)),
                 Dxt5Alphas(AlphaRamp(data[p], data[p + 1]), ReadLE(data, p + 2, 6)))
  {
    var b := data[p..p + 16];
    assert b[8..16] == data[p + 8..p + 16];
    ColorBlockAt(data, p + 8, false, false);
    ReadLESlice(data, p, 16, 2, 6);
    assert b[0] == data[p] && b[1] == data[p + 1];
  }

  /** The eight alpha values of `Dxt5GetBlock`. */
  method AlphaValues(alpha1: u8, alpha2: u8) returns (alphaValues: array<u8>)
    ensures fresh(alphaValues)
    ensures alphaValues[..] == AlphaRamp(alpha1, alpha2)
  {
    alphaValues := new u8[8];
    alphaValues[0] := alpha1;
    alphaValues[1] := alpha2;
    if alpha1 > alpha2 {
      for i := 0 to 6
        invariant alphaValues[0] == alpha1 && alphaValues[1] == alpha2
        invariant forall k :: 2 <= k < i + 2 ==> alphaValues[k] == RampEntry(alpha1, alpha2, 7, k - 2)
      {
        alphaValues[i + 2] := RampEntry(alpha1, alpha2, 7, i);
      }
    } else {
      for i := 0 to 4
        invariant alphaValues[0] == alpha1 && alphaValues[1] == alpha2
        invariant forall k :: 2 <= k < i + 2 ==> alphaValues[k] == RampEntry(alpha1, alpha2, 5, k - 2)
      {
        alphaValues[i + 2] := RampEntry(alpha1, alpha2, 5, i);
      }
      alphaValues[6] := 0;
      alphaValues[7] := 255;
    }
  }

  /** The sixteen 3-bit alpha codes of `Dxt5GetBlock`. */
  method AlphaLookup(lookupValue: nat) returns (alphaLookup: array<u8>)
    ensures fresh(alphaLookup) && alphaLookup.Length == 16
    ensures forall j :: 0 <= j < 16 ==> alphaLookup[j] == AlphaCode(lookupValue, j)
  {
    alphaLookup := new u8[16];
    for i := 0 to 16
      invariant forall j :: 0 <= j < i ==> alphaLookup[j] == AlphaCode(lookupValue, j)
    {
      alphaLookup[i] := AlphaCode(lookupValue, i);
    }
  }

  /** `Dxt5GetBlock`: decodes the BC3 block at the stream's position into
      `blockData[blockOffset..blockOffset + 16]`. */
  method Dxt5GetBlock(stream: ByteStream, blockData: array<u32>, blockOffset: nat)
    requires stream.position + 16 <= |stream.data|
    requires blockOffset + 16 <= blockData.Length
    modifies stream, blockData
    ensures stream.position == old(stream.position) + 16
    ensures blockData[blockOffset..blockOffset + 16] ==
      Dxt5Block(stream.data[old(stream.position)..old(stream.position) + 16])
    ensures forall k :: 0 <= k < blockData.Length && !(blockOffset <= k < blockOffset + 16) ==>
      blockData[k] == old(blockData[k])
  {
    ghost var p := stream.position;
    var alpha1 := stream.ReadU8();
    var alpha2 := stream.ReadU8();
    var alphaValues := AlphaValues(alpha1, alpha2);

    var lookupValue := stream.ReadPartial(6);
    var alphaLookup := AlphaLookup(lookupValue);

    var colors := NewColors();
    ReadDxtColors(stream, colors, false, false);
    var indices := stream.ReadU32();
    WriteColorsWithRamp(colors, indices, alphaValues, alphaLookup, lookupValue, blockData, blockOffset);
    Dxt5BlockAt(stream.data, p);
  }

  /** The selector loop of `Dxt5GetBlock`: each pixel's colour with the ramp
      entry its code picks on top. */
  method WriteColorsWithRamp(colors: array<u8>, indices: u32, alphaValues: array<u8>, alphaLookup: array<u8>,
                             ghost lookup: nat, blockData: array<u32>, blockOffset: nat)
    requires colors.Length == 16 && alphaValues.Length == 8 && alphaLookup.Length == 16
    requires forall j :: 0 <= j < 16 ==> alphaLookup[j] == AlphaCode(lookup, j)
    requires blockOffset + 16 <= blockData.Length
    modifies blockData
    ensures blockData[blockOffset..blockOffset + 16] ==
      WithAlphas(SelectColors(colors[..], indices), Dxt5Alphas(alphaValues[..], lookup))
    ensures forall k :: 0 <= k < blockData.Length && !(blockOffset <= k < blockOffset + 16) ==>
      blockData[k] == old(blockData[k])
  {
    for i := 0 to 16
      invariant forall k :: blockOffset <= k < blockOffset + i ==>
        blockData[k] == WithAlpha(ColorWord(colors[..], Selector(indices, k - blockOffset)),
                                  alphaValues[AlphaCode(lookup, k - blockOffset)])
      invariant forall k :: 0 <= k < blockData.Length && !(blockOffset <= k < blockOffset + i) ==>
        blockData[k] == old(blockData[k])
    {
      blockData[blockOffset + i] :=
        WithAlpha(ColorWord(colors[..], Selector(indices, i)), alphaValues[alphaLookup[i]]);
    }
  }

  // ---- choosing the block reader

  /** The three block readers `GetDxtConvertFunction` can hand out. */
  datatype DxtDecoder = Dxt1 | Dxt3 | Dxt5

  /** The bytes one block of each kind occupies in the stream. */
  function BlockSize(d: DxtDecoder): nat
  {
    match d
    case Dxt1 => 8
    case Dxt3 => 16
    case Dxt5 => 16
  }

  /** The pixels of one block, decoded by the given reader. */
  function DecodeBlock(d: DxtDecoder, b: seq<u8>): (block: seq<u32>)
    requires |b| == BlockSize(d)
    ensures |block| == 16
  {
    match d
    case Dxt1 => Dxt1Block(b)
    case Dxt3 => Dxt3Block(b)
    case Dxt5 => Dxt5Block(b)
  }

  /** The block format each reader decodes. */
  function DecodedFormat(d: DxtDecoder): Format
  {
    match d
    case Dxt1 => BC1
    case Dxt3 => BC2
    case Dxt5 => BC3
  }

  /** `GetDxtConvertFunction`: the reader for a block-compressed format; any
      other format throws. */
  function GetDxtConvertFunction(f: Format): (r: Result<DxtDecoder>)
    ensures r.Success? <==> f in {BC1, BC2, BC3}
    ensures r.Success? ==> DecodedFormat(r.value) == f
    ensures r.Failure? ==> r.error == "Unrecognized dxt format"
  {
    match f
    case BC1 => Success(Dxt1)
    case BC2 => Success(Dxt3)
    case BC3 => Success(Dxt5)
    case _ => Failure("Unrecognized dxt format")
  }

  /** Every reader is the one handed out for the format it decodes. */
  lemma DecoderForFormat(d: DxtDecoder)
    ensures GetDxtConvertFunction(DecodedFormat(d)) == Success(d)
  {
  }

  /** `(this->*converter)(data, blockData, i * 16)`: runs the chosen reader. */
  method GetBlock(d: DxtDecoder, stream: ByteStream, blockData: array<u32>, blockOffset: nat)
    requires stream.position + BlockSize(d) <= |stream.data|
    requires blockOffset + 16 <= blockData.Length
    modifies stream, blockData
    ensures stream.position == old(stream.position) + BlockSize(d)
    ensures blockData[blockOffset..blockOffset + 16] ==
      DecodeBlock(d, stream.data[old(stream.position)..old(stream.position) + BlockSize(d)])
    ensures forall k :: 0 <= k < blockData.Length && !(blockOffset <= k < blockOffset + 16) ==>
      blockData[k] == old(blockData[k])
    ensures blockData[..blockOffset] == old(blockData[..blockOffset])
  {
    match d
    case Dxt1 => Dxt1GetBlock(stream, blockData, blockOffset);
    case Dxt3 => Dxt3GetBlock(stream, blockData, blockOffset);
    case Dxt5 => Dxt5GetBlock(stream, blockData, blockOffset);
  }
}
