/** The four-colour palette of an S3TC (DXT) block: two RGB565 endpoints
    expanded to eight bits per channel and two colours blended from them.

    A palette entry is the converter's `RgbDataArray`, a union of a 32-bit word
    `color` and its four bytes `buffer[0..3]`. Four entries are 16 contiguous
    bytes; the decoder writes the channels byte by byte and reads whole entries
    back as words, which `ColorWord` models on a little-endian host. */
module DxtColors {
  import opened Bytes
  import opened ByteStreams

  /** `(v << 3) | (v >> 2)` for a 5-bit channel. The two parts occupy disjoint
      bits, so the OR is their sum. */
  function Expand5(v: nat): (r: u8)
    requires v < 32
    ensures r / 8 == v
    ensures v == 0 ==> r == 0
    ensures v == 31 ==> r == 0xFF
  {
    v * 8 + v / 4
  }

  /** `(v << 2) | (v >> 4)` for a 6-bit channel. */
  function Expand6(v: nat): (r: u8)
    requires v < 64
    ensures r / 4 == v
    ensures v == 0 ==> r == 0
    ensures v == 63 ==> r == 0xFF
  {
    v * 4 + v / 16
  }

  /** `rgb565ToRgb8Array`: the three bytes written for an RGB565 colour. Byte 0
      takes the top five bits (11..15), byte 1 the middle six (5..10) and byte 2
      the low five (0..4). */
  function Rgb565ToRgb8(input: u32): (rgb: seq<u8>)
    ensures |rgb| == 3
  {
    assert Pow2(5) == 32 && Pow2(6) == 64;
    [Expand5(Bits(input, 11, 5)), Expand6(Bits(input, 5, 6)), Expand5(Bits(input, 0, 5))]
  }

  /** The RGB565 value whose expansion gives `rgb`: the top bits of each channel. */
  function Rgb565Of(rgb: seq<u8>): (c: u16)
    requires |rgb| == 3
  {
    var r, g, b: int := rgb[2], rgb[1], rgb[0];
    r / 8 + 32 * (g / 4) + 2048 * (b / 8)
  }

  /** Expanding a 16-bit colour to eight bits per channel loses nothing. */
  lemma Rgb565RoundTrip(c: u16)
    ensures Rgb565Of(Rgb565ToRgb8(c)) == c
  {
    assert Pow2(5) == 32 && Pow2(6) == 64 && Pow2(11) == 2048 && Pow2(0) == 1;
    var lo, mid, hi := c % 32, (c / 32) % 64, c / 2048;
    assert Bits(c, 0, 5) == lo;
    assert Bits(c, 5, 6) == mid;
    assert hi < 32;
    assert Bits(c, 11, 5) == hi;
    assert c / 32 == mid + 64 * hi;
    assert c == lo + 32 * mid + 2048 * hi;
  }

  /** The writes of `rgb565ToRgb8Array(input, &buffer[at])`. */
  method Rgb565ToRgb8Array(input: u32, output: array<u8>, at: nat)
    requires at + 3 <= output.Length
    modifies output
    ensures output[at..at + 3] == Rgb565ToRgb8(input)
    ensures forall k :: 0 <= k < output.Length && !(at <= k < at + 3) ==> output[k] == old(output[k])
  {
    assert Pow2(5) == 32 && Pow2(6) == 64;
    var r := Bits(input, 0, 5);
    var g := Bits(input, 5, 6);
    var b := Bits(input, 11, 5);
    output[at] := Expand5(b);
    output[at + 1] := Expand6(g);
    output[at + 2] := Expand5(r);
  }

  /** Four-colour mode: forced by the caller, or colour 0 greater than colour 1
      as 16-bit values. Otherwise the block has three colours and a black one. */
  predicate FourColorMode(c0: u16, c1: u16, use4Colors: bool)
  {
    use4Colors || c0 > c1
  }

  /** Colour channel of palette entry `color` given the endpoints' channels
      `e0` and `e1`: the endpoints themselves, then the 1/3-2/3 blends in
      four-colour mode, or the midpoint and black otherwise. */
  function BlendChannel(e0: u8, e1: u8, four: bool, color: nat): u8
    requires color < 4
  {
    var a, b: int := e0, e1;
    if color == 0 then e0
    else if color == 1 then e1
    else if four then
      (if color == 2 then (2 * a + b) / 3 else (a + 2 * b) / 3)
    else if color == 2 then (a + b) / 2
    else 0
  }

  /** The 16 bytes of the four palette entries given the endpoints' expanded
      colours: channel `k % 4` of entry `k / 4`, alpha opaque except for
      entry 3 when `transparent3`. */
  function PaletteBytes(rgb0: seq<u8>, rgb1: seq<u8>, four: bool, transparent3: bool): (p: seq<u8>)
    requires |rgb0| == 3 && |rgb1| == 3
    ensures |p| == 16
  {
    seq(16, k requires 0 <= k < 16 =>
      if k % 4 == 3 then (if k == 15 && transparent3 then 0 else 0xFF)
      else BlendChannel(rgb0[k % 4], rgb1[k % 4], four, k / 4))
  }

  /** The 16 palette bytes `ReadDXTColors` leaves in `colors[0..3]`: entry 3 is
      transparent only in a three-colour block of a premultiplied caller. */
  function DxtPalette(c0: u16, c1: u16, preMultipliedAlpha: bool, use4Colors: bool): (p: seq<u8>)
    ensures |p| == 16
  {
    var four := FourColorMode(c0, c1, use4Colors);
    PaletteBytes(Rgb565ToRgb8(c0), Rgb565ToRgb8(c1), four, preMultipliedAlpha && !four)
  }

  /** `colors[k].data.color`: the word formed by the four bytes of entry `k`. */
  function ColorWord(colors: seq<u8>, k: nat): u32
    requires |colors| == 16 && k < 4
  {
    Pack(colors[4 * k], colors[4 * k + 1], colors[4 * k + 2], colors[4 * k + 3])
  }

  /** `color` and `buffer` alias: byte `j` of an entry's word is `buffer[j]`. */
  lemma ColorWordBytes(colors: seq<u8>, k: nat)
    requires |colors| == 16 && k < 4
    ensures forall j :: 0 <= j < 4 ==> ByteOf(ColorWord(colors, k), j) == colors[4 * k + j]
  {
    ByteOfPack(colors[4 * k], colors[4 * k + 1], colors[4 * k + 2], colors[4 * k + 3]);
  }

  /** The endpoints decode back to the two stored RGB565 colours, and every
      entry's alpha is opaque except entry 3 of a three-colour premultiplied block. */
  lemma PaletteEndpointsAndAlpha(c0: u16, c1: u16, preMultipliedAlpha: bool, use4Colors: bool)
    ensures var p := DxtPalette(c0, c1, preMultipliedAlpha, use4Colors);
      Rgb565Of(p[0..3]) == c0 && Rgb565Of(p[4..7]) == c1
    ensures var p := DxtPalette(c0, c1, preMultipliedAlpha, use4Colors);
      p[3] == 0xFF && p[7] == 0xFF && p[11] == 0xFF &&
      p[15] == (if preMultipliedAlpha && !FourColorMode(c0, c1, use4Colors) then 0 else 0xFF)
  {
    var rgb0, rgb1 := Rgb565ToRgb8(c0), Rgb565ToRgb8(c1);
    var four := FourColorMode(c0, c1, use4Colors);
    var p := PaletteBytes(rgb0, rgb1, four, preMultipliedAlpha && !four);
    EndpointEntries(rgb0, rgb1, four, preMultipliedAlpha && !four);
    assert p[0..3] == p[..8][0..3] == rgb0;
    assert p[4..7] == p[..8][4..7] == rgb1;
    Rgb565RoundTrip(c0);
    Rgb565RoundTrip(c1);
  }

  function Min(a: int, b: int): int { if a <= b then a else b }
  function Max(a: int, b: int): int { if a <= b then b else a }

  /** The blended channels lie between the endpoints, except the black fourth
      entry of a three-colour block. */
  lemma BlendsBetweenEndpoints(e0: u8, e1: u8, four: bool, color: nat)
    requires color < 4
    ensures four || color < 3 ==>
      Min(e0, e1) <= BlendChannel(e0, e1, four, color) <= Max(e0, e1)
    ensures !four && color == 3 ==> BlendChannel(e0, e1, four, color) == 0
  {
    var a, b: int := e0, e1;
    if four && color == 2 {
      var x := (2 * a + b) / 3;
      assert 3 * x <= 2 * a + b < 3 * x + 3;
    } else if four && color == 3 {
      var x := (a + 2 * b) / 3;
      assert 3 * x <= a + 2 * b < 3 * x + 3;
    } else if color == 2 {
      var x := (a + b) / 2;
      assert 2 * x <= a + b < 2 * x + 2;
    }
  }

  /** A fresh array of four `RgbDataArray` entries: the constructor sets
      every `color` to 0. */
  method NewColors() returns (colors: array<u8>)
    ensures fresh(colors) && colors.Length == 16
    ensures forall k :: 0 <= k < 4 ==> ColorWord(colors[..], k) == 0
  {
    colors := new u8[16](_ => 0);
  }

  /** The first two entries are the endpoints, opaque. */
  lemma EndpointEntries(rgb0: seq<u8>, rgb1: seq<u8>, four: bool, transparent3: bool)
    requires |rgb0| == 3 && |rgb1| == 3
    ensures PaletteBytes(rgb0, rgb1, four, transparent3)[..8] == rgb0 + [0xFF] + rgb1 + [0xFF]
  {
  }

  /** The palette bytes, entry by entry: the endpoints, then the blends of
      each channel, then the alphas. */
  lemma {:induction false} PaletteFromEntries(c: seq<u8>, rgb0: seq<u8>, rgb1: seq<u8>, four: bool, transparent3: bool)
    requires |c| == 16 && |rgb0| == 3 && |rgb1| == 3
    requires c[..8] == rgb0 + [0xFF] + rgb1 + [0xFF]
    requires forall j :: 0 <= j < 3 ==>
      c[8 + j] == BlendChannel(rgb0[j], rgb1[j], four, 2) && c[12 + j] == BlendChannel(rgb0[j], rgb1[j], four, 3)
    requires c[11] == 0xFF && c[15] == (if transparent3 then 0 else 0xFF)
    ensures c == PaletteBytes(rgb0, rgb1, four, transparent3)
  {
    var p := PaletteBytes(rgb0, rgb1, four, transparent3);
    forall k | 0 <= k < 16
      ensures c[k] == p[k]
    {
      if k < 8 {
        assert c[k] == c[..8][k];
      } else if k % 4 != 3 {
        assert c[k] == BlendChannel(rgb0[k % 4], rgb1[k % 4], four, k / 4);
      }
    }
  }

  /** `ReadDXTColors`: reads the two RGB565 endpoints and writes the palette. */
  method ReadDxtColors(stream: ByteStream, colors: array<u8>, preMultipliedAlpha: bool, use4Colors: bool)
    requires colors.Length == 16
    requires stream.position + 4 <= |stream.data|
    modifies stream, colors
    ensures stream.position == old(stream.position) + 4
    ensures colors[..] == DxtPalette(Bytes.ReadU16(stream.data, old(stream.position)),
                                     Bytes.ReadU16(stream.data, old(stream.position) + 2),
                                     preMultipliedAlpha, use4Colors)
  {
    var color1 := stream.ReadU16();
    var color2 := stream.ReadU16();

    Rgb565ToRgb8Array(color1, colors, 0);
    Rgb565ToRgb8Array(color2, colors, 4);
    var four := use4Colors || color1 > color2;
    BlendEntries(colors, four, preMultipliedAlpha && !four);
  }

  /** The rest of `ReadDXTColors` once the endpoints are expanded into entries
      0 and 1: every alpha set opaque, entries 2 and 3 blended, and entry 3
      made transparent in a three-colour block of a premultiplied caller. */
  method BlendEntries(colors: array<u8>, four: bool, transparent3: bool)
    requires colors.Length == 16
    modifies colors
    ensures colors[..] == PaletteBytes(old(colors[0..3]), old(colors[4..7]), four, transparent3)
  {
    ghost var rgb0, rgb1 := colors[0..3], colors[4..7];

    colors[3] := 0xFF;
    colors[7] := 0xFF;
    colors[11] := 0xFF;
    colors[15] := 0xFF;
    assert colors[..8] == rgb0 + [0xFF] + rgb1 + [0xFF];

    if four {
      for i := 0 to 3
        invariant colors[..8] == rgb0 + [0xFF] + rgb1 + [0xFF]
        invariant colors[11] == 0xFF && colors[15] == 0xFF
        invariant forall j :: 0 <= j < i ==>
          colors[8 + j] == BlendChannel(rgb0[j], rgb1[j], four, 2) &&
          colors[12 + j] == BlendChannel(rgb0[j], rgb1[j], four, 3)
      {
        var c0, c1: int := colors[i], colors[4 + i];
        assert c0 == rgb0[i] && c1 == rgb1[i] by {
          assert colors[..8][i] == rgb0[i] && colors[..8][4 + i] == rgb1[i];
        }
        colors[12 + i] := (c0 + 2 * c1) / 3;
        colors[8 + i] := (2 * c0 + c1) / 3;
      }
    } else {
      for i := 0 to 3
        invariant colors[..8] == rgb0 + [0xFF] + rgb1 + [0xFF]
        invariant colors[11] == 0xFF && colors[15] == 0xFF
        invariant forall j :: 0 <= j < i ==>
          colors[8 + j] == BlendChannel(rgb0[j], rgb1[j], four, 2) &&
          colors[12 + j] == BlendChannel(rgb0[j], rgb1[j], four, 3)
      {
        var c0, c1: int := colors[i], colors[4 + i];
        assert c0 == rgb0[i] && c1 == rgb1[i] by {
          assert colors[..8][i] == rgb0[i] && colors[..8][4 + i] == rgb1[i];
        }
        colors[8 + i] := (c0 + c1) / 2;
        colors[12 + i] := 0;
      }
    }
    if transparent3 {
      colors[15] := 0;
    }
    PaletteFromEntries(colors[..], rgb0, rgb1, four, transparent3);
  }
}
