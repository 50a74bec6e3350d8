/** Fixed-width unsigned integers, little-endian byte sequences and the
    bit-field arithmetic the converter does on them (shifts and masks written
    as division and remainder by powers of two). */
module Bytes {

  type u8 = x: int | 0 <= x < 0x100
  type u16 = x: int | 0 <= x < 0x1_0000
  type u32 = x: int | 0 <= x < 0x1_0000_0000
  type u64 = x: int | 0 <= x < 0x1_0000_0000_0000_0000
  type i8 = x: int | -0x80 <= x < 0x80
  type i16 = x: int | -0x8000 <= x < 0x8000

  const U32Max: u32 := 0xFFFF_FFFF

  /** 2^n */
  function Pow2(n: nat): (r: nat)
    ensures r >= 1
  {
    if n == 0 then 1 else 2 * Pow2(n - 1)
  }

  /** Powers of two multiply by adding their exponents. */
  lemma {:induction false} Pow2Add(a: nat, b: nat)
    ensures Pow2(a + b) == Pow2(a) * Pow2(b)
  {
    if a > 0 {
      Pow2Add(a - 1, b);
    }
  }

  lemma Pow2Of32()
    ensures Pow2(32) == 0x1_0000_0000
  {
    assert Pow2(8) == 0x100;
    Pow2Add(8, 8);
    Pow2Add(16, 16);
  }

  /** `(x >> shift) & ((1 << width) - 1)`: the `width`-bit field of `x` starting at bit `shift`. */
  function Bits(x: nat, shift: nat, width: nat): (r: nat)
    ensures r < Pow2(width)
  {
    (x / Pow2(shift)) % Pow2(width)
  }

  /** The value of a little-endian byte sequence. */
  function LE(bytes: seq<u8>): nat
  {
    if |bytes| == 0 then 0 else bytes[0] + 256 * LE(bytes[1..])
  }

  /** 256^n */
  function Pow256(n: nat): (r: nat)
    ensures r >= 1
  {
    if n == 0 then 1 else 256 * Pow256(n - 1)
  }

  /** The `n`-byte little-endian encoding of `v` (the bytes a `memcpy` of an `n`-byte integer writes). */
  function EncodeLE(v: nat, n: nat): (bytes: seq<u8>)
    ensures |bytes| == n
  {
    if n == 0 then [] else [v % 256] + EncodeLE(v / 256, n - 1)
  }

  lemma {:induction false} LEBound(bytes: seq<u8>)
    ensures LE(bytes) < Pow256(|bytes|)
  {
    if |bytes| > 0 {
      LEBound(bytes[1..]);
    }
  }

  /** Decoding an encoding gives back the value, whenever it fits in `n` bytes. */
  lemma {:induction false} LEOfEncodeLE(v: nat, n: nat)
    requires v < Pow256(n)
    ensures LE(EncodeLE(v, n)) == v
  {
    if n > 0 {
      LEOfEncodeLE(v / 256, n - 1);
      assert EncodeLE(v, n)[1..] == EncodeLE(v / 256, n - 1);
    }
  }

  /** Encoding a decoded sequence gives back the bytes. */
  lemma {:induction false} EncodeLEOfLE(bytes: seq<u8>)
    ensures EncodeLE(LE(bytes), |bytes|) == bytes
  {
    if |bytes| > 0 {
      EncodeLEOfLE(bytes[1..]);
      assert LE(bytes) % 256 == bytes[0];
      assert LE(bytes) / 256 == LE(bytes[1..]);
    }
  }

  /** Little-endian integer of `n` bytes at `pos` (an unaligned `uintN_t` read). */
  function ReadLE(data: seq<u8>, pos: nat, n: nat): nat
    requires pos + n <= |data|
  {
    LE(data[pos..pos + n])
  }

  function ReadU16(data: seq<u8>, pos: nat): (v: u16)
    requires pos + 2 <= |data|
  {
    LEBound(data[pos..pos + 2]);
    ReadLE(data, pos, 2)
  }

  function ReadU32(data: seq<u8>, pos: nat): (v: u32)
    requires pos + 4 <= |data|
  {
    LEBound(data[pos..pos + 4]);
    ReadLE(data, pos, 4)
  }

  lemma Pow256Of8()
    ensures Pow256(8) == 0x1_0000_0000_0000_0000
  {
  }

  function ReadU64(data: seq<u8>, pos: nat): (v: u64)
    requires pos + 8 <= |data|
  {
    LEBound(data[pos..pos + 8]);
    Pow256Of8();
    ReadLE(data, pos, 8)
  }

  /** A read inside a slice is the read at the shifted position of the whole sequence. */
  lemma ReadLESlice(data: seq<u8>, p: nat, m: nat, k: nat, n: nat)
    requires p + m <= |data| && k + n <= m
    ensures ReadLE(data[p..p + m], k, n) == ReadLE(data, p + k, n)
  {
    var a, b := data[p..p + m][k..k + n], data[p + k..p + k + n];
    assert |a| == n == |b|;
    forall i | 0 <= i < n
      ensures a[i] == b[i]
    {
    }
    assert a == b;
  }

  // ---- the four bytes of a 32-bit word, as the `RgbDataArray` union sees them

  /** The word whose bytes in memory are b0, b1, b2, b3 (little-endian host). */
  function Pack(b0: u8, b1: u8, b2: u8, b3: u8): u32
  {
    b0 + 0x100 * b1 + 0x1_0000 * b2 + 0x100_0000 * b3
  }

  /** Byte `k` of the word in memory. */
  function ByteOf(w: u32, k: nat): u8
    requires k < 4
  {
    if k == 0 then w % 0x100
    else if k == 1 then (w / 0x100) % 0x100
    else if k == 2 then (w / 0x1_0000) % 0x100
    else w / 0x100_0000
  }

  /** Reading a byte of a packed word gives the byte written there. */
  lemma ByteOfPack(b0: u8, b1: u8, b2: u8, b3: u8)
    ensures ByteOf(Pack(b0, b1, b2, b3), 0) == b0
    ensures ByteOf(Pack(b0, b1, b2, b3), 1) == b1
    ensures ByteOf(Pack(b0, b1, b2, b3), 2) == b2
    ensures ByteOf(Pack(b0, b1, b2, b3), 3) == b3
  {
    var w := Pack(b0, b1, b2, b3);
    assert w / 0x100_0000 == b3;
    assert w % 0x100_0000 == b0 + 0x100 * b1 + 0x1_0000 * b2;
    assert (w / 0x1_0000) == b2 + 0x100 * b3;
    assert (w / 0x100) == b1 + 0x100 * b2 + 0x1_0000 * b3;
  }

  /** Packing the four bytes of a word gives the word back. */
  lemma PackOfBytes(w: u32)
    ensures Pack(ByteOf(w, 0), ByteOf(w, 1), ByteOf(w, 2), ByteOf(w, 3)) == w
  {
    var q1 := w / 0x100;
    var q2 := q1 / 0x100;
    var q3 := q2 / 0x100;
    assert w == w % 0x100 + 0x100 * q1;
    assert q1 == q1 % 0x100 + 0x100 * q2;
    assert q2 == q2 % 0x100 + 0x100 * q3;
    assert q2 == w / 0x1_0000;
    assert q3 == w / 0x100_0000;
  }

  /** Four little-endian bytes read as a word are that word's bytes in memory. */
  lemma LEIsPack(b: seq<u8>)
    requires |b| == 4
    ensures LE(b) == Pack(b[0], b[1], b[2], b[3])
    ensures forall k :: 0 <= k < 4 ==> ByteOf(LE(b), k) == b[k]
  {
    var b1, b2, b3 := b[1..], b[1..][1..], b[1..][1..][1..];
    assert b3[1..] == [];
    assert LE(b3) == b[3];
    var x1, x2, x3: int := b[1], b[2], b[3];
    assert LE(b2) == x2 + 256 * x3;
    assert LE(b1) == x1 + 256 * x2 + 0x1_0000 * x3;
    ByteOfPack(b[0], b[1], b[2], b[3]);
  }

  /** `(w & 0x00FFFFFF) | (a << 24)`: the word with its top byte replaced by `a`. */
  function WithAlpha(w: u32, a: u8): (r: u32)
  {
    w % 0x100_0000 + 0x100_0000 * a
  }

  lemma WithAlphaBytes(w: u32, a: u8)
    ensures WithAlpha(w, a) == Pack(ByteOf(w, 0), ByteOf(w, 1), ByteOf(w, 2), a)
  {
    PackOfBytes(w);
    assert w % 0x100_0000 == ByteOf(w, 0) + 0x100 * ByteOf(w, 1) + 0x1_0000 * ByteOf(w, 2);
  }

  /** Replacing the top byte keeps the three low bytes. */
  lemma WithAlphaByteOf(w: u32, a: u8)
    ensures forall j :: 0 <= j < 3 ==> ByteOf(WithAlpha(w, a), j) == ByteOf(w, j)
    ensures ByteOf(WithAlpha(w, a), 3) == a
  {
    WithAlphaBytes(w, a);
    ByteOfPack(ByteOf(w, 0), ByteOf(w, 1), ByteOf(w, 2), a);
  }

  /** The low three bytes of a packed word, as one 24-bit value. */
  lemma PackLow(b0: u8, b1: u8, b2: u8, b3: u8)
    ensures Pack(b0, b1, b2, b3) % 0x100_0000 == b0 + 0x100 * b1 + 0x1_0000 * b2
  {
  }

  /** Replacing the top byte keeps the low 24 bits and puts `a` on top. */
  lemma WithAlphaParts(w: u32, a: u8)
    ensures WithAlpha(w, a) % 0x100_0000 == w % 0x100_0000
    ensures WithAlpha(w, a) / 0x100_0000 == a
  {
  }
}
