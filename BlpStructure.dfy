/** The packed on-disk BLP2 header (`#pragma pack(1)`, no padding): the
    fields in declaration order, integers little-endian. */
module BlpStructure {
  import opened Bytes

  datatype BlpHeader = BlpHeader(
    signature: u32,
    version: u32,
    compression: u8,
    alphaDepth: u8,
    alphaCompression: u8,
    mipLevels: u8,
    width: u32,
    height: u32,
    offsets: seq<u32>,
    sizes: seq<u32>)
  {
    /** Both mip tables hold 16 entries. */
    predicate WellFormed()
    {
      |offsets| == MipCount && |sizes| == MipCount
    }
  }

  const MipCount: nat := 16

  // Byte offsets of the fields.
  const SignatureAt: nat := 0
  const VersionAt: nat := 4
  const CompressionAt: nat := 8
  const AlphaDepthAt: nat := 9
  const AlphaCompressionAt: nat := 10
  const MipLevelsAt: nat := 11
  const WidthAt: nat := 12
  const HeightAt: nat := 16
  const OffsetsAt: nat := 20
  const SizesAt: nat := 84

  /** `sizeof(BlpHeader)` */
  const HeaderSize: nat := 148

  /** Reading the header from its 148 bytes (`stream.read<BlpHeader>()`). */
  function ParseHeader(b: seq<u8>): (h: BlpHeader)
    requires |b| >= HeaderSize
    ensures h.WellFormed()
  {
    BlpHeader(
      ReadU32(b, SignatureAt),
      ReadU32(b, VersionAt),
      b[CompressionAt],
      b[AlphaDepthAt],
      b[AlphaCompressionAt],
      b[MipLevelsAt],
      ReadU32(b, WidthAt),
      ReadU32(b, HeightAt),
      seq(MipCount, k requires 0 <= k < MipCount => ReadU32(b, OffsetsAt + 4 * k)),
      seq(MipCount, k requires 0 <= k < MipCount => ReadU32(b, SizesAt + 4 * k)))
  }

  /** The header byte at offset `i` in the packed layout. */
  function HeaderByte(h: BlpHeader, i: nat): u8
    requires h.WellFormed() && i < HeaderSize
  {
    if i < VersionAt then EncodeLE(h.signature, 4)[i - SignatureAt]
    else if i < CompressionAt then EncodeLE(h.version, 4)[i - VersionAt]
    else if i == CompressionAt then h.compression
    else if i == AlphaDepthAt then h.alphaDepth
    else if i == AlphaCompressionAt then h.alphaCompression
    else if i == MipLevelsAt then h.mipLevels
    else if i < HeightAt then EncodeLE(h.width, 4)[i - WidthAt]
    else if i < OffsetsAt then EncodeLE(h.height, 4)[i - HeightAt]
    else if i < SizesAt then EncodeLE(h.offsets[(i - OffsetsAt) / 4], 4)[(i - OffsetsAt) % 4]
    else EncodeLE(h.sizes[(i - SizesAt) / 4], 4)[(i - SizesAt) % 4]
  }

  /** The bytes a header occupies on disk. */
  function EncodeHeader(h: BlpHeader): (b: seq<u8>)
    requires h.WellFormed()
    ensures |b| == HeaderSize
  {
    seq(HeaderSize, i requires 0 <= i < HeaderSize => HeaderByte(h, i))
  }

  /** The packed layout has no padding: the field widths add up to the header size,
      and each field starts where the previous one ends. */
  lemma PackedLayout()
    ensures SignatureAt + 4 == VersionAt && VersionAt + 4 == CompressionAt
    ensures CompressionAt + 1 == AlphaDepthAt && AlphaDepthAt + 1 == AlphaCompressionAt
    ensures AlphaCompressionAt + 1 == MipLevelsAt && MipLevelsAt + 1 == WidthAt
    ensures WidthAt + 4 == HeightAt && HeightAt + 4 == OffsetsAt
    ensures OffsetsAt + 4 * MipCount == SizesAt && SizesAt + 4 * MipCount == HeaderSize
    ensures HeaderSize == 4 + 4 + 1 + 1 + 1 + 1 + 4 + 4 + 64 + 64
  {
  }

  /** A 32-bit field encoded at `at` reads back as the same value. */
  lemma {:induction false} WordField(b: seq<u8>, at: nat, v: u32)
    requires at + 4 <= |b|
    requires forall i :: 0 <= i < 4 ==> b[at + i] == EncodeLE(v, 4)[i]
    ensures ReadU32(b, at) == v
  {
    assert b[at..at + 4] == EncodeLE(v, 4);
    LEOfEncodeLE(v, 4);
  }

  /** Entry `k` of the mip-offset table reads back from its encoded position. */
  lemma EncodedOffset(h: BlpHeader, k: nat)
    requires h.WellFormed() && k < MipCount
    ensures ReadU32(EncodeHeader(h), OffsetsAt + 4 * k) == h.offsets[k]
  {
    var b := EncodeHeader(h);
    forall i | 0 <= i < 4
      ensures b[OffsetsAt + 4 * k + i] == EncodeLE(h.offsets[k], 4)[i]
    {
      assert (4 * k + i) / 4 == k && (4 * k + i) % 4 == i;
    }
    WordField(b, OffsetsAt + 4 * k, h.offsets[k]);
  }

  /** Entry `k` of the mip-size table reads back from its encoded position. */
  lemma EncodedSize(h: BlpHeader, k: nat)
    requires h.WellFormed() && k < MipCount
    ensures ReadU32(EncodeHeader(h), SizesAt + 4 * k) == h.sizes[k]
  {
    var b := EncodeHeader(h);
    forall i | 0 <= i < 4
      ensures b[SizesAt + 4 * k + i] == EncodeLE(h.sizes[k], 4)[i]
    {
      assert (4 * k + i) / 4 == k && (4 * k + i) % 4 == i;
    }
    WordField(b, SizesAt + 4 * k, h.sizes[k]);
  }

  /** Reading back an encoded header gives the header. */
  lemma {:induction false} ParseEncodeHeader(h: BlpHeader)
    requires h.WellFormed()
    ensures ParseHeader(EncodeHeader(h)) == h
  {
    var b := EncodeHeader(h);
    WordField(b, SignatureAt, h.signature);
    WordField(b, VersionAt, h.version);
    WordField(b, WidthAt, h.width);
    WordField(b, HeightAt, h.height);
    var p := ParseHeader(b);
    forall k | 0 <= k < MipCount
      ensures p.offsets[k] == h.offsets[k] && p.sizes[k] == h.sizes[k]
    {
      EncodedOffset(h, k);
      EncodedSize(h, k);
    }
  }

  /** Byte `j` of a re-encoded 32-bit read is the byte that was read. */
  lemma ReencodedByte(b: seq<u8>, at: nat, j: nat)
    requires at + 4 <= |b| && j < 4
    ensures EncodeLE(ReadU32(b, at), 4)[j] == b[at + j]
  {
    EncodeLEOfLE(b[at..at + 4]);
  }

  /** A byte of the mip tables re-encodes to itself. */
  lemma TableByte(b: seq<u8>, i: nat)
    requires |b| == HeaderSize && OffsetsAt <= i < HeaderSize
    ensures HeaderByte(ParseHeader(b), i) == b[i]
  {
    var h := ParseHeader(b);
    if i < SizesAt {
      var k := (i - OffsetsAt) / 4;
      assert h.offsets[k] == ReadU32(b, OffsetsAt + 4 * k);
      ReencodedByte(b, OffsetsAt + 4 * k, (i - OffsetsAt) % 4);
    } else {
      var k := (i - SizesAt) / 4;
      assert h.sizes[k] == ReadU32(b, SizesAt + 4 * k);
      ReencodedByte(b, SizesAt + 4 * k, (i - SizesAt) % 4);
    }
  }

  /** A byte of the fixed fields re-encodes to itself. */
  lemma FieldByte(b: seq<u8>, i: nat)
    requires |b| == HeaderSize && i < OffsetsAt
    ensures HeaderByte(ParseHeader(b), i) == b[i]
  {
    if i < VersionAt {
      ReencodedByte(b, SignatureAt, i - SignatureAt);
    } else if i < CompressionAt {
      ReencodedByte(b, VersionAt, i - VersionAt);
    } else if WidthAt <= i < HeightAt {
      ReencodedByte(b, WidthAt, i - WidthAt);
    } else if HeightAt <= i {
      ReencodedByte(b, HeightAt, i - HeightAt);
    }
  }

  /** Encoding a parsed header gives back its 148 bytes. */
  lemma {:induction false} EncodeParseHeader(b: seq<u8>)
    requires |b| == HeaderSize
    ensures EncodeHeader(ParseHeader(b)) == b
  {
    forall i | 0 <= i < HeaderSize
      ensures HeaderByte(ParseHeader(b), i) == b[i]
    {
      if i < OffsetsAt {
        FieldByte(b, i);
      } else {
        TableByte(b, i);
      }
    }
  }
}
