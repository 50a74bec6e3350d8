/** Classification of a BLP2 texture from its header, the converter's
    early-exit guards and the choice of the block-compressed target format. */
module BlpFormat {
  import opened Bytes
  import opened BlpStructure

  /** The converter's `Format` enumeration. */
  datatype Format = RGB | RGB_PALETTE | BC1 | BC2 | BC3 | BC5 | RGBA | UNKNOWN

  /** The texture formats the converter can pick as a target. */
  datatype TextureFormat = BC1_RGB | BC1_RGBA | BC2_TEXTURE | BC3_TEXTURE

  /** `GetFormat`: the pixel layout named by `compression` and `alphaCompression`. */
  function GetFormat(h: BlpHeader): (f: Format)
    ensures f != RGBA
  {
    match h.compression
    case 1 => RGB_PALETTE
    case 2 =>
      (match h.alphaCompression
       case 0 => BC1
       case 1 => BC2
       case 7 => BC3
       case 11 => BC5
       case _ => UNKNOWN)
    case 3 => RGB
    case _ => UNKNOWN
  }

  /** The value of the multi-character literal `'BLP2'`. */
  const Blp2Literal: u32 := 0x424C_5032

  /** The header sanity test: it rejects only when the signature AND the
      version both mismatch. */
  predicate RejectsHeader(h: BlpHeader)
  {
    h.signature != Blp2Literal && h.version != 1
  }

  /** The guards `ConvertBLP` applies before decoding, in their order. */
  predicate PassesGuards(h: BlpHeader)
    requires h.WellFormed()
  {
    !RejectsHeader(h) && GetFormat(h) != BC5 && h.sizes[0] != 0
  }

  /** The compressed texture format `ConvertBLP` encodes the decoded pixels to. */
  function TargetFormat(h: BlpHeader): (t: TextureFormat)
  {
    match GetFormat(h)
    case BC1 => if h.alphaDepth == 1 then BC1_RGBA else BC1_RGB
    case BC2 => BC2_TEXTURE
    case BC3 => BC3_TEXTURE
    case _ => if h.alphaDepth > 0 then BC3_TEXTURE else BC1_RGB
  }

  /** The classification table, stated both ways: each format comes from exactly
      these header values. */
  lemma GetFormatTable(h: BlpHeader)
    ensures GetFormat(h) == RGB_PALETTE <==> h.compression == 1
    ensures GetFormat(h) == RGB <==> h.compression == 3
    ensures GetFormat(h) == BC1 <==> h.compression == 2 && h.alphaCompression == 0
    ensures GetFormat(h) == BC2 <==> h.compression == 2 && h.alphaCompression == 1
    ensures GetFormat(h) == BC3 <==> h.compression == 2 && h.alphaCompression == 7
    ensures GetFormat(h) == BC5 <==> h.compression == 2 && h.alphaCompression == 11
    ensures GetFormat(h) == UNKNOWN <==>
      !(h.compression in {1, 2, 3}) ||
      (h.compression == 2 && !(h.alphaCompression in {0, 1, 7, 11}))
  {
  }

  /** The target keeps block-compressed sources in their own block format and
      gives uncompressed sources an alpha-capable target exactly when they carry alpha. */
  lemma TargetFormatChoice(h: BlpHeader)
    ensures GetFormat(h) == BC1 ==> (TargetFormat(h) == BC1_RGBA <==> h.alphaDepth == 1)
    ensures GetFormat(h) == BC2 ==> TargetFormat(h) == BC2_TEXTURE
    ensures GetFormat(h) == BC3 ==> TargetFormat(h) == BC3_TEXTURE
    ensures GetFormat(h) in {RGB, RGB_PALETTE} ==>
      (TargetFormat(h) == BC3_TEXTURE <==> h.alphaDepth > 0) &&
      (TargetFormat(h) == BC1_RGB <==> h.alphaDepth == 0)
  {
  }

  /** The four bytes "BLP2" a BLP2 file begins with. */
  const Blp2Magic: seq<u8> := [0x42, 0x4C, 0x50, 0x32]

  /** A file that begins with "BLP2" reads, on a little-endian host, as a signature
      that differs from the `'BLP2'` literal; the sanity test then rejects
      such a file exactly when its version is not 1. */
  lemma MagicSignatureTest(b: seq<u8>)
    requires |b| >= HeaderSize && b[..4] == Blp2Magic
    ensures ParseHeader(b).signature == 0x3250_4C42 != Blp2Literal
    ensures RejectsHeader(ParseHeader(b)) <==> ParseHeader(b).version != 1
  {
    assert b[0..4] == Blp2Magic;
    assert b[0..4][1..][1..][1..][1..] == [];
  }
}
