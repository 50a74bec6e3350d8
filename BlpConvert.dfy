/** The converter's entry point: the header guards, the dispatch of the
    first mip layer to the reader for its format, and the choice of the
    texture format the decoded pixels are encoded to. */
module BlpConvert {
  import opened Bytes
  import opened Wrappers
  import opened ByteStreams
  import opened BlpStructure
  import opened BlpFormat
  import opened BlpUncompressed
  import opened BlpPalette
  import opened BlpCompressed

  /** The bytes the reader for the header's format reads from the first
      layer lie in the buffer, and the reader's 32-bit sizes do not wrap.
      The converter reads without bounds checks, so this is what it needs
      of its input. */
  predicate LayerFits(h: BlpHeader, data: seq<u8>)
    requires h.WellFormed()
  {
    var pos := h.offsets[0];
    var n := NumEntries(h.width, h.height);
    match GetFormat(h)
    case RGB => pos + 4 * n <= |data|
    case RGB_PALETTE =>
      HeaderSize + 4 * PaletteSize <= |data| && pos + h.sizes[0] <= |data| &&
      IndexBytes(h.alphaDepth, n) <= h.sizes[0] &&
      (h.alphaDepth == 8 ==> h.width * h.height < 0x1_0000_0000)
    case BC1 => CompressedLayerFits(h, data)
    case BC2 => CompressedLayerFits(h, data)
    case BC3 => CompressedLayerFits(h, data)
    case _ => true
  }

  /** The block-compressed layer's blocks lie in the buffer. */
  predicate CompressedLayerFits(h: BlpHeader, data: seq<u8>)
    requires h.WellFormed()
  {
    BlockArithmeticFits(h.width, h.height) && h.offsets[0] <= |data| &&
    CompressedFits(h, |data| - h.offsets[0])
  }

  /** `LoadFirstLayer`: the pixels of mip layer 0, read from `offsets[0]` by
      the reader for the header's format. */
  function FirstLayer(h: BlpHeader, data: seq<u8>): (r: Result<seq<u32>>)
    requires h.WellFormed() && LayerFits(h, data)
    ensures GetFormat(h) == UNKNOWN ==> r == Failure("Unable to determine format")
    ensures GetFormat(h) in {BC5, RGBA} ==> r == Failure("Unsupported format of BLP")
    ensures GetFormat(h) == RGB_PALETTE ==> (r.Success? <==> SupportedAlphaDepth(h.alphaDepth))
    ensures GetFormat(h) in {RGB, BC1, BC2, BC3} ==> r.Success?
    ensures r.Success? ==> |r.value| == NumEntries(h.width, h.height)
  {
    var pos := h.offsets[0];
    match GetFormat(h)
    case UNKNOWN => Failure("Unable to determine format")
    case RGB => Success(UncompressedPixels(data, pos, NumEntries(h.width, h.height)))
    case RGB_PALETTE => PaletteLayer(data, pos, h.sizes[0], h.width, h.height, h.alphaDepth)
    case BC1 => CompressedFirstLayer(h, data)
    case BC2 => CompressedFirstLayer(h, data)
    case BC3 => CompressedFirstLayer(h, data)
    case _ => Failure("Unsupported format of BLP")
  }

  /** The first layer of a block-compressed texture. */
  function CompressedFirstLayer(h: BlpHeader, data: seq<u8>): (r: Result<seq<u32>>)
    requires h.WellFormed() && CompressedLayerFits(h, data)
    ensures r.Success? <==> GetFormat(h) in {BC1, BC2, BC3}
    ensures r.Success? ==> |r.value| == NumEntries(h.width, h.height)
  {
    PixelsFit(h.width, h.height);
    CompressedLayer(h, data, h.offsets[0])
  }

  /** `LoadFirstLayer`: moves the stream to the first layer and runs the
      reader for the header's format; the formats without a reader throw. */
  method LoadFirstLayer(header: BlpHeader, stream: ByteStream) returns (imageData: array<u32>, status: Result<()>)
    requires header.WellFormed() && LayerFits(header, stream.data)
    modifies stream
    ensures Produces(FirstLayer(header, stream.data), imageData[..], status)
  {
    var format := GetFormat(header);
    imageData := new u32[0];
    if format == UNKNOWN {
      status := Failure("Unable to determine format");
      return;
    }
    var offset := header.offsets[0];
    stream.SetPosition(offset);
    match format {
      case RGB =>
        imageData := ParseUncompressed(header.width, header.height, stream);
        status := Success(());
      case RGB_PALETTE =>
        imageData, status := ParseUncompressedPalette(header, stream);
      case BC1 =>
        imageData, status := LoadCompressed(header, stream);
      case BC2 =>
        imageData, status := LoadCompressed(header, stream);
      case BC3 =>
        imageData, status := LoadCompressed(header, stream);
      case _ =>
        status := Failure("Unsupported format of BLP");
    }
  }

  /** The block-compressed branch of `LoadFirstLayer`. */
  method LoadCompressed(header: BlpHeader, stream: ByteStream) returns (imageData: array<u32>, status: Result<()>)
    requires header.WellFormed() && CompressedLayerFits(header, stream.data)
    requires stream.position == header.offsets[0]
    modifies stream
    ensures Produces(CompressedFirstLayer(header, stream.data), imageData[..], status)
  {
    imageData, status := ParseCompressed(header, stream);
  }

  /** What a conversion ends in: no output (a guard returned early), an
      exception with its message, the decoded pixels of layer 0 with the
      texture format they are encoded to, or `Undefined`: the source reads
      past the end of the buffer (a file shorter than the header or than its
      first layer), or indexes a buffer out of range after a 32-bit size
      wrapped (the block buffer, or the pixel buffer of a palette layer with
      8-bit alpha). The source checks neither, and C++ gives these no meaning. */
  datatype Outcome = NoOutput | Failed(message: string) | Decoded(pixels: seq<u32>, target: TextureFormat) | Undefined

  /** `stream.read<BlpHeader>()` at the start of the buffer. */
  function ReadHeader(data: seq<u8>): (h: BlpHeader)
    requires |data| >= HeaderSize
    ensures h.WellFormed()
  {
    ParseHeader(data[..HeaderSize])
  }

  /** The converter's reads stay in the buffer: the header and, when the
      guards let it through, the first layer. */
  predicate ConvertibleInput(data: seq<u8>)
  {
    |data| >= HeaderSize &&
    var h := ReadHeader(data);
    PassesGuards(h) ==> LayerFits(h, data)
  }

  /** `ConvertBLP` up to the hand-over of the pixels to the texture encoder. */
  function ConvertOutcome(data: seq<u8>): (o: Outcome)
  {
    if |data| < HeaderSize then Undefined
    else
      var h := ReadHeader(data);
      if !PassesGuards(h) then NoOutput
      else if !LayerFits(h, data) then Undefined
      else
        match FirstLayer(h, data)
        case Failure(e) => Failed(e)
        case Success(pixels) => Decoded(pixels, TargetFormat(h))
  }

  /** `ConvertBLP`: reads the header, applies the guards, loads the first
      layer and picks the target format. */
  method ConvertBlp(bytes: seq<u8>) returns (outcome: Outcome)
    ensures outcome == ConvertOutcome(bytes)
  {
    if |bytes| < HeaderSize {
      return Undefined;
    }
    var stream := new ByteStream(bytes);
    var headerBytes := stream.Read(HeaderSize);
    var header := ParseHeader(headerBytes);
    if RejectsHeader(header) {
      return NoOutput;
    }
    var format := GetFormat(header);
    if format == BC5 {
      return NoOutput;
    }
    if header.sizes[0] == 0 {
      return NoOutput;
    }
    if !LayerFits(header, bytes) {
      return Undefined;
    }
    var imageData, status := LoadFirstLayer(header, stream);
    if status.Failure? {
      return Failed(status.error);
    }
    var textureFormat: TextureFormat;
    if format == BC1 {
      if header.alphaDepth == 1 {
        textureFormat := BC1_RGBA;
      } else {
        textureFormat := BC1_RGB;
      }
    } else if format == BC2 {
      textureFormat := BC2_TEXTURE;
    } else if format == BC3 {
      textureFormat := BC3_TEXTURE;
    } else {
      if header.alphaDepth > 0 {
        textureFormat := BC3_TEXTURE;
      } else {
        textureFormat := BC1_RGB;
      }
    }
    outcome := Decoded(imageData[..], textureFormat);
  }

  /** The conversion's outcomes, all cases: undefined exactly when a read
      leaves the buffer; otherwise no output exactly when a guard fails, and
      else the first layer's exception or its `w * h` pixels with the target
      format. */
  lemma ConvertOutcomeCases(data: seq<u8>)
    ensures ConvertOutcome(data) == Undefined <==> !ConvertibleInput(data)
    ensures ConvertibleInput(data) ==> var h := ReadHeader(data);
      (ConvertOutcome(data) == NoOutput <==> !PassesGuards(h)) &&
      (ConvertOutcome(data).Decoded? ==>
        |ConvertOutcome(data).pixels| == NumEntries(h.width, h.height) &&
        ConvertOutcome(data).target == TargetFormat(h)) &&
      (ConvertOutcome(data).Failed? ==>
        ConvertOutcome(data).message in {"Unable to determine format", "Unsupported alpha depth"})
  {
    if !ConvertibleInput(data) {
      return;
    }
    var h := ReadHeader(data);
    if PassesGuards(h) {
      var f := GetFormat(h);
      assert f != BC5 && f != RGBA;
      if f == RGB_PALETTE {
        assert FirstLayer(h, data) == PaletteLayer(data, h.offsets[0], h.sizes[0], h.width, h.height, h.alphaDepth);
      } else if f in {BC1, BC2, BC3} {
        assert FirstLayer(h, data).Success?;
      }
    }
  }

  /** The guard on BC5 runs before the first layer is loaded, so the
      exception for a format without a reader is never thrown out of the
      conversion. */
  lemma NoUnsupportedFormatFailure(data: seq<u8>)
    ensures ConvertOutcome(data) != Failed("Unsupported format of BLP")
  {
    ConvertOutcomeCases(data);
  }

  /** Every block-compressed or uncompressed texture that passes the guards
      decodes; only palette textures with an alpha depth other than 0, 1, 4
      and 8, or textures of unknown format, end in an exception. */
  lemma DecodesUnlessUnsupported(data: seq<u8>)
    requires ConvertibleInput(data)
    requires PassesGuards(ReadHeader(data))
    ensures var h := ReadHeader(data);
      ConvertOutcome(data).Decoded? <==>
        GetFormat(h) in {RGB, BC1, BC2, BC3} ||
        (GetFormat(h) == RGB_PALETTE && SupportedAlphaDepth(h.alphaDepth))
  {
  }

  /** The colour channels the converter hands to the encoder: red from bits
      16-23, green 8-15, blue 0-7 and alpha 24-31 (each later scaled by 1/255). */
  datatype Rgba = Rgba(r: u8, g: u8, b: u8, a: u8)

  function PixelColor(p: u32): (c: Rgba)
    ensures p == Pack(c.b, c.g, c.r, c.a)
  {
    PackOfBytes(p);
    Rgba(ByteOf(p, 2), ByteOf(p, 1), ByteOf(p, 0), ByteOf(p, 3))
  }

  /** In an uncompressed layer, the four bytes of a pixel in the file land in
      red, green, blue and alpha in file order. */
  lemma UncompressedColor(data: seq<u8>, pos: nat, n: nat, i: nat)
    requires pos + 4 * n <= |data| && i < n
    ensures var c := PixelColor(UncompressedPixels(data, pos, n)[i]);
      c == Rgba(data[pos + 4 * i], data[pos + 4 * i + 1], data[pos + 4 * i + 2], data[pos + 4 * i + 3])
  {
    UncompressedPixelBytes(data, pos, n, i);
  }
}
