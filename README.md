# AssetConverter core in Dafny

This project models the parts of novusengine's AssetConverter that turn World of
Warcraft client data into the engine's own formats, and proves properties of the model:

- **BLP decoder.** It reads the 148-byte `BlpHeader` and picks the pixel format from
  `compression` and `alphaCompression`. It then decodes the first mip layer:
  - raw BGRA words, byte-swapped to RGBA;
  - 8-bit palette indices with 0, 1, 4 or 8 bits of alpha;
  - DXT1, DXT3 and DXT5 4x4 blocks, untiled into rows.

  It also chooses the BC1, BC2 or BC3 target format the converter would compress to.
- **CASC list file.** It parses a `fileId;path` line per record into the id-to-path and
  path-to-id tables and the model, map-object and texture id lists.
- **CASC loader.** This covers the locale names, the storage-open arguments and `Load`,
  `Close` and the loading callback. It also covers the file reads by id, by path and by
  list-file path, including the partial read.
- **ClientDB extractor helpers.** These are the path-extension fix, the string clean-up and
  the DB2 and WDT paths. They also include the component-section remapping, animation flags,
  light timestamps, the gender offset, light-param flags and the skybox model path and name.
- **Map extractor per-chunk post-processing.** This covers:
  - the chunk grid position and the liquid vertex-format resolution;
  - the placement name-hash rewrite and the blend-map path;
  - packing of texture alpha maps into a four-channel buffer;
  - the triangle list with terrain holes cut out.

How the model is written:

- **Pure computations** are functions over datatypes.
- **Code that mutates a stream, an array or an object** is a method or a class with
  `modifies` clauses:
  - `ByteStream` (a byte buffer with a read position);
  - `CascListFile.Bytebuffer` and `CascListFile.ListFile`;
  - `CascLoader.Loader`;
  - the image and block arrays of the BLP decoder;
  - the alpha-map buffer and the texture-id table of the map extractor.

  Each such method is proved against a specification function, and properties of that
  function are proved as lemmas.
- **Integers** are unbounded `int` subtypes (`u8`, `u16`, `u32`, `u64`). Bit operations are
  written as division and remainder by powers of two.
- **Byte order.** The host is taken to be little-endian, as the source's reinterpreting casts
  assume.
- **Outside services become parameters.** The storage, the file system, `fnv1a_32` and the
  client tables are passed in as maps, booleans and function values.

## Model

| member | source | states |
|---|---|---|
| BlpStructure.ParseEncodeHeader | Source/AssetConverter/AssetConverter/Blp/BlpStructure.h:7-20 | Reading a header back from its 148 encoded bytes gives the same header: every field and all 16 offsets and sizes survive. |
| BlpStructure.EncodeParseHeader | Source/AssetConverter/AssetConverter/Blp/BlpStructure.h:7-20 | Encoding a parsed 148-byte header reproduces the bytes exactly, so the packed struct is a bijection with 148-byte strings. |
| BlpStructure.PackedLayout | Source/AssetConverter/AssetConverter/Blp/BlpStructure.h:7-22 | With `#pragma pack(1)` the fields are contiguous at offsets 0, 4, 8, 9, 10, 11, 12, 16, 20 and 84, and the struct is 148 bytes long. |
| BlpStructure.EncodedOffset | Source/AssetConverter/AssetConverter/Blp/BlpStructure.h:18 | Mip offset `k` is stored little-endian at byte 20 + 4k. |
| BlpStructure.EncodedSize | Source/AssetConverter/AssetConverter/Blp/BlpStructure.h:19 | Mip size `k` is stored little-endian at byte 84 + 4k. |
| BlpFormat.GetFormatTable | Submodules/AssetConverter/Source/AssetConverter/AssetConverter/Blp/BlpConvert.cpp:236-263 | Compression 1 is a palette and 3 is raw RGB. Compression 2 with alpha compression 0, 1, 7 or 11 is BC1, BC2, BC3 or BC5. Every other combination is unknown, in both directions. |
| BlpFormat.TargetFormatChoice | Submodules/AssetConverter/Source/AssetConverter/AssetConverter/Blp/BlpConvert.cpp:63-92 | BC1 targets BC1 with alpha exactly when the alpha depth is 1. BC2 and BC3 keep their format. Raw and palette images target BC3 when they have alpha and BC1 without alpha otherwise. |
| BlpFormat.MagicSignatureTest | Submodules/AssetConverter/Source/AssetConverter/AssetConverter/Blp/BlpConvert.cpp:45-47 | A file starting with the bytes "BLP2" reads as signature 0x32504C42, which differs from the `'BLP2'` literal, so the header test rejects it exactly when its version is not 1. |
| BlpConvert.FirstLayer | Submodules/AssetConverter/Source/AssetConverter/AssetConverter/Blp/BlpConvert.cpp:203-234 | Decoding the first layer fails with "Unable to determine format" for an unknown format and with "Unsupported format of BLP" for BC5. It fails for a palette image exactly when the alpha depth is unsupported. Otherwise it succeeds with width times height pixels. |
| BlpConvert.LoadFirstLayer | Submodules/AssetConverter/Source/AssetConverter/AssetConverter/Blp/BlpConvert.cpp:203-234 | The image array and status returned equal the first-layer specification for the header and stream. |
| BlpConvert.CompressedFirstLayer | Submodules/AssetConverter/Source/AssetConverter/AssetConverter/Blp/BlpConvert.cpp:225-228 | Decoding compressed blocks succeeds exactly for BC1, BC2 and BC3, and yields width times height pixels. |
| BlpConvert.LoadCompressed | Submodules/AssetConverter/Source/AssetConverter/AssetConverter/Blp/BlpConvert.cpp:225-228 | Reading the blocks from the first mip offset produces the compressed-layer specification. |
| BlpConvert.ConvertBlp | Submodules/AssetConverter/Source/AssetConverter/AssetConverter/Blp/BlpConvert.cpp:40-61 | Every input has an outcome, the specified one: no output when a guard returns, a failure message, the decoded pixels with their target format, or `Undefined` when the file is shorter than its header or first layer, or a 32-bit size wraps. |
| BlpConvert.ConvertOutcomeCases | Submodules/AssetConverter/Source/AssetConverter/AssetConverter/Blp/BlpConvert.cpp:40-92 | The outcome is `Undefined` exactly when a read would leave the buffer. Otherwise there is no output exactly when a guard returns early: the signature-and-version test, a BC5 format or an empty first mip. Decoded pixels number width times height and carry the chosen target format. The only failure messages are "Unable to determine format" and "Unsupported alpha depth". |
| BlpConvert.NoUnsupportedFormatFailure | Submodules/AssetConverter/Source/AssetConverter/AssetConverter/Blp/BlpConvert.cpp:50-61 | The "Unsupported format of BLP" failure is unreachable from a file, because GetFormat never yields RGBA and the BC5 guard returns before decoding. |
| BlpConvert.DecodesUnlessUnsupported | Submodules/AssetConverter/Source/AssetConverter/AssetConverter/Blp/BlpConvert.cpp:50-61 | A header that passes the guards decodes exactly when its format is raw, DXT1, DXT3 or DXT5, or a palette with alpha depth 0, 1, 4 or 8. |
| BlpConvert.PixelColor | Submodules/AssetConverter/Source/AssetConverter/AssetConverter/Blp/BlpConvert.cpp:102-109 | A pixel word splits into red, green, blue and alpha bytes that pack back to the same word. |
| BlpConvert.UncompressedColor | Submodules/AssetConverter/Source/AssetConverter/AssetConverter/Blp/BlpConvert.cpp:265-279 | After the byte swap, raw pixel `i` has the red, green, blue and alpha of file bytes 4i to 4i+3 in that order. |
| BlpUncompressed.SwapByteOrderBytes | Submodules/AssetConverter/Source/AssetConverter/AssetConverter/Blp/BlpConvert.cpp:584-592 | `SwapByteOrder` exchanges bytes 0 and 2 and keeps bytes 1 and 3. |
| BlpUncompressed.SwapByteOrderInvolution | Submodules/AssetConverter/Source/AssetConverter/AssetConverter/Blp/BlpConvert.cpp:584-592 | Swapping twice gives back the original word. |
| BlpUncompressed.SwapByteOrderAlpha | Submodules/AssetConverter/Source/AssetConverter/AssetConverter/Blp/BlpConvert.cpp:584-592 | The swap commutes with replacing the alpha byte. |
| BlpUncompressed.SwapAll | Submodules/AssetConverter/Source/AssetConverter/AssetConverter/Blp/BlpConvert.cpp:275-278 | The first `n` words are byte-swapped in place and the rest of the array is unchanged. |
| BlpUncompressed.ReadWords | Submodules/AssetConverter/Source/AssetConverter/AssetConverter/Blp/BlpConvert.cpp:271-272 | Word `i` read is the little-endian word at position + 4i, and the stream advances by 4n. |
| BlpUncompressed.ParseUncompressed | Submodules/AssetConverter/Source/AssetConverter/AssetConverter/Blp/BlpConvert.cpp:265-279 | The image is the swapped raw words of width times height pixels, and the stream advances past them. |
| BlpUncompressed.UncompressedPixelBytes | Submodules/AssetConverter/Source/AssetConverter/AssetConverter/Blp/BlpConvert.cpp:265-279 | Raw pixel `i` holds file byte 4i+2 in byte 0, 4i+1 in byte 1, 4i in byte 2 and 4i+3 in byte 3. |
| BlpPalette.ReadPalette | Submodules/AssetConverter/Source/AssetConverter/AssetConverter/Blp/BlpConvert.cpp:283-293 | The 256 palette words are read from just after the header, and the stream position is restored afterwards. |
| BlpPalette.AlphaLookup4Scale | Submodules/AssetConverter/Source/AssetConverter/AssetConverter/Blp/BlpConvert.cpp:22 | The 4-bit alpha table maps nibble `v` to 17v, so 0 is transparent and 15 is opaque. |
| BlpPalette.PixelAlphaRange | Submodules/AssetConverter/Source/AssetConverter/AssetConverter/Blp/BlpConvert.cpp:347-407 | Alpha depth 0 makes every pixel opaque, depth 1 gives only 0 or 255, and depth 4 gives a multiple of 17. |
| BlpPalette.PalettePixel | Submodules/AssetConverter/Source/AssetConverter/AssetConverter/Blp/BlpConvert.cpp:339-407 | Palette pixel `k` has the colour of the palette entry its index byte names and the alpha its alpha bits give. |
| BlpPalette.WithAlphaTwice | Submodules/AssetConverter/Source/AssetConverter/AssetConverter/Blp/BlpConvert.cpp:343-362 | Setting the alpha byte twice keeps only the second value, so the opaque pass followed by the alpha pass yields the alpha pass. |
| BlpPalette.DecompressPaletteFastPath | Submodules/AssetConverter/Source/AssetConverter/AssetConverter/Blp/BlpConvert.cpp:308-328 | The 8-bit-alpha fast path produces exactly the specified palette pixels. |
| BlpPalette.FastPathRow | Submodules/AssetConverter/Source/AssetConverter/AssetConverter/Blp/BlpConvert.cpp:319-326 | One row of the fast path extends the finished prefix by `width` pixels. |
| BlpPalette.DecompressPaletteARGB8 | Submodules/AssetConverter/Source/AssetConverter/AssetConverter/Blp/BlpConvert.cpp:331-408 | The call succeeds exactly for alpha depths 0, 1 and 4. On success the image is the specified palette pixels. On failure it reports "Unsupported alpha depth" and leaves the opaque palette colours. |
| BlpPalette.OpaqueThenAlpha | Submodules/AssetConverter/Source/AssetConverter/AssetConverter/Blp/BlpConvert.cpp:339-345 | Making every palette colour opaque and then applying the per-pixel alpha yields the specified pixels. |
| BlpPalette.ApplyAlpha1 | Submodules/AssetConverter/Source/AssetConverter/AssetConverter/Blp/BlpConvert.cpp:352-378 | Every pixel's alpha becomes 0 or 255 according to its bit in the 1-bit alpha block, and nothing else changes. |
| BlpPalette.AlphaBits | Submodules/AssetConverter/Source/AssetConverter/AssetConverter/Blp/BlpConvert.cpp:358-363 | The bits of one alpha byte set the alpha of up to eight consecutive pixels and change no other pixel. |
| BlpPalette.ApplyAlpha4 | Submodules/AssetConverter/Source/AssetConverter/AssetConverter/Blp/BlpConvert.cpp:380-403 | Every pixel's alpha becomes the 4-bit table entry of its nibble. |
| BlpPalette.Alpha4Byte | Submodules/AssetConverter/Source/AssetConverter/AssetConverter/Blp/BlpConvert.cpp:383-392 | One alpha byte sets the alpha of two pixels and leaves the unprocessed suffix untouched. |
| BlpPalette.Alpha4Pair | Submodules/AssetConverter/Source/AssetConverter/AssetConverter/Blp/BlpConvert.cpp:385-391 | The low nibble of alpha byte `i` gives pixel 2i and the high nibble gives pixel 2i+1. |
| BlpPalette.PaletteLayer | Submodules/AssetConverter/Source/AssetConverter/AssetConverter/Blp/BlpConvert.cpp:295-306 | A palette layer fails exactly when the alpha depth is unsupported, and otherwise has width times height pixels. |
| BlpPalette.ParseUncompressedPalette | Submodules/AssetConverter/Source/AssetConverter/AssetConverter/Blp/BlpConvert.cpp:281-306 | The image and status equal the palette-layer specification, and the stream advances by the layer's size. |
| DxtColors.Expand5 | Submodules/AssetConverter/Source/AssetConverter/AssetConverter/Blp/BlpConvert.cpp:26-32 | The 5-bit expansion keeps the channel in its top bits and maps 0 to 0 and 31 to 255. |
| DxtColors.Expand6 | Submodules/AssetConverter/Source/AssetConverter/AssetConverter/Blp/BlpConvert.cpp:26-32 | The 6-bit expansion keeps the channel in its top bits and maps 0 to 0 and 63 to 255. |
| DxtColors.Rgb565RoundTrip | Submodules/AssetConverter/Source/AssetConverter/AssetConverter/Blp/BlpConvert.cpp:24-37 | Expanding an RGB565 colour to 8 bits per channel and truncating back gives the original colour. |
| DxtColors.Rgb565ToRgb8Array | Submodules/AssetConverter/Source/AssetConverter/AssetConverter/Blp/BlpConvert.cpp:24-37 | The three expanded channels are written at the given offset and no other byte changes. |
| DxtColors.ColorWordBytes | Submodules/AssetConverter/Source/AssetConverter/AssetConverter/Blp/BlpConvert.h:19-31 | Colour word `k` of the 16-byte colour table holds bytes 4k to 4k+3, the aliasing the union provides. |
| DxtColors.PaletteEndpointsAndAlpha | Submodules/AssetConverter/Source/AssetConverter/AssetConverter/Blp/BlpConvert.cpp:548-582 | The first two entries are the two endpoint colours. The entries are opaque, except that the fourth is transparent in three-colour mode with premultiplied alpha. |
| DxtColors.BlendsBetweenEndpoints | Submodules/AssetConverter/Source/AssetConverter/AssetConverter/Blp/BlpConvert.cpp:561-575 | Every interpolated channel lies between the endpoint channels, except the black fourth entry of a three-colour block. |
| DxtColors.NewColors | Submodules/AssetConverter/Source/AssetConverter/AssetConverter/Blp/BlpConvert.h:21-24 | A fresh colour table holds four zero words. |
| DxtColors.ReadDxtColors | Submodules/AssetConverter/Source/AssetConverter/AssetConverter/Blp/BlpConvert.cpp:548-582 | Reading two RGB565 endpoints fills the table with the specified four-colour palette and advances the stream by 4. |
| DxtColors.BlendEntries | Submodules/AssetConverter/Source/AssetConverter/AssetConverter/Blp/BlpConvert.cpp:556-581 | Entries 2 and 3 are blended from entries 0 and 1 as the mode requires. |
| DxtBlocks.Dxt3AlphaNibble | Submodules/AssetConverter/Source/AssetConverter/AssetConverter/Blp/BlpConvert.cpp:484 | DXT3 alpha `i` is 17 times nibble `i` of the 64-bit alpha word. |
| DxtBlocks.WithAlphasPixel | Submodules/AssetConverter/Source/AssetConverter/AssetConverter/Blp/BlpConvert.cpp:494-495 | Attaching alphas keeps each pixel's colour bytes and replaces its alpha byte. |
| DxtBlocks.RampEntry | Submodules/AssetConverter/Source/AssetConverter/AssetConverter/Blp/BlpConvert.cpp:514-521 | Every interpolated entry of the DXT5 alpha ramp lies between the two endpoint alphas. |
| DxtBlocks.AlphaRampOrder | Submodules/AssetConverter/Source/AssetConverter/AssetConverter/Blp/BlpConvert.cpp:507-526 | The ramp starts with the two endpoints. With a0 > a1 the six blended steps descend. Otherwise four blended steps ascend, followed by 0 and 255. |
| DxtBlocks.AlphaRampExamples | Submodules/AssetConverter/Source/AssetConverter/AssetConverter/Blp/BlpConvert.cpp:507-526 | Concrete ramps are given for (255, 0) and (0, 255), with the truncating division visible. |
| DxtBlocks.Dxt1Pixel | Submodules/AssetConverter/Source/AssetConverter/AssetConverter/Blp/BlpConvert.cpp:465-476 | A DXT1 pixel is the palette entry its 2-bit selector picks. It is transparent exactly in three-colour mode with selector 3. |
| DxtBlocks.PaletteAlpha | Submodules/AssetConverter/Source/AssetConverter/AssetConverter/Blp/BlpConvert.cpp:556-580 | A palette entry is transparent exactly when it is entry 3 of a premultiplied three-colour palette. |
| DxtBlocks.ColorBlockVariants | Submodules/AssetConverter/Source/AssetConverter/AssetConverter/Blp/BlpConvert.cpp:488-561 | Premultiplication changes only alpha bytes. Forcing four colours equals premultiplied decoding when c0 > c1. |
| DxtBlocks.PremultipliedPalettePrefix | Submodules/AssetConverter/Source/AssetConverter/AssetConverter/Blp/BlpConvert.cpp:577-580 | The premultiplied and plain palettes agree everywhere but the last alpha byte. |
| DxtBlocks.Dxt3PixelColor | Submodules/AssetConverter/Source/AssetConverter/AssetConverter/Blp/BlpConvert.cpp:487-495 | A DXT3 pixel has the colour of the four-colour block decoding. |
| DxtBlocks.Dxt3PixelAlpha | Submodules/AssetConverter/Source/AssetConverter/AssetConverter/Blp/BlpConvert.cpp:480-495 | A DXT3 pixel's alpha is 17 times its explicit nibble. |
| DxtBlocks.Dxt5Pixel | Submodules/AssetConverter/Source/AssetConverter/AssetConverter/Blp/BlpConvert.cpp:499-545 | A DXT5 pixel has the colour of the plain block decoding and the ramp entry its 3-bit code selects. |
| DxtBlocks.Dxt1GetBlock | Submodules/AssetConverter/Source/AssetConverter/AssetConverter/Blp/BlpConvert.cpp:465-476 | Sixteen DXT1 pixels are decoded from the next 8 bytes into the block buffer, and nothing else in the buffer changes. |
| DxtBlocks.WriteColors | Submodules/AssetConverter/Source/AssetConverter/AssetConverter/Blp/BlpConvert.cpp:471-475 | Each of the 16 pixels gets the colour word its selector picks. |
| DxtBlocks.Dxt3GetBlock | Submodules/AssetConverter/Source/AssetConverter/AssetConverter/Blp/BlpConvert.cpp:478-497 | Sixteen DXT3 pixels are decoded from the next 16 bytes into the buffer, and nothing else changes. |
| DxtBlocks.Dxt3AlphaValues | Submodules/AssetConverter/Source/AssetConverter/AssetConverter/Blp/BlpConvert.cpp:480-485 | The sixteen expanded nibbles are returned in pixel order. |
| DxtBlocks.WriteColorsWithAlpha | Submodules/AssetConverter/Source/AssetConverter/AssetConverter/Blp/BlpConvert.cpp:490-496 | Each of the 16 pixels gets its selected colour with its own alpha. |
| DxtBlocks.AlphaValues | Submodules/AssetConverter/Source/AssetConverter/AssetConverter/Blp/BlpConvert.cpp:501-526 | The eight-entry DXT5 alpha ramp is returned. |
| DxtBlocks.AlphaLookup | Submodules/AssetConverter/Source/AssetConverter/AssetConverter/Blp/BlpConvert.cpp:528-534 | The sixteen 3-bit codes of the 48-bit lookup are returned in pixel order. |
| DxtBlocks.Dxt5GetBlock | Submodules/AssetConverter/Source/AssetConverter/AssetConverter/Blp/BlpConvert.cpp:499-546 | Sixteen DXT5 pixels are decoded from the next 16 bytes into the buffer, and nothing else changes. |
| DxtBlocks.WriteColorsWithRamp | Submodules/AssetConverter/Source/AssetConverter/AssetConverter/Blp/BlpConvert.cpp:539-545 | Each pixel gets its selected colour and the ramp alpha of its code. |
| DxtBlocks.GetDxtConvertFunction | Submodules/AssetConverter/Source/AssetConverter/AssetConverter/Blp/BlpConvert.cpp:454-463 | A decoder exists exactly for BC1, BC2 and BC3, and it decodes the format it was chosen for. Other formats fail with "Unrecognized dxt format". |
| DxtBlocks.DecoderForFormat | Submodules/AssetConverter/Source/AssetConverter/AssetConverter/Blp/BlpConvert.cpp:454-463 | Each decoder is the one chosen for its own format. |
| DxtBlocks.GetBlock | Submodules/AssetConverter/Source/AssetConverter/AssetConverter/Blp/BlpConvert.cpp:426 | Through the chosen decoding function, one block of the chosen kind is decoded into the buffer. |
| BlpCompressed.BlockDataEntry | Submodules/AssetConverter/Source/AssetConverter/AssetConverter/Blp/BlpConvert.cpp:421-427 | Entry `j` of block `b` in the block buffer is pixel `j` of block `b` decoded from its bytes. |
| BlpCompressed.BlockDataSlice | Submodules/AssetConverter/Source/AssetConverter/AssetConverter/Blp/BlpConvert.cpp:424-427 | Block `b`'s 16 entries are the decoding of its `BlockSize` bytes. |
| BlpCompressed.TileIndexBound | Submodules/AssetConverter/Source/AssetConverter/AssetConverter/Blp/BlpConvert.cpp:435-443 | The block-buffer index of every pixel inside the image lies inside the buffer. |
| BlpCompressed.TileIndexInjective | Submodules/AssetConverter/Source/AssetConverter/AssetConverter/Blp/BlpConvert.cpp:435-443 | Distinct pixels take distinct block-buffer entries. |
| BlpCompressed.PixelsFit | Submodules/AssetConverter/Source/AssetConverter/AssetConverter/Blp/BlpConvert.cpp:415-422 | The image never needs more entries than the rounded-up blocks provide. |
| BlpCompressed.WrappedBlockCounts | Submodules/AssetConverter/Source/AssetConverter/AssetConverter/Blp/BlpConvert.cpp:415-418 | When the block buffer fits in 32 bits, the source's wrapping `uint32_t` block count and buffer size equal the exact ones, including a width near 2^32 with height 0. |
| BlpCompressed.DecodeBlocks | Submodules/AssetConverter/Source/AssetConverter/AssetConverter/Blp/BlpConvert.cpp:421-427 | The loop decodes every block into the buffer in stream order. |
| BlpCompressed.DecodeNextBlock | Submodules/AssetConverter/Source/AssetConverter/AssetConverter/Blp/BlpConvert.cpp:426 | One more block extends the decoded prefix by 16 entries. |
| BlpCompressed.ReadBlock | Submodules/AssetConverter/Source/AssetConverter/AssetConverter/Blp/BlpConvert.cpp:426 | One block is decoded at the offset, and the entries before it are kept. |
| BlpCompressed.Untile | Submodules/AssetConverter/Source/AssetConverter/AssetConverter/Blp/BlpConvert.cpp:429-445 | Each image pixel is copied from its block-buffer entry. |
| BlpCompressed.UntileRow | Submodules/AssetConverter/Source/AssetConverter/AssetConverter/Blp/BlpConvert.cpp:433-444 | One image row extends the untiled prefix. |
| BlpCompressed.CompressedLayer | Submodules/AssetConverter/Source/AssetConverter/AssetConverter/Blp/BlpConvert.cpp:411-463 | A compressed layer fails exactly when the format has no block decoder. |
| BlpCompressed.ParseCompressed | Submodules/AssetConverter/Source/AssetConverter/AssetConverter/Blp/BlpConvert.cpp:411-452 | The image and status equal the compressed-layer specification, for every layer whose 32-bit block buffer size does not wrap. |
| BlpCompressedPixels.CompressedPixelAt | Submodules/AssetConverter/Source/AssetConverter/AssetConverter/Blp/BlpConvert.cpp:421-451 | Pixel (x, y) is entry ((y mod 4) * 4 + x mod 4) of the block at row y/4 and column x/4, byte-swapped. |
| BlpCompressedPixels.PixelBlock | Submodules/AssetConverter/Source/AssetConverter/AssetConverter/Blp/BlpConvert.cpp:435-443 | The tile index of pixel (x, y) is 16 times its block number plus its position inside the block. |
| ListFileFormat.ScanToSkips | Source/AssetConverter/AssetConverter/Casc/CascListFile.cpp:51-81 | The scan passes only characters that are not the delimiter it stops at. |
| ListFileFormat.ScanToFinds | Source/AssetConverter/AssetConverter/Casc/CascListFile.cpp:51-81 | The scan stops at the first delimiter, or at the end of the buffer. |
| ListFileFormat.DigitRunEnd | Source/AssetConverter/AssetConverter/Casc/CascListFile.cpp:62 | A run of digits is read up to the end of the id text. |
| ListFileFormat.StoiOfDecimal | Source/AssetConverter/AssetConverter/Casc/CascListFile.cpp:62 | `stoi` reads a written id back as its value. |
| ListFileFormat.PathText | Source/AssetConverter/AssetConverter/Casc/CascListFile.cpp:65-94 | The path is the text up to the first CR or LF. |
| ListFileFormat.RecordsHaveNoLineEnds | Source/AssetConverter/AssetConverter/Casc/CascListFile.cpp:65-94 | No parsed path contains CR or LF. |
| ListFileFormat.RecordsStep | Source/AssetConverter/AssetConverter/Casc/CascListFile.cpp:41-94 | The records from a position are the next record followed by the records after it. |
| ListFileFormat.RecordsCons | Source/AssetConverter/AssetConverter/Casc/CascListFile.cpp:41-94 | A record followed by a parsable rest makes the whole buffer parsable. |
| ListFileFormat.AssignKeys | Source/AssetConverter/AssetConverter/Casc/CascListFile.cpp:96-97 | The table's keys after the assignments are the old keys plus every record's key. |
| ListFileFormat.AssignLast | Source/AssetConverter/AssetConverter/Casc/CascListFile.cpp:96-97 | A key maps to the value of the last record that carries it. |
| ListFileFormat.AssignUntouched | Source/AssetConverter/AssetConverter/Casc/CascListFile.cpp:96-97 | Keys no record carries keep their old value. |
| ListFileFormat.KindBySuffix | Source/AssetConverter/AssetConverter/Casc/CascListFile.cpp:99-110 | A path is a model exactly when it ends in ".m2" or ".mdx", a map object when it ends in ".wmo", and a texture when it ends in ".blp". |
| ListFileFormat.KindsPartition | Source/AssetConverter/AssetConverter/Casc/CascListFile.cpp:99-110 | Every record lands in exactly one kind list, and an id is in a kind's list exactly when a record of that kind carries it. |
| ListFileFormat.IdsOfKindAppend | Source/AssetConverter/AssetConverter/Casc/CascListFile.cpp:99-110 | A new record appends its id to its own kind's list only. |
| ListFileFormat.LoadedAppend | Source/AssetConverter/AssetConverter/Casc/CascListFile.cpp:96-110 | Loading records one more at a time adds that record to all five tables. |
| ListFileRoundTrip.ParseSerialized | Source/AssetConverter/AssetConverter/Casc/CascListFile.cpp:29-111 | Parsing a list file written as `id;path` lines gives back exactly the records written. |
| ListFileRoundTrip.ParseLine | Source/AssetConverter/AssetConverter/Casc/CascListFile.cpp:41-94 | One written line parses to its own record and ends where the next line begins. |
| CascListFile.Bytebuffer.Get | Source/AssetConverter/AssetConverter/Casc/CascListFile.cpp:53 | `Get` yields the next character and advances exactly when one is left. |
| CascListFile.ReadFileId | Source/AssetConverter/AssetConverter/Casc/CascListFile.cpp:47-63 | The id is `stoi` of the text before ';', and the read position moves past the ';'. |
| CascListFile.ReadToLineEnd | Source/AssetConverter/AssetConverter/Casc/CascListFile.cpp:70-89 | The position moves past the path and at most one line-ending character. The count is 1 when a CR or LF was found. |
| CascListFile.ReadFilePath | Source/AssetConverter/AssetConverter/Casc/CascListFile.cpp:65-94 | The path text is returned, and the position moves past its line ending (CRLF, LF or CR). |
| CascListFile.ReadRecord | Source/AssetConverter/AssetConverter/Casc/CascListFile.cpp:43-94 | One record is read, and the remaining records are still parsable. |
| CascListFile.ListFile.AddRecord | Source/AssetConverter/AssetConverter/Casc/CascListFile.cpp:96-110 | The record is added to both maps and appended to the list of its kind. |
| CascListFile.ListFile.ParseListFile | Source/AssetConverter/AssetConverter/Casc/CascListFile.cpp:29-111 | The whole buffer is consumed, and the tables hold every parsed record. |
| CascListFile.ListFile.Initialize | Source/AssetConverter/AssetConverter/Casc/CascListFile.cpp:9-27 | The call succeeds exactly when the file exists and opens, and the tables then hold the parsed file. On failure nothing changes. |
| CascListFile.IdLookups | Source/AssetConverter/AssetConverter/Casc/CascListFile.h:16-17 | After loading, an id is known exactly when some record carries it, and it maps to the path of its last record. Ids no record carries keep their old lookups. |
| CascListFile.PathLookups | Source/AssetConverter/AssetConverter/Casc/CascListFile.h:19-20 | After loading, a path is known exactly when some record carries it, and it maps to the id of its last record. |
| CascListFile.NumEntriesLoaded | Source/AssetConverter/AssetConverter/Casc/CascListFile.h:25 | The entry count is the number of distinct ids, truncated to 32 bits. |
| CascLoader.LocaleRoundTrip | Submodules/AssetConverter/Source/AssetConverter/AssetConverter/Casc/CascLoader.cpp:12-52 | Each locale's name maps back to that locale. |
| CascLoader.EarlyLocaleRoundTrip | Submodules/AssetConverter/Source/AssetConverter/AssetConverter/Casc/CascLoader.cpp:12-31 | The same round trip holds for the first nine locales. |
| CascLoader.LateLocaleRoundTrip | Submodules/AssetConverter/Source/AssetConverter/AssetConverter/Casc/CascLoader.cpp:32-52 | The same round trip holds for the last nine locales. |
| CascLoader.GetLocaleFromString | Submodules/AssetConverter/Source/AssetConverter/AssetConverter/Casc/CascLoader.cpp:12-52 | A string chooses a locale other than NONE only when it is exactly that locale's name. |
| CascLoader.LocaleExact | Submodules/AssetConverter/Source/AssetConverter/AssetConverter/Casc/CascLoader.cpp:12-52 | A string maps to a real locale only when it is that locale's exact name, and every other string maps to NONE. |
| CascLoader.LocaleNamesDiffer | Submodules/AssetConverter/Source/AssetConverter/AssetConverter/Casc/CascLoader.cpp:12-52 | A non-empty string that maps to NONE is no locale's name. |
| CascLoader.LocaleNamesLowerCase | Submodules/AssetConverter/Source/AssetConverter/AssetConverter/Casc/CascLoader.cpp:12-52 | Locale names are already lower case, so lower-casing the configured locale loses none of them. |
| CascLoader.OpenArgs | Submodules/AssetConverter/Source/AssetConverter/AssetConverter/Casc/CascLoader.cpp:68-74 | The storage is opened from the current path with code name "wow_classic", region "eu" and the chosen locale. |
| CascLoader.ReadFile | Submodules/AssetConverter/Source/AssetConverter/AssetConverter/Casc/CascLoader.cpp:168-185 | A read succeeds exactly when the file is readable and long enough, and it delivers the file's first bytes. |
| CascLoader.GetFileByHandle | Submodules/AssetConverter/Source/AssetConverter/AssetConverter/Casc/CascLoader.cpp:161-175 | An invalid size gives nothing. A successful read delivers the file's first `size` bytes, with `writtenData` equal to the size. |
| CascLoader.GetFilePartialByHandle | Submodules/AssetConverter/Source/AssetConverter/AssetConverter/Casc/CascLoader.cpp:177-192 | A partial read delivers min(size, file size) bytes, as a prefix of the file. |
| CascLoader.PartialIsPrefix | Submodules/AssetConverter/Source/AssetConverter/AssetConverter/Casc/CascLoader.cpp:161-192 | When the whole read succeeds, the partial read succeeds too and is a prefix of it, and equals it when the requested size covers the file. |
| CascLoader.GetFileByID | Submodules/AssetConverter/Source/AssetConverter/AssetConverter/Casc/CascLoader.cpp:100-107 | A file is returned exactly when the id opens and reads, and it holds the file's bytes. |
| CascLoader.GetFilePartialByID | Submodules/AssetConverter/Source/AssetConverter/AssetConverter/Casc/CascLoader.cpp:109-116 | The partial file is a prefix of the content of at most `size` bytes, and a prefix of the whole read when that succeeds. |
| CascLoader.GetFileByPath | Submodules/AssetConverter/Source/AssetConverter/AssetConverter/Casc/CascLoader.cpp:118-125 | A file is returned exactly when the path opens and reads, and it holds the file's bytes. |
| CascLoader.GetFileByListFilePath | Submodules/AssetConverter/Source/AssetConverter/AssetConverter/Casc/CascLoader.cpp:127-131 | A listed path reads its list-file id, and an unlisted path reads id 0. |
| CascLoader.ReadableIffExists | Submodules/AssetConverter/Source/AssetConverter/AssetConverter/Casc/CascLoader.cpp:133-145 | A file that reads exists in the storage, and an existing file reads exactly when it is readable and its size fits its content. |
| CascLoader.FileExistsInCasc | Submodules/AssetConverter/Source/AssetConverter/AssetConverter/Casc/CascLoader.cpp:133-145 | A file that reads whole exists. An existing file is in the storage, and when it is readable a zero-byte partial read of it succeeds. |
| CascLoader.Loader.constructor | Source/AssetConverter-App/AssetConverter-App/Casc/CascLoader.h:22 | A new loader has no storage, an empty list file and the given locale. |
| CascLoader.Loader.Load | Submodules/AssetConverter/Source/AssetConverter/AssetConverter/Casc/CascLoader.cpp:54-88 | A second load reports AlreadyInitialized and changes nothing. Otherwise an unknown locale gives MissingLocale and a failed open gives MissingCasc. Storage opens for MissingListFile and Success. MissingListFile means the list file is absent or unreadable. Success loads every record of the list file. Once the open is attempted, the flag and printed lines are those the progress callbacks leave, followed by "Loading ListFile" after a successful open and the entry count after Success. |
| CascLoader.Loader.Close | Submodules/AssetConverter/Source/AssetConverter/AssetConverter/Casc/CascLoader.cpp:90-98 | Closing releases the storage and clears the index-loading flag only when storage was open. |
| CascLoader.Loader.LoadingCallback | Submodules/AssetConverter/Source/AssetConverter/AssetConverter/Casc/CascLoader.cpp:147-159 | The callback never stops the load. It reports the index-file stage once, while every other message is printed. |
| CascLoader.Loader.ReportProgress | Submodules/AssetConverter/Source/AssetConverter/AssetConverter/Casc/CascLoader.cpp:74-76 | CascLib calling the registered callback once per progress message leaves the flag and printed lines given by `AfterCallbacks`. |
| CascLoader.CallbacksFlag | Submodules/AssetConverter/Source/AssetConverter/AssetConverter/Casc/CascLoader.cpp:147-155 | After the callbacks the index-loading flag is up exactly when it was up before or some message began with "Loading index files". |
| CascLoader.CallbacksPrint | Submodules/AssetConverter/Source/AssetConverter/AssetConverter/Casc/CascLoader.cpp:147-159 | The callbacks only append lines, and every message not about index files is printed. "Loading index files" is printed exactly once if reported while the flag was down, and never if the flag was already up. |
| CascLoader.IndexLine | Submodules/AssetConverter/Source/AssetConverter/AssetConverter/Casc/CascLoader.cpp:149-158 | A printed line reports index-file loading exactly when its message does. |
| CascLoader.IdForPath | Source/AssetConverter-App/AssetConverter-App/Casc/CascLoader.h:42-48 | An unlisted path gives 0, and a listed path gives its list-file id. |
| CascLoader.IdForPathLoaded | Source/AssetConverter-App/AssetConverter-App/Casc/CascLoader.h:42-48 | After loading, a path no record names gives 0, and a path gives the id of its last record. |
| ClientDBExtractor.FixPathExtension | Source/AssetConverter-App/AssetConverter-App/Extractors/ClientDBExtractor.cpp:89-107 | ".mdx" and ".m2" become ".complexmodel". ".blp" becomes ".dds" and the whole path is lower-cased. Any other path is kept. |
| ClientDBExtractor.LastCharDecides | Source/AssetConverter-App/AssetConverter-App/Extractors/ClientDBExtractor.cpp:89-107 | A string whose last character differs from a suffix's last character does not end with that suffix. |
| ClientDBExtractor.FixedHasNoConvertedSuffix | Source/AssetConverter-App/AssetConverter-App/Extractors/ClientDBExtractor.cpp:89-107 | A fixed path never ends in ".mdx", ".m2" or ".blp". |
| ClientDBExtractor.FixPathExtensionIdempotent | Source/AssetConverter-App/AssetConverter-App/Extractors/ClientDBExtractor.cpp:89-107 | Fixing a path twice is the same as fixing it once. |
| ClientDBExtractor.RecordString | Source/AssetConverter-App/AssetConverter-App/Extractors/ClientDBExtractor.cpp:109-128 | A record string has no backslash, and it agrees with the fixed path except that backslashes become slashes. |
| ClientDBExtractor.RecordStringIdempotent | Source/AssetConverter-App/AssetConverter-App/Extractors/ClientDBExtractor.cpp:109-128 | Cleaning a record string twice is the same as cleaning it once. |
| ClientDBExtractor.GetFilePathForDB2ByName | Source/AssetConverter-App/AssetConverter-App/Extractors/ClientDBExtractor.cpp:156-162 | A table's path is "dbfilesclient/" followed by the lower-cased name and ".db2". |
| ClientDBExtractor.DB2PathsDiffer | Source/AssetConverter-App/AssetConverter-App/Extractors/ClientDBExtractor.cpp:156-162 | Two names give the same DB2 path exactly when they agree ignoring case. |
| ClientDBExtractor.WdtPath | Source/AssetConverter-App/AssetConverter-App/Extractors/ClientDBExtractor.cpp:299-301 | A map's WDT path is "world/maps/<name>/<name>.wdt", lower-cased. |
| ClientDBExtractor.WdtPathsDiffer | Source/AssetConverter-App/AssetConverter-App/Extractors/ClientDBExtractor.cpp:299-301 | Two maps share a WDT path exactly when their names agree ignoring case. |
| ClientDBExtractor.HasWdtFileLoaded | Source/AssetConverter-App/AssetConverter-App/Extractors/ClientDBExtractor.cpp:299-305 | A map has a WDT file exactly when the last list-file record with its path has a non-zero id that exists in the storage. |
| ClientDBExtractor.HasWdtFile | Source/AssetConverter-App/AssetConverter-App/Extractors/ClientDBExtractor.cpp:299-305 | A map has a WDT file only when its WDT path is in the list file. |
| ClientDBExtractor.LastRecordLookup | Source/AssetConverter-App/AssetConverter-App/Extractors/ClientDBExtractor.cpp:303 | The path of the last record naming it looks up that record's id, and that id is listed. |
| ClientDBExtractor.LastIndexUnique | Source/AssetConverter-App/AssetConverter-App/Extractors/ClientDBExtractor.cpp:303 | Only one record is the last with a given path. |
| ClientDBExtractor.LastIndexWithPath | Source/AssetConverter-App/AssetConverter-App/Extractors/ClientDBExtractor.cpp:303 | Every listed path has a last record. |
| ClientDBExtractor.RemapComponentSection | Source/AssetConverter-App/AssetConverter-App/Extractors/ClientDBExtractor.cpp:850-912 | The ten client sections are renumbered to 1 to 10, and every other section becomes 255. |
| ClientDBExtractor.ClientComponentSection | Source/AssetConverter-App/AssetConverter-App/Extractors/ClientDBExtractor.cpp:850-912 | The inverse table recovers a client section from every number from 1 to 10. |
| ClientDBExtractor.ComponentSectionRoundTrip | Source/AssetConverter-App/AssetConverter-App/Extractors/ClientDBExtractor.cpp:850-912 | Remapping is a bijection between the ten client sections and 1 to 10. |
| ClientDBExtractor.AnimationFlags | Source/AssetConverter-App/AssetConverter-App/Extractors/ClientDBExtractor.cpp:611-612 | The 64-bit flags hold the first field word in the low half and the second in the high half. |
| ClientDBExtractor.WordHalves | Source/AssetConverter-App/AssetConverter-App/Extractors/ClientDBExtractor.cpp:612 | Two 32-bit halves combine without overflow and can be split back. |
| ClientDBExtractor.AnimationFlagsSplit | Source/AssetConverter-App/AssetConverter-App/Extractors/ClientDBExtractor.cpp:611-612 | Every 64-bit flag value is the combination of its two halves. |
| ClientDBExtractor.Timestamp | Source/AssetConverter-App/AssetConverter-App/Extractors/ClientDBExtractor.cpp:1166-1168 | A light timestamp is the stored value times 30. |
| ClientDBExtractor.TimestampMonotonic | Source/AssetConverter-App/AssetConverter-App/Extractors/ClientDBExtractor.cpp:1166-1168 | Scaling preserves the order of timestamps. |
| ClientDBExtractor.Gender | Source/AssetConverter-App/AssetConverter-App/Extractors/ClientDBExtractor.cpp:790 | The stored signed byte is shifted up by one. |
| ClientDBExtractor.LightParamFlags | Source/AssetConverter-App/AssetConverter-App/Extractors/ClientDBExtractor.cpp:1121 | The flags are always 1, the code as written. |
| ClientDBExtractor.LightParamFlagsIgnoresSky | Source/AssetConverter-App/AssetConverter-App/Extractors/ClientDBExtractor.cpp:1121 | Even without sky highlighting, bit 0 is set. |
| ClientDBExtractor.LightParamFlagsCorrected | Source/AssetConverter-App/AssetConverter-App/Extractors/ClientDBExtractor.cpp:1120-1121 | Bit 0 is set exactly when the sky is highlighted, and no other bit is set. |
| ClientDBExtractor.SkyboxName | Source/AssetConverter-App/AssetConverter-App/Extractors/ClientDBExtractor.cpp:1238-1239 | The skybox name is the cleaned record string, lower-cased and free of backslashes. |
| ClientDBExtractor.SkyboxModelPath | Source/AssetConverter-App/AssetConverter-App/Extractors/ClientDBExtractor.cpp:1241-1259 | Flag 0x2 with no file id gives an empty path. No file id gives the name. A listed and existing id gives its list path with extension ".complexmodel", and an unknown id gives an empty path. |
| ClientDBExtractor.SkyboxModelWithoutExtension | Source/AssetConverter-App/AssetConverter-App/Extractors/ClientDBExtractor.cpp:1255 | The model path, without its extension, is the list path without its extension. |
| ClientDBExtractor.SkyboxShortName | Source/AssetConverter-App/AssetConverter-App/Extractors/ClientDBExtractor.cpp:1262 | The short name is the file name up to its extension, without directories. |
| ClientDBExtractor.ShortNameOfFile | Source/AssetConverter-App/AssetConverter-App/Extractors/ClientDBExtractor.cpp:1262 | "dir/stem.ext" gives "stem". |
| ClientDBExtractor.FileNameAfterDirectory | Source/AssetConverter-App/AssetConverter-App/Extractors/ClientDBExtractor.cpp:1262 | The file name of a directory followed by a plain name is that name. |
| ClientDBExtractor.NoDirectory | Source/AssetConverter-App/AssetConverter-App/Extractors/ClientDBExtractor.cpp:1262 | A plain name has no directory part. |
| FsPath.DirLength | Source/AssetConverter-App/AssetConverter-App/Extractors/ClientDBExtractor.cpp:1255-1262 | The directory part ends with '/' whenever it is non-empty. |
| FsPath.FileName | Source/AssetConverter-App/AssetConverter-App/Extractors/ClientDBExtractor.cpp:1262 | The file name contains no '/'. |
| FsPath.LastDot | Source/AssetConverter-App/AssetConverter-App/Extractors/ClientDBExtractor.cpp:1255-1262 | The last '.' of a name is found, or there is none. |
| FsPath.ExtensionStart | Source/AssetConverter-App/AssetConverter-App/Extractors/ClientDBExtractor.cpp:1255-1262 | The extension starts at a '.' that is not the first character, and "." and ".." have none. |
| FsPath.WithoutExtension | Source/AssetConverter-App/AssetConverter-App/Extractors/ClientDBExtractor.cpp:1255-1262 | The path without its extension is a prefix of the path that keeps its directory. |
| FsPath.ReplaceExtension | Source/AssetConverter-App/AssetConverter-App/Extractors/ClientDBExtractor.cpp:1255-1262 | `replace_extension` gives the path without its extension followed by the new extension, adding a '.' when it is missing, or just the path without its extension for an empty extension. |
| FsPath.ReplaceExtensionIdempotent | Source/AssetConverter-App/AssetConverter-App/Extractors/ClientDBExtractor.cpp:1255 | Replacing an extension twice is the same as replacing it once. |
| FsPath.WithoutExtensionOfReplaced | Source/AssetConverter-App/AssetConverter-App/Extractors/ClientDBExtractor.cpp:1255 | Removing the extension after replacing it gives the path without its original extension. |
| FsPath.WithoutExtensionThenExtension | Source/AssetConverter-App/AssetConverter-App/Extractors/ClientDBExtractor.cpp:1255 | Replacing the extension keeps the directory and changes only the file name's extension. |
| FsPath.ExtensionAfterStem | Source/AssetConverter-App/AssetConverter-App/Extractors/ClientDBExtractor.cpp:1255 | The new extension starts right after the stem. |
| FsPath.LastDotOfDotFirst | Source/AssetConverter-App/AssetConverter-App/Extractors/ClientDBExtractor.cpp:1255 | An extension with a single leading '.' has its last dot at index 0. |
| Strings.Lower | Source/AssetConverter-App/AssetConverter-App/Extractors/ClientDBExtractor.cpp:1239 | `tolower` changes only 'A' to 'Z', each to its lower-case letter. |
| Strings.Lowercase | Source/AssetConverter-App/AssetConverter-App/Extractors/ClientDBExtractor.cpp:105-159 | Lower-casing is per character and keeps the length. |
| Strings.LowercaseIdempotent | Source/AssetConverter-App/AssetConverter-App/Extractors/ClientDBExtractor.cpp:159 | Lower-casing twice is the same as lower-casing once. |
| Strings.LowercaseConcat | Source/AssetConverter-App/AssetConverter-App/Extractors/ClientDBExtractor.cpp:159 | Lower-casing distributes over concatenation. |
| Strings.Replace | Source/AssetConverter-App/AssetConverter-App/Extractors/ClientDBExtractor.cpp:115 | `std::replace` swaps exactly the matching characters. |
| Strings.ReplaceRemoves | Source/AssetConverter-App/AssetConverter-App/Extractors/ClientDBExtractor.cpp:115 | No replaced character remains. |
| Strings.ReplaceAbsent | Source/AssetConverter-App/AssetConverter-App/Extractors/ClientDBExtractor.cpp:115 | A string without the character is unchanged. |
| Strings.ReplaceKeepsSuffix | Source/AssetConverter-App/AssetConverter-App/Extractors/MapExtractor.cpp:316 | Replacement keeps a suffix that involves neither character. |
| Strings.LowercaseKeepsSuffix | Source/AssetConverter-App/AssetConverter-App/Extractors/MapExtractor.cpp:315 | A string ending with a lower-case suffix still ends with it after lower-casing (one direction only). |
| Strings.EndsWithConcat | Source/AssetConverter/AssetConverter/Casc/CascListFile.cpp:99-110 | A string followed by a suffix ends with that suffix. |
| MapChunk.ChunkGridPosition | Source/AssetConverter-App/AssetConverter-App/Extractors/MapExtractor.cpp:153-154 | The chunk's column is its id modulo 64 and its row is the quotient. |
| MapChunk.ChunkIdAt | Source/AssetConverter-App/AssetConverter-App/Extractors/MapExtractor.cpp:153-154 | Row and column inside the 64 by 64 grid give an id below 4096. |
| MapChunk.ChunkGridRoundTrip | Source/AssetConverter-App/AssetConverter-App/Extractors/MapExtractor.cpp:153-154 | Grid position and chunk id are inverse on the 64 by 64 grid. |
| MapChunk.AsI16 | Source/AssetConverter-App/AssetConverter-App/Extractors/MapExtractor.cpp:202-211 | The liquid type is the same 16 bits read as a signed number. |
| MapChunk.ResolveVertexFormat | Source/AssetConverter-App/AssetConverter-App/Extractors/MapExtractor.cpp:192-226 | Formats below 42 stay. Liquid type 2 gives format 2. Any other change comes from the material tables or is format 2. |
| MapChunk.PostProcessLiquid | Source/AssetConverter-App/AssetConverter-App/Extractors/MapExtractor.cpp:192-244 | A liquid without vertex data, other than type 2, gets format 2. Others get the resolved format. Format 2 forces an 8 by 8 liquid at offset 0 with no vertex data. |
| MapChunk.PostProcessLiquidIdempotent | Source/AssetConverter-App/AssetConverter-App/Extractors/MapExtractor.cpp:192-244 | Once the format is resolved, post-processing again changes nothing. |
| MapChunk.PostProcessLiquids | Source/AssetConverter-App/AssetConverter-App/Extractors/MapExtractor.cpp:188-245 | Every liquid instance of the chunk is post-processed in place. |
| MapChunk.PlacementNameHash | Source/AssetConverter-App/AssetConverter-App/Extractors/MapExtractor.cpp:259-275 | Ids 0 and 0xFFFFFFFF and unknown ids keep their value. A listed and existing id becomes the hash of its path with extension ".complexmodel". |
| MapChunk.PostProcessPlacements | Source/AssetConverter-App/AssetConverter-App/Extractors/MapExtractor.cpp:257-276 | Every placement's name hash is rewritten in place. |
| MapChunk.BlendMapPath | Source/AssetConverter-App/AssetConverter-App/Extractors/MapExtractor.cpp:380 | The blend map is a ".dds" file whose path begins with "blendmaps/<map>/<map>_". |
| MapChunk.BlendMapPathsDiffer | Source/AssetConverter-App/AssetConverter-App/Extractors/MapExtractor.cpp:380 | Distinct chunk positions give distinct blend-map paths. |
| MapChunk.ChunkAlphaMapTextureHash | Source/AssetConverter-App/AssetConverter-App/Extractors/MapExtractor.cpp:380-381 | The chunk's alpha-map hash is the hash of its blend-map path when an alpha map is set, and 0xFFFFFFFF otherwise. |
| MapAlphaMaps.TextureKey | Source/AssetConverter-App/AssetConverter-App/Extractors/MapExtractor.cpp:312-316 | A texture key ends in ".dds", has no backslash and no upper-case letter. |
| MapAlphaMaps.KeySuffix | Source/AssetConverter-App/AssetConverter-App/Extractors/MapExtractor.cpp:315-316 | Lower-casing and slash replacement keep the ".dds" suffix. |
| MapAlphaMaps.LayerTextureId | Source/AssetConverter-App/AssetConverter-App/Extractors/MapExtractor.cpp:301-319 | A texture id other than 0 and 0xFFFFFFFF whose list-file path is non-empty becomes the hash of its key. 0 stays 0, and every other id becomes 0xFFFFFFFF. |
| MapAlphaMaps.LayerChannel | Source/AssetConverter-App/AssetConverter-App/Extractors/MapExtractor.cpp:279-324 | Layers 1 to 3 write channels 2, 1 and 0. |
| MapAlphaMaps.PixelOf | Source/AssetConverter-App/AssetConverter-App/Extractors/MapExtractor.cpp:297-328 | The byte index of a cell maps to its pixel. |
| MapAlphaMaps.PixelIndex | Source/AssetConverter-App/AssetConverter-App/Extractors/MapExtractor.cpp:297-328 | A pixel's byte in a cell's channel is the unique index of that channel and pixel. |
| MapAlphaMaps.WriteLayerAlpha | Source/AssetConverter-App/AssetConverter-App/Extractors/MapExtractor.cpp:322-335 | The layer's alpha fills its channel of the cell, and no other byte changes. The result is true exactly when some alpha is non-zero. |
| MapAlphaMaps.PackLayer | Source/AssetConverter-App/AssetConverter-App/Extractors/MapExtractor.cpp:299-336 | One layer rewrites its texture id. Layers above 0 with a non-empty path write their alpha into their channel; other layers leave the buffer unchanged. |
| MapAlphaMaps.PackCell | Source/AssetConverter-App/AssetConverter-App/Extractors/MapExtractor.cpp:292-336 | All four layers of a cell are processed. The cell's bytes and its alpha-set flag match the specification. |
| MapAlphaMaps.PackAlphaMaps | Source/AssetConverter-App/AssetConverter-App/Extractors/MapExtractor.cpp:284-336 | All cells are processed on a zeroed or kept buffer. The ids, bytes and alpha-map flag match the specification. |
| MapAlphaMaps.PackedLayerByte | Source/AssetConverter-App/AssetConverter-App/Extractors/MapExtractor.cpp:279-336 | The byte of layer `l`, cell `i` and pixel `p` holds that layer's alpha when the layer is listed, and the starting byte otherwise. |
| MapAlphaMaps.AlphaChannelKept | Source/AssetConverter-App/AssetConverter-App/Extractors/MapExtractor.cpp:279-336 | The fourth channel is never written. |
| MapAlphaMaps.AlphaMapSetIffNonZero | Source/AssetConverter-App/AssetConverter-App/Extractors/MapExtractor.cpp:279-336 | The chunk's alpha map is set exactly when some listed layer wrote a non-zero byte. |
| MapTriangles.IsHoleVertex | Source/AssetConverter-App/AssetConverter-App/Extractors/MapExtractor.cpp:413-422 | Outer vertices are never holes, and with no hole bits nothing is a hole. |
| MapTriangles.BuildTriangleList | Source/AssetConverter-App/AssetConverter-App/Extractors/MapExtractor.cpp:424-478 | The triangle list is every cell's triangles in order. |
| MapTriangles.EmitCellTriangles | Source/AssetConverter-App/AssetConverter-App/Extractors/MapExtractor.cpp:437-478 | A cell appends its triangles whose centre is not a hole. |
| MapTriangles.FillPatchVertexIds | Source/AssetConverter-App/AssetConverter-App/Extractors/MapExtractor.cpp:449-462 | The five ids of a patch are its four corners and its centre. |
| MapTriangles.CellTrianglesMembers | Source/AssetConverter-App/AssetConverter-App/Extractors/MapExtractor.cpp:437-477 | A triangle is in a cell's list exactly when some non-hole triangle of that cell is it. |
| MapTriangles.ChunkTrianglesMembers | Source/AssetConverter-App/AssetConverter-App/Extractors/MapExtractor.cpp:437-477 | A triangle is in the chunk's list exactly when some cell emitted it. |
| MapTriangles.ChunkTrianglesCount | Source/AssetConverter-App/AssetConverter-App/Extractors/MapExtractor.cpp:437-477 | The list has at most 256 triangles per cell. |
| MapTriangles.NoHolesAllTriangles | Source/AssetConverter-App/AssetConverter-App/Extractors/MapExtractor.cpp:437-477 | Without holes, every cell emits all of its triangles. |
| MapTriangles.StandardCorners | Source/AssetConverter-App/AssetConverter-App/Extractors/MapExtractor.cpp:440-462 | In the 17-wide layout a patch's corners are outer vertices around its centre vertex, inside the 145 vertices of the cell. |
| MapTriangles.HoleOfPatchCentre | Source/AssetConverter-App/AssetConverter-App/Extractors/MapExtractor.cpp:413-475 | A patch centre is a hole exactly when the patch's bit of the hole mask is set. |
| MapTriangles.StandardTriangleInCell | Source/AssetConverter-App/AssetConverter-App/Extractors/MapExtractor.cpp:468-470 | Every triangle's vertices lie in its own cell's block of 145. |
| MapTriangles.StandardTriangleBounds | Source/AssetConverter-App/AssetConverter-App/Extractors/MapExtractor.cpp:424-477 | Every triangle indexes the chunk's vertex list. |
| MapTriangles.StandardTrianglesAvoidHoles | Source/AssetConverter-App/AssetConverter-App/Extractors/MapExtractor.cpp:424-477 | No emitted triangle belongs to a hole patch. |

## Left out

- ConvertBLP after decoding (the cuttlefish image creation, mip generation, compression and the DDS write), `ConvertRaw`, `GetInputFormat` and `GetOutputFormat` (Submodules/AssetConverter/Source/AssetConverter/AssetConverter/Blp/BlpConvert.cpp:94-201). They involve floating point and library calls. The model stops at the decoded RGBA pixels and the chosen target format. The one exception is the split of a pixel word into its four channels (lines 102-109), which `BlpConvert.PixelColor` models without the division by 255.
- BlpConvert.ConvertBlp: the source reads the header and the first layer with no length check, and the stream class is not part of this model. A file shorter than what is read, or a layer whose 32-bit sizes wrap, has no defined behaviour in C++. The model gives such input the outcome `Undefined` rather than a guessed result, and its readers (`LoadFirstLayer`, `FirstLayer` and the layer readers) require the reads to stay in the buffer.
- BlpCompressed.ParseCompressed: the source computes `w + 3u`, `h + 3u`, the block count and `numBlocks * 16u` in unchecked `uint32_t`. `BlockArithmeticFits` requires the block buffer size to fit in 32 bits. `WrappedBlockCounts` shows that the wrapping counts then equal the exact ones. When the size wraps and the layer has pixels, the source indexes its vectors out of range, and `ConvertBlp` reports `Undefined`.
- CascLib and the file system are parameters:
  - the storage maps ids and names to files;
  - `CascOpenStorageEx` is a function from the open arguments to success, and the progress messages it reports to `LoadingCallback` while it opens are the parameter `progress`;
  - `std::filesystem::exists` and the file reader are booleans and the file's contents.

  The storage handle that `Load` opens is tracked as a flag only. The reads take the storage as a value.
- ByteStream and Bytebuffer are not part of this model. `ByteStreams.ByteStream` and `CascListFile.Bytebuffer` are minimal stand-ins with a data sequence and a read position.
- Logging, thread pools and the physics-shape export are left out.
- The map extractor's old alpha-map conversion (Source/AssetConverter-App/AssetConverter-App/Extractors/MapExtractor.cpp:338-377) and the vertex position and normal computation are left out. The triangle list is modelled; the vertex buffer is not.
- The DB2 parser and the `Extract*` record loops are left out, because they are outside the core. The per-record computations they perform are modelled as functions of the field values.
- The duplicate copies of these files in the repository are not modelled separately:
  - The `Source/AssetConverter` `FixPathExtension` is the same.
  - The `Submodules` copy has no empty-path guard and writes ".complexmodel" as a literal. An empty path ends with none of the suffixes, so the guard changes nothing.
  - The older map extractor emits triangles without a hole test.
- The terrain constants are a `Layout` parameter. The 17-wide row, the 9 outer vertices, the 145 vertices and the 256 triangles per cell are `MapTriangles.Standard`.
- MapTriangles.IsHoleVertex: a shift of 64 or more is undefined in C++. The model reads such a shift as a clear bit, and no standard patch reaches it.
- MapTriangles.BuildTriangleList: vertex ids are unbounded naturals with no 32-bit wrap. `StandardTriangleBounds` shows they stay below 145 per cell.
- MapChunk.PlacementNameHash and MapAlphaMaps.LayerTextureId: `fnv1a_32` is a function parameter `hash`, so no property of the hash itself is claimed.
- MapAlphaMaps.PackAlphaMaps: `_idToPath.at(id)` throws for an id missing from the table. `KnownTextureId` requires the id to be listed or 0 instead of modelling the exception.
- ClientDBExtractor.FixPathExtension: the in/out reference argument is modelled as a returned value.
- FsPath: paths are split only at `'/'`. On Windows, `std::filesystem::path` also splits at `'\\'`, so there a path with backslashes in it can have a different directory, file name and extension than the model gives.
- ListFileFormat.PathBlockEnd: on the last record, the peek after the path may read the byte just past the buffer. That byte is the parameter `pastEnd`, and `PeekSafe` requires it not to be CR or LF.
- ListFileFormat.RecordParsable: `std::stoi` throws on text with no digits or out of range. The model requires the id text to convert instead of modelling the exception.
- BlpPalette.DecompressPaletteFastPath: the source's `u32` pixel counter needs width times height below 2^32, and this is required. With more pixels the counter passes the wrapped size of the pixel vector and writes out of range, which `ConvertBlp` reports as `Undefined`.
- BlpFormat.MagicSignatureTest: the header check compares the signature with the multi-character literal `'BLP2'` (0x424C5032). A real file's signature reads as 0x32504C42 on a little-endian host, so in effect only the version is checked. The model follows the code.
- The code is followed where it departs from the intended format behaviour:
  - palette alpha depth 0 yields opaque pixels;
  - the DXT5 alpha ramp uses truncating integer division (see `AlphaRampExamples`);
  - the DXT5 colour block is decoded without forcing four colours.
- ClientDBExtractor.Gender: the result is an `int` from -127 to 128, because the destination field's width is not shown.
- `CascLoader.Loader` predicates (`ListFileContainsID`, `ListFileContainsPath`, `InCascAndListFile`, `GetFilePathFromListFileID`, `GetFileIDFromListFilePath`) are one-line definitions over the list-file tables. Their behaviour is stated by `IdLookups`, `PathLookups` and `IdForPath`.
- The CascLib locale constants' numeric values are not shown, so `CascLoader.Locale` is an enumeration.

## Findings

| source | as written | input that shows it | evidently intended | confidence | as-written member | corrected member |
|---|---|---|---|---|---|---|
| Source/AssetConverter-App/AssetConverter-App/Extractors/ClientDBExtractor.cpp:1121 | `lightParam.flags = 1 << 0 * highlightSky;` parses as `1 << (0 * highlightSky)`, so the flags are always 1 | `highlightSky == false` gives flags 1 (bit 0 set) | bit 0 set only when the sky is highlighted: `highlightSky << 0` | not executed | ClientDBExtractor.LightParamFlags, ClientDBExtractor.LightParamFlagsIgnoresSky | ClientDBExtractor.LightParamFlagsCorrected |
