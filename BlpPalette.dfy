/** The reader of palettised (compression 1) BLP layers: a 256-entry colour
    palette stored right after the header, one palette index per pixel, then
    the alpha plane packed at 0, 1, 4 or 8 bits per pixel. */
module BlpPalette {
  import opened Bytes
  import opened Wrappers
  import opened ByteStreams
  import opened BlpStructure
  import opened BlpUncompressed
  import opened Arith

  const PaletteSize: nat := 256

  /** The palette words as stored, at `sizeof(BlpHeader)`, each byte-swapped. */
  function Palette(data: seq<u8>): (palette: seq<u32>)
    requires HeaderSize + 4 * PaletteSize <= |data|
    ensures |palette| == PaletteSize
  {
    UncompressedPixels(data, HeaderSize, PaletteSize)
  }

  /** `alphaLookup1` */
  const AlphaLookup1: seq<u8> := [0x00, 0xFF]

  /** `alphaLookup4` */
  const AlphaLookup4: seq<u8> :=
    [0x00, 0x11, 0x22, 0x33, 0x44, 0x55, 0x66, 0x77, 0x88, 0x99, 0xAA, 0xBB, 0xCC, 0xDD, 0xEE, 0xFF]

  /** The 4-bit table scales a nibble to a byte: entry `v` is `17 * v`, so 0
      is transparent and 15 opaque. */
  lemma AlphaLookup4Scale(v: nat)
    requires v < 16
    ensures AlphaLookup4[v] == 17 * v
  {
  }

  /** The alpha depths the decoder handles. */
  predicate SupportedAlphaDepth(alphaDepth: u8)
  {
    alphaDepth in {0, 1, 4, 8}
  }

  /** The index bytes the decoder reads for `n` pixels: the `n` colour indices,
      then the alpha plane, whose last byte may be partly used. An unsupported
      depth still reads the colour indices before it throws. */
  function IndexBytes(alphaDepth: u8, n: nat): nat
  {
    if alphaDepth == 1 then n + (n + 7) / 8
    else if alphaDepth == 4 then n + (n + 1) / 2
    else if alphaDepth == 8 then 2 * n
    else n
  }

  /** The alpha of pixel `k`: opaque at depth 0; at depth 1, bit `k % 8` of
      alpha byte `k / 8`; at depth 4, the low nibble of alpha byte `k / 2` for
      even `k` and the high nibble for odd `k`; at depth 8, alpha byte `k`. */
  function PixelAlpha(alphaDepth: u8, indices: seq<u8>, n: nat, k: nat): (a: u8)
    requires SupportedAlphaDepth(alphaDepth) && k < n && IndexBytes(alphaDepth, n) <= |indices|
  {
    if alphaDepth == 0 then 0xFF
    else if alphaDepth == 1 then AlphaLookup1[Bits(indices[n + k / 8], k % 8, 1)]
    else if alphaDepth == 4 then
      (var value := indices[n + k / 2];
       if k % 2 == 0 then AlphaLookup4[value % 16] else AlphaLookup4[value / 16])
    else indices[n + k]
  }

  /** Every depth's alpha stays within its depth's resolution. */
  lemma PixelAlphaRange(alphaDepth: u8, indices: seq<u8>, n: nat, k: nat)
    requires SupportedAlphaDepth(alphaDepth) && k < n && IndexBytes(alphaDepth, n) <= |indices|
    ensures alphaDepth == 0 ==> PixelAlpha(alphaDepth, indices, n, k) == 0xFF
    ensures alphaDepth == 1 ==> PixelAlpha(alphaDepth, indices, n, k) in {0x00, 0xFF}
    ensures alphaDepth == 4 ==> PixelAlpha(alphaDepth, indices, n, k) % 17 == 0
  {
    if alphaDepth == 4 {
      var value := indices[n + k / 2];
      AlphaLookup4Scale(if k % 2 == 0 then value % 16 else value / 16);
    }
  }

  /** A palettised layer: pixel `k` is the palette colour its index names, with
      its alpha byte replaced by the pixel's alpha. */
  function PalettePixels(palette: seq<u32>, indices: seq<u8>, n: nat, alphaDepth: u8): (pixels: seq<u32>)
    requires |palette| == PaletteSize
    requires SupportedAlphaDepth(alphaDepth) && IndexBytes(alphaDepth, n) <= |indices|
    ensures |pixels| == n
  {
    seq(n, k requires 0 <= k < n => WithAlpha(palette[indices[k]], PixelAlpha(alphaDepth, indices, n, k)))
  }

  /** Each pixel keeps its palette colour's low 24 bits and carries its own alpha. */
  lemma PalettePixel(palette: seq<u32>, indices: seq<u8>, n: nat, alphaDepth: u8, k: nat)
    requires |palette| == PaletteSize
    requires SupportedAlphaDepth(alphaDepth) && IndexBytes(alphaDepth, n) <= |indices| && k < n
    ensures PalettePixels(palette, indices, n, alphaDepth)[k] % 0x100_0000 == palette[indices[k]] % 0x100_0000
    ensures PalettePixels(palette, indices, n, alphaDepth)[k] / 0x100_0000 == PixelAlpha(alphaDepth, indices, n, k)
  {
    WithAlphaParts(palette[indices[k]], PixelAlpha(alphaDepth, indices, n, k));
  }

  /** Replacing the alpha twice leaves only the second. */
  lemma WithAlphaTwice(w: u32, a: u8, b: u8)
    ensures WithAlpha(WithAlpha(w, a), b) == WithAlpha(w, b)
  {
    WithAlphaParts(w, a);
  }

  /** Reads the palette at `sizeof(BlpHeader)`, then returns to the layer. */
  method ReadPalette(stream: ByteStream) returns (palette: array<u32>)
    requires HeaderSize + 4 * PaletteSize <= |stream.data|
    modifies stream
    ensures fresh(palette)
    ensures stream.position == old(stream.position)
    ensures palette[..] == Palette(stream.data)
  {
    var curPosition := stream.position;
    stream.SetPosition(HeaderSize);
    palette := ReadWords(stream, PaletteSize);
    stream.SetPosition(curPosition);
    SwapAll(palette, PaletteSize);
  }

  /** `DecompressPaletteFastPath`: 8-bit alpha, one index byte and one alpha
      byte per pixel, walked row by row with a running counter. */
  method DecompressPaletteFastPath(width: u32, height: u32, palette: array<u32>, indices: seq<u8>)
    returns (imageData: array<u32>)
    requires palette.Length == PaletteSize
    requires width * height < 0x1_0000_0000
    requires IndexBytes(8, NumEntries(width, height)) <= |indices|
    ensures fresh(imageData)
    ensures imageData[..] == PalettePixels(palette[..], indices, NumEntries(width, height), 8)
  {
    var numEntries := NumEntries(width, height);
    imageData := new u32[numEntries];

    var counter: nat := 0;
    for y := 0 to height
      invariant counter == y * width && counter <= numEntries
      invariant FastPathDone(imageData[..], palette[..], indices, numEntries, counter)
    {
      RowFits(y, width, height);
      MulAdd(width, y, 1);
      counter := FastPathRow(width, palette, indices, numEntries, imageData, counter);
    }
    FastPathPixels(palette[..], indices, numEntries, imageData[..]);
  }

  /** The first `count` pixels of `image` hold their palette colour with the
      alpha byte from the alpha plane after the `n` index bytes. */
  predicate FastPathDone(image: seq<u32>, palette: seq<u32>, indices: seq<u8>, n: nat, count: nat)
    requires |palette| == PaletteSize && 2 * n <= |indices| && count <= |image| && count <= n
  {
    forall k :: 0 <= k < count ==> image[k] == WithAlpha(palette[indices[k]], indices[n + k])
  }

  /** One row of the fast path: `width` pixels from `counter` on. */
  method FastPathRow(width: u32, palette: array<u32>, indices: seq<u8>, numEntries: nat,
                     imageData: array<u32>, counter: nat) returns (next: nat)
    requires palette.Length == PaletteSize && 2 * numEntries <= |indices|
    requires imageData.Length == numEntries && counter + width <= numEntries
    requires palette != imageData
    requires FastPathDone(imageData[..], palette[..], indices, numEntries, counter)
    modifies imageData
    ensures next == counter + width
    ensures FastPathDone(imageData[..], palette[..], indices, numEntries, next)
  {
    next := counter;
    for x := 0 to width
      invariant next == counter + x
      invariant forall k :: 0 <= k < next ==>
        imageData[k] == WithAlpha(palette[indices[k]], indices[numEntries + k])
    {
      var index := indices[next];
      var alpha := indices[numEntries + next];
      var color := palette[index];
      color := WithAlpha(color, alpha);
      imageData[next] := color;
      next := next + 1;
    }
  }

  /** The fast path's pixels are the 8-bit-alpha palette pixels. */
  lemma FastPathPixels(palette: seq<u32>, indices: seq<u8>, n: nat, image: seq<u32>)
    requires |palette| == PaletteSize && 2 * n <= |indices| && |image| == n
    requires FastPathDone(image, palette, indices, n, n)
    ensures image == PalettePixels(palette, indices, n, 8)
  {
  }

  /** `DecompressPaletteARGB8`: every pixel first takes its palette colour,
      made opaque; then the alpha plane of depth 1 or 4 is applied. Depth 0
      leaves the pixels opaque; any other depth throws. */
  method DecompressPaletteARGB8(width: u32, height: u32, alphaDepth: u8, palette: array<u32>, indices: seq<u8>)
    returns (imageData: array<u32>, status: Result<()>)
    requires palette.Length == PaletteSize
    requires IndexBytes(alphaDepth, NumEntries(width, height)) <= |indices|
    ensures fresh(imageData)
    ensures status.Success? <==> alphaDepth in {0, 1, 4}
    ensures status.Failure? ==> status.error == "Unsupported alpha depth"
    ensures status.Success? ==>
      imageData[..] == PalettePixels(palette[..], indices, NumEntries(width, height), alphaDepth)
    ensures status.Failure? ==>
      imageData[..] == PalettePixels(palette[..], indices, NumEntries(width, height), 0)
  {
    var numEntries := NumEntries(width, height);
    imageData := new u32[numEntries];

    for i := 0 to numEntries
      invariant forall k :: 0 <= k < i ==> imageData[k] == WithAlpha(palette[indices[k]], 0xFF)
    {
      var index := indices[i];
      var color := palette[index];
      color := WithAlpha(color, 0xFF);
      imageData[i] := color;
    }
    assert imageData[..] == PalettePixels(palette[..], indices, numEntries, 0);

    if alphaDepth == 0 {
      status := Success(());
    } else if alphaDepth == 1 {
      ApplyAlpha1(imageData, indices, numEntries);
      OpaqueThenAlpha(palette[..], indices, numEntries, alphaDepth, imageData[..]);
      status := Success(());
    } else if alphaDepth == 4 {
      ApplyAlpha4(imageData, indices, numEntries);
      OpaqueThenAlpha(palette[..], indices, numEntries, alphaDepth, imageData[..]);
      status := Success(());
    } else {
      status := Failure("Unsupported alpha depth");
    }
  }

  /** Replacing the alpha of the opaque pixels gives the pixels of that depth. */
  lemma OpaqueThenAlpha(palette: seq<u32>, indices: seq<u8>, n: nat, alphaDepth: u8, image: seq<u32>)
    requires |palette| == PaletteSize
    requires SupportedAlphaDepth(alphaDepth) && IndexBytes(alphaDepth, n) <= |indices|
    requires |image| == n
    requires forall k :: 0 <= k < n ==>
      image[k] == WithAlpha(WithAlpha(palette[indices[k]], 0xFF), PixelAlpha(alphaDepth, indices, n, k))
    ensures image == PalettePixels(palette, indices, n, alphaDepth)
  {
    var pixels := PalettePixels(palette, indices, n, alphaDepth);
    forall k | 0 <= k < n
      ensures image[k] == pixels[k]
    {
      WithAlphaTwice(palette[indices[k]], 0xFF, PixelAlpha(alphaDepth, indices, n, k));
    }
  }

  /** The 1-bit alpha loops: eight pixels per alpha byte, then the remaining
      `n % 8` pixels from one last byte. */
  method ApplyAlpha1(imageData: array<u32>, indices: seq<u8>, numEntries: nat)
    requires imageData.Length == numEntries && IndexBytes(1, numEntries) <= |indices|
    modifies imageData
    ensures forall k :: 0 <= k < numEntries ==>
      imageData[k] == WithAlpha(old(imageData[k]), PixelAlpha(1, indices, numEntries, k))
  {
    var colorIndex: nat := 0;
    for i := 0 to numEntries / 8
      invariant colorIndex == 8 * i
      invariant forall k :: 0 <= k < colorIndex ==>
        imageData[k] == WithAlpha(old(imageData[k]), PixelAlpha(1, indices, numEntries, k))
      invariant forall k :: colorIndex <= k < numEntries ==> imageData[k] == old(imageData[k])
    {
      var value := indices[i + numEntries];
      colorIndex := AlphaBits(imageData, indices, numEntries, value, colorIndex, 8);
    }

    if numEntries % 8 != 0 {
      var value := indices[numEntries + numEntries / 8];
      colorIndex := AlphaBits(imageData, indices, numEntries, value, colorIndex, numEntries % 8);
    }
  }

  /** The inner 1-bit loop: pixels `colorIndex ..` take bits `0 .. count` of
      one alpha byte. */
  method AlphaBits(imageData: array<u32>, ghost indices: seq<u8>, ghost numEntries: nat,
                   value: u8, colorIndex: nat, count: nat) returns (next: nat)
    requires imageData.Length == numEntries && IndexBytes(1, numEntries) <= |indices|
    requires colorIndex % 8 == 0 && 0 < count <= 8 && colorIndex + count <= numEntries
    requires value == indices[numEntries + colorIndex / 8]
    modifies imageData
    ensures next == colorIndex + count
    ensures forall k :: colorIndex <= k < next ==>
      imageData[k] == WithAlpha(old(imageData[k]), PixelAlpha(1, indices, numEntries, k))
    ensures forall k :: 0 <= k < numEntries && !(colorIndex <= k < next) ==> imageData[k] == old(imageData[k])
  {
    assert Pow2(1) == 2;
    next := colorIndex;
    for j := 0 to count
      invariant next == colorIndex + j
      invariant forall k :: colorIndex <= k < next ==>
        imageData[k] == WithAlpha(old(imageData[k]), PixelAlpha(1, indices, numEntries, k))
      invariant forall k :: 0 <= k < numEntries && !(colorIndex <= k < next) ==> imageData[k] == old(imageData[k])
    {
      assert next / 8 == colorIndex / 8 && next % 8 == j;
      var color := imageData[next];
      color := WithAlpha(color, AlphaLookup1[if Bits(value, j, 1) != 0 then 1 else 0]);
      imageData[next] := color;
      next := next + 1;
    }
  }

  /** The 4-bit alpha loop: two pixels per alpha byte, low nibble first, then
      for an odd count the low nibble of one last byte. */
  method ApplyAlpha4(imageData: array<u32>, indices: seq<u8>, numEntries: nat)
    requires imageData.Length == numEntries && IndexBytes(4, numEntries) <= |indices|
    modifies imageData
    ensures forall k :: 0 <= k < numEntries ==>
      imageData[k] == WithAlpha(old(imageData[k]), PixelAlpha(4, indices, numEntries, k))
  {
    ghost var before := imageData[..];
    var colorIndex: nat := 0;
    for i := 0 to numEntries / 2
      invariant colorIndex == 2 * i
      invariant AlphaApplied(imageData[..], before, 4, indices, numEntries, colorIndex)
      invariant imageData[colorIndex..] == before[colorIndex..]
    {
      Alpha4Byte(imageData, indices, numEntries, i, before);
      colorIndex := colorIndex + 2;
    }

    if numEntries % 2 != 0 {
      var value := indices[numEntries + numEntries / 2];
      var alpha := AlphaLookup4[value % 16];
      assert colorIndex / 2 == numEntries / 2 && colorIndex % 2 == 0;
      assert imageData[colorIndex] == before[colorIndex] by {
        assert imageData[colorIndex..][0] == before[colorIndex..][0];
      }
      imageData[colorIndex] := WithAlpha(imageData[colorIndex], alpha);
    }
    assert AlphaApplied(imageData[..], before, 4, indices, numEntries, numEntries);
  }

  /** One turn of the 4-bit loop: pixels `2 i` and `2 i + 1` take the two
      nibbles of alpha byte `i`. */
  method Alpha4Byte(imageData: array<u32>, indices: seq<u8>, numEntries: nat, i: nat, ghost before: seq<u32>)
    requires imageData.Length == numEntries && |before| == numEntries && IndexBytes(4, numEntries) <= |indices|
    requires 2 * i + 1 < numEntries
    requires AlphaApplied(imageData[..], before, 4, indices, numEntries, 2 * i)
    requires imageData[2 * i..] == before[2 * i..]
    modifies imageData
    ensures AlphaApplied(imageData[..], before, 4, indices, numEntries, 2 * i + 2)
    ensures imageData[2 * i + 2..] == before[2 * i + 2..]
  {
    var colorIndex := 2 * i;
    var value := indices[i + numEntries];
    var alpha0 := AlphaLookup4[value % 16];
    var alpha1 := AlphaLookup4[value / 16];
    Alpha4Pair(indices, numEntries, i);
    ghost var pre := imageData[..];
    assert pre[colorIndex] == before[colorIndex] && pre[colorIndex + 1] == before[colorIndex + 1] by {
      assert pre[colorIndex..][0] == before[colorIndex..][0];
      assert pre[colorIndex..][1] == before[colorIndex..][1];
    }
    imageData[colorIndex] := WithAlpha(imageData[colorIndex], alpha0);
    imageData[colorIndex + 1] := WithAlpha(imageData[colorIndex + 1], alpha1);
    forall k | 0 <= k < colorIndex + 2
      ensures imageData[k] == WithAlpha(before[k], PixelAlpha(4, indices, numEntries, k))
    {
      if k < colorIndex {
        assert imageData[k] == pre[k];
      }
    }
    forall k | colorIndex + 2 <= k < numEntries
      ensures imageData[k] == before[k]
    {
      assert imageData[k] == pre[k] == pre[colorIndex..][k - colorIndex] == before[colorIndex..][k - colorIndex];
    }
  }

  /** The first `count` pixels of `image` carry the alpha of their pixel
      over the colour they had in `before`. */
  predicate AlphaApplied(image: seq<u32>, before: seq<u32>, alphaDepth: u8, indices: seq<u8>, n: nat, count: nat)
    requires SupportedAlphaDepth(alphaDepth) && IndexBytes(alphaDepth, n) <= |indices|
    requires |image| == n && |before| == n && count <= n
  {
    forall k :: 0 <= k < count ==> image[k] == WithAlpha(before[k], PixelAlpha(alphaDepth, indices, n, k))
  }

  /** Pixels `2 i` and `2 i + 1` take the low and the high nibble of alpha byte `i`. */
  lemma Alpha4Pair(indices: seq<u8>, n: nat, i: nat)
    requires 2 * i + 1 < n && IndexBytes(4, n) <= |indices|
    ensures PixelAlpha(4, indices, n, 2 * i) == AlphaLookup4[indices[n + i] % 16]
    ensures PixelAlpha(4, indices, n, 2 * i + 1) == AlphaLookup4[indices[n + i] / 16]
  {
    assert (2 * i) / 2 == i && (2 * i) % 2 == 0;
    assert (2 * i + 1) / 2 == i && (2 * i + 1) % 2 == 1;
  }

  /** A palettised layer whose indices are the `size` bytes at `pos`; any
      depth other than 0, 1, 4 or 8 is rejected. */
  function PaletteLayer(data: seq<u8>, pos: nat, size: nat, width: u32, height: u32, alphaDepth: u8)
    : (r: Result<seq<u32>>)
    requires HeaderSize + 4 * PaletteSize <= |data| && pos + size <= |data|
    requires IndexBytes(alphaDepth, NumEntries(width, height)) <= size
    ensures r.Failure? <==> !SupportedAlphaDepth(alphaDepth)
    ensures r.Success? ==> |r.value| == NumEntries(width, height)
  {
    if SupportedAlphaDepth(alphaDepth) then
      Success(PalettePixels(Palette(data), data[pos..pos + size], NumEntries(width, height), alphaDepth))
    else
      Failure("Unsupported alpha depth")
  }

  /** `ParseUncompressedPalette`: reads the palette, then `sizes[0]` index
      bytes at the layer offset, and takes the fast path for 8-bit alpha. */
  method ParseUncompressedPalette(header: BlpHeader, stream: ByteStream)
    returns (imageData: array<u32>, status: Result<()>)
    requires header.WellFormed()
    requires HeaderSize + 4 * PaletteSize <= |stream.data|
    requires stream.position + header.sizes[0] <= |stream.data|
    requires IndexBytes(header.alphaDepth, NumEntries(header.width, header.height)) <= header.sizes[0]
    requires header.alphaDepth == 8 ==> header.width * header.height < 0x1_0000_0000
    modifies stream
    ensures fresh(imageData)
    ensures stream.position == old(stream.position) + header.sizes[0]
    ensures Produces(PaletteLayer(stream.data, old(stream.position), header.sizes[0],
                                  header.width, header.height, header.alphaDepth),
                     imageData[..], status)
  {
    var palette := ReadPalette(stream);
    var indices := stream.Read(header.sizes[0]);

    if header.alphaDepth == 8 {
      imageData := DecompressPaletteFastPath(header.width, header.height, palette, indices);
      status := Success(());
    } else {
      imageData, status := DecompressPaletteARGB8(header.width, header.height, header.alphaDepth, palette, indices);
    }
  }
}
