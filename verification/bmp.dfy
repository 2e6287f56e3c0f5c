/** The 24-bit uncompressed bitmap codec of src/bmp.cpp, over an in-memory
    byte sequence: a packed 14-byte BITMAPFILEHEADER, a 40-byte
    BITMAPINFOHEADER, then rows of B,G,R triples padded to a multiple of
    four bytes.  Pixels are the bytes stored in the file. */
module Bmp {
  import opened Errors
  import opened LittleEndian
  import Grid
  import Raster

  type Pixel = Raster.Pixel<byte>
  type Image = Raster.Image<byte>

  const FILE_HEADER_SIZE: nat := 14
  const INFO_HEADER_SIZE: nat := 40
  const HEADERS_SIZE: nat := 54
  /** "BM" read as a little-endian uint16_t. */
  const SIGNATURE: nat := 0x4D42

  /** BITMAPFILEHEADER; every field within the width of its C type. */
  datatype FileHeader = FileHeader(
    bfType: nat, bfSize: nat, bfReserved1: nat, bfReserved2: nat, bfOffBits: nat)
  {
    predicate Valid() {
      bfType < TWO16 && bfSize < TWO32 && bfReserved1 < TWO16 && bfReserved2 < TWO16 && bfOffBits < TWO32
    }
  }

  /** BITMAPINFOHEADER; width, height and resolutions are signed 32-bit. */
  datatype InfoHeader = InfoHeader(
    biSize: nat, biWidth: int, biHeight: int, biPlanes: nat, biBitCount: nat,
    biCompression: nat, biSizeImage: nat, biXPelsPerMeter: int, biYPelsPerMeter: int,
    biClrUsed: nat, biClrImportant: nat)
  {
    predicate Valid() {
      && biSize < TWO32
      && -(TWO31 as int) <= biWidth < TWO31
      && -(TWO31 as int) <= biHeight < TWO31
      && biPlanes < TWO16 && biBitCount < TWO16
      && biCompression < TWO32 && biSizeImage < TWO32
      && -(TWO31 as int) <= biXPelsPerMeter < TWO31
      && -(TWO31 as int) <= biYPelsPerMeter < TWO31
      && biClrUsed < TWO32 && biClrImportant < TWO32
    }
  }

  function ParseFileHeader(b: seq<byte>): (h: FileHeader)
    requires |b| == FILE_HEADER_SIZE
    ensures h.Valid()
  {
    FileHeader(U16(b, 0), U32(b, 2), U16(b, 6), U16(b, 8), U32(b, 10))
  }

  function SerializeFileHeader(h: FileHeader): (b: seq<byte>)
    requires h.Valid()
    ensures |b| == FILE_HEADER_SIZE
  {
    U16Bytes(h.bfType) + U32Bytes(h.bfSize) + U16Bytes(h.bfReserved1)
      + U16Bytes(h.bfReserved2) + U32Bytes(h.bfOffBits)
  }

  function ParseInfoHeader(b: seq<byte>): (h: InfoHeader)
    requires |b| == INFO_HEADER_SIZE
    ensures h.Valid()
  {
    InfoHeader(U32(b, 0), I32(b, 4), I32(b, 8), U16(b, 12), U16(b, 14),
      U32(b, 16), U32(b, 20), I32(b, 24), I32(b, 28), U32(b, 32), U32(b, 36))
  }

  function SerializeInfoHeader(h: InfoHeader): (b: seq<byte>)
    requires h.Valid()
    ensures |b| == INFO_HEADER_SIZE
  {
    U32Bytes(h.biSize) + I32Bytes(h.biWidth) + I32Bytes(h.biHeight)
      + U16Bytes(h.biPlanes) + U16Bytes(h.biBitCount) + U32Bytes(h.biCompression)
      + U32Bytes(h.biSizeImage) + I32Bytes(h.biXPelsPerMeter) + I32Bytes(h.biYPelsPerMeter)
      + U32Bytes(h.biClrUsed) + U32Bytes(h.biClrImportant)
  }

  /** Bytes per stored row: the least multiple of four that holds 3*width bytes. */
  function Stride(width: nat): (s: nat)
    ensures s % 4 == 0
    ensures 3 * width <= s < 3 * width + 4
  {
    (3 * width + 3) / 4 * 4
  }

  /** The image row that stored row `y` holds: the same row for a top-down
      file, row height-1-y for a bottom-up one. */
  function RowMap(topDown: bool, height: nat, y: nat): (row: nat)
    requires y < height
    ensures row < height
  {
    if topDown then y else height - 1 - y
  }

  /** Where the bytes of pixel x of stored row y start, for pixel data at
      `off` and rows `stride` bytes apart. */
  function PixelOffset(off: nat, stride: nat, x: nat, y: nat): nat {
    off + y * stride + 3 * x
  }

  /** The pixel whose blue, green, red bytes start at `at`, in that order. */
  function PixelAt(bytes: seq<byte>, at: nat): Pixel
    requires at + 3 <= |bytes|
  {
    Raster.Pixel(bytes[at + 2], bytes[at + 1], bytes[at])
  }

  /** The parsed headers agree with the raw little-endian fields at their
      packed offsets. */
  lemma ParsedFields(bytes: seq<byte>)
    requires |bytes| >= HEADERS_SIZE
    ensures var fh := ParseFileHeader(bytes[..FILE_HEADER_SIZE]);
      fh.bfType == U16(bytes, 0) && fh.bfSize == U32(bytes, 2) && fh.bfOffBits == U32(bytes, 10)
    ensures var ih := ParseInfoHeader(bytes[FILE_HEADER_SIZE..HEADERS_SIZE]);
      && ih.biSize == U32(bytes, 14) && ih.biWidth == I32(bytes, 18)
      && ih.biHeight == I32(bytes, 22) && ih.biPlanes == U16(bytes, 26)
      && ih.biBitCount == U16(bytes, 28) && ih.biCompression == U32(bytes, 30)
      && ih.biSizeImage == U32(bytes, 34)
  {
  }

  /** The image whose row y is stored at `off + RowMap(y) * stride`. */
  function ReadPixels(bytes: seq<byte>, off: nat, width: nat, height: nat, topDown: bool): (img: Image)
    requires width > 0 && height > 0
    requires off + (height - 1) * Stride(width) + 3 * width <= |bytes|
    ensures Raster.Valid(img) && img.width == width && img.height == height
  {
    var stride := Stride(width);
    // RowMap is its own inverse, so it also gives the stored row of image row y.
    Raster.Build(width, height, (x: nat, y: nat) requires x < width && y < height =>
      Grid.MulMonotone(RowMap(topDown, height, y), height - 1, stride);
      PixelAt(bytes, PixelOffset(off, stride, x, RowMap(topDown, height, y))))
  }

  /** The image width declared in the info header. */
  function FileWidth(bytes: seq<byte>): int
    requires |bytes| >= HEADERS_SIZE
  {
    I32(bytes, 18)
  }

  /** A negative declared height selects top-down row order. */
  function TopDown(bytes: seq<byte>): bool
    requires |bytes| >= HEADERS_SIZE
  {
    I32(bytes, 22) < 0
  }

  /** The number of rows: the magnitude of the declared height. */
  function FileHeight(bytes: seq<byte>): nat
    requires |bytes| >= HEADERS_SIZE
  {
    if TopDown(bytes) then -I32(bytes, 22) else I32(bytes, 22)
  }

  /** The headers describe a 24-bit BI_RGB bitmap with a 40-byte info header
      and a non-empty size. */
  predicate HeadersAccepted(bytes: seq<byte>) {
    && |bytes| >= HEADERS_SIZE
    && U16(bytes, 0) == SIGNATURE
    && U32(bytes, 14) == 40
    && U16(bytes, 26) == 1
    && U16(bytes, 28) == 24
    && U32(bytes, 30) == 0
    && FileWidth(bytes) > 0
    && FileHeight(bytes) > 0
  }

  /** Every pixel byte exists when reading from the declared offset. */
  predicate PixelsPresent(bytes: seq<byte>)
    requires HeadersAccepted(bytes)
  {
    U32(bytes, 10) + (FileHeight(bytes) - 1) * Stride(FileWidth(bytes)) + 3 * FileWidth(bytes) <= |bytes|
  }

  /** `ReadBmp` on the file contents `bytes`. */
  function Decode(bytes: seq<byte>): (r: Result<Image>)
    ensures |bytes| < HEADERS_SIZE ==> r == Err(BadHeaders)
    ensures |bytes| >= HEADERS_SIZE && U16(bytes, 0) != SIGNATURE ==> r == Err(NotBmp)
    ensures |bytes| >= HEADERS_SIZE && U16(bytes, 0) == SIGNATURE && U32(bytes, 14) != 40 ==>
      r == Err(UnsupportedInfoHeader)
    ensures (|bytes| >= HEADERS_SIZE && U16(bytes, 0) == SIGNATURE && U32(bytes, 14) == 40
      && U16(bytes, 26) != 1) ==> r == Err(UnsupportedPlanes)
    ensures (|bytes| >= HEADERS_SIZE && U16(bytes, 0) == SIGNATURE && U32(bytes, 14) == 40
      && U16(bytes, 26) == 1 && U16(bytes, 28) != 24) ==> r == Err(UnsupportedBitDepth)
    ensures (|bytes| >= HEADERS_SIZE && U16(bytes, 0) == SIGNATURE && U32(bytes, 14) == 40
      && U16(bytes, 26) == 1 && U16(bytes, 28) == 24 && U32(bytes, 30) != 0) ==>
      r == Err(UnsupportedCompression)
    ensures (|bytes| >= HEADERS_SIZE && U16(bytes, 0) == SIGNATURE && U32(bytes, 14) == 40
      && U16(bytes, 26) == 1 && U16(bytes, 28) == 24 && U32(bytes, 30) == 0
      && (FileWidth(bytes) <= 0 || I32(bytes, 22) == 0)) ==> r == Err(UnsupportedDimensions)
    ensures HeadersAccepted(bytes) && !PixelsPresent(bytes) ==> r == Err(UnexpectedEof)
    ensures r.Ok? <==> HeadersAccepted(bytes) && PixelsPresent(bytes)
    ensures r.Ok? ==> (
      && Raster.Valid(r.value)
      && r.value.width == FileWidth(bytes)
      && r.value.height == FileHeight(bytes))
    ensures r.Ok? ==>
      r.value == ReadPixels(bytes, U32(bytes, 10), FileWidth(bytes), FileHeight(bytes), TopDown(bytes))
  {
    if |bytes| < HEADERS_SIZE then
      Err(BadHeaders)
    else
      var fh := ParseFileHeader(bytes[..FILE_HEADER_SIZE]);
      var ih := ParseInfoHeader(bytes[FILE_HEADER_SIZE..HEADERS_SIZE]);
      ParsedFields(bytes);
      if fh.bfType != SIGNATURE then Err(NotBmp)
      else if ih.biSize != 40 then Err(UnsupportedInfoHeader)
      else if ih.biPlanes != 1 then Err(UnsupportedPlanes)
      else if ih.biBitCount != 24 then Err(UnsupportedBitDepth)
      else if ih.biCompression != 0 then Err(UnsupportedCompression)
      else if ih.biWidth <= 0 || ih.biHeight == 0 then Err(UnsupportedDimensions)
      else
        var width: nat := ih.biWidth;
        var topDown := ih.biHeight < 0;
        var height: nat := if topDown then -ih.biHeight else ih.biHeight;
        // The last pixel byte must exist; the last row's padding need not.
        if fh.bfOffBits + (height - 1) * Stride(width) + 3 * width > |bytes| then
          Err(UnexpectedEof)
        else
          Ok(ReadPixels(bytes, fh.bfOffBits, width, height, topDown))
  }

  /** RowMap is a bijection on 0..height-1: it is its own inverse. */
  lemma RowMapInvolution(topDown: bool, height: nat, y: nat)
    requires y < height
    ensures RowMap(topDown, height, RowMap(topDown, height, y)) == y
  {
  }

  /** Stored row y, column x lands at image row RowMap(y), column x. */
  lemma {:induction false} ReadPixelsAt(bytes: seq<byte>, off: nat, width: nat, height: nat, topDown: bool, x: nat, y: nat)
    requires width > 0 && height > 0
    requires off + (height - 1) * Stride(width) + 3 * width <= |bytes|
    requires x < width && y < height
    ensures PixelOffset(off, Stride(width), x, y) + 3 <= |bytes|
    ensures Raster.At(ReadPixels(bytes, off, width, height, topDown), x, RowMap(topDown, height, y))
      == Ok(PixelAt(bytes, PixelOffset(off, Stride(width), x, y)))
  {
    RowMapInvolution(topDown, height, y);
    Grid.MulMonotone(y, height - 1, Stride(width));
  }

  /** Stored row y, column x of the file lands at image row RowMap(y),
      column x, its three bytes read as blue, green, red. */
  lemma {:induction false} DecodedPixel(bytes: seq<byte>, x: nat, y: nat)
    requires HeadersAccepted(bytes) && PixelsPresent(bytes)
    requires x < FileWidth(bytes) && y < FileHeight(bytes)
    ensures Decode(bytes).Ok?
    ensures PixelOffset(U32(bytes, 10), Stride(FileWidth(bytes)), x, y) + 3 <= |bytes|
    ensures var at := PixelOffset(U32(bytes, 10), Stride(FileWidth(bytes)), x, y);
      Raster.At(Decode(bytes).value, x, RowMap(TopDown(bytes), FileHeight(bytes), y))
        == Ok(Raster.Pixel(bytes[at + 2], bytes[at + 1], bytes[at]))
  {
    var width: nat, height, off := FileWidth(bytes), FileHeight(bytes), U32(bytes, 10);
    DecodeAccepted(bytes);
    ReadPixelsAt(bytes, off, width, height, TopDown(bytes), x, y);
  }

  lemma DecodeAccepted(bytes: seq<byte>)
    requires HeadersAccepted(bytes) && PixelsPresent(bytes)
    ensures Decode(bytes) == Ok(ReadPixels(bytes, U32(bytes, 10), FileWidth(bytes), FileHeight(bytes), TopDown(bytes)))
  {
  }

  /** Writing a header and reading it back gives the same header. */
  lemma FileHeaderRoundTrip(h: FileHeader)
    requires h.Valid()
    ensures ParseFileHeader(SerializeFileHeader(h)) == h
  {
    var b := SerializeFileHeader(h);
    FieldsOfSuffix(U16Bytes(h.bfType), b[2..], 2);
  }

  /** Every 14-byte string is the serialisation of the header parsed from it. */
  lemma FileHeaderBytesRoundTrip(b: seq<byte>)
    requires |b| == FILE_HEADER_SIZE
    ensures SerializeFileHeader(ParseFileHeader(b)) == b
  {
    U16BytesOfU16(b, 0);
    U32BytesOfU32(b, 2);
    U16BytesOfU16(b, 6);
    U16BytesOfU16(b, 8);
    U32BytesOfU32(b, 10);
    assert b == b[0..2] + b[2..6] + b[6..8] + b[8..10] + b[10..14];
  }

  lemma InfoHeaderRoundTrip(h: InfoHeader)
    requires h.Valid()
    ensures ParseInfoHeader(SerializeInfoHeader(h)) == h
  {
  }

  lemma InfoHeaderBytesRoundTrip(b: seq<byte>)
    requires |b| == INFO_HEADER_SIZE
    ensures SerializeInfoHeader(ParseInfoHeader(b)) == b
  {
    var h := ParseInfoHeader(b);
    U32BytesOfU32(b, 0);
    I32BytesOfI32(b, 4);
    assert U32Bytes(h.biSize) + I32Bytes(h.biWidth) == b[..8];
    I32BytesOfI32(b, 8);
    assert U32Bytes(h.biSize) + I32Bytes(h.biWidth) + I32Bytes(h.biHeight) == b[..12];
    U16BytesOfU16(b, 12);
    U16BytesOfU16(b, 14);
    var p := U32Bytes(h.biSize) + I32Bytes(h.biWidth) + I32Bytes(h.biHeight)
      + U16Bytes(h.biPlanes) + U16Bytes(h.biBitCount);
    assert p == b[..16];
    U32BytesOfU32(b, 16);
    U32BytesOfU32(b, 20);
    p := p + U32Bytes(h.biCompression) + U32Bytes(h.biSizeImage);
    assert p == b[..24];
    I32BytesOfI32(b, 24);
    I32BytesOfI32(b, 28);
    p := p + I32Bytes(h.biXPelsPerMeter) + I32Bytes(h.biYPelsPerMeter);
    assert p == b[..32];
    U32BytesOfU32(b, 32);
    U32BytesOfU32(b, 36);
    p := p + U32Bytes(h.biClrUsed) + U32Bytes(h.biClrImportant);
    assert p == b;
  }

  /** Blue, green, red of the first `n` pixels of image row `row`. */
  function RowBytes(img: Image, row: nat, n: nat): (s: seq<byte>)
    requires Raster.Valid(img) && row < img.height && n <= img.width
    ensures |s| == 3 * n
  {
    if n == 0 then []
    else
      var p := Raster.At(img, n - 1, row).value;
      RowBytes(img, row, n - 1) + [p.b, p.g, p.r]
  }

  /** File row `y` of a bottom-up file: image row height-1-y, then zero
      padding up to the stride. */
  function FileRow(img: Image, y: nat): (s: seq<byte>)
    requires Raster.Valid(img) && y < img.height
    ensures |s| == Stride(img.width)
  {
    RowBytes(img, img.height - 1 - y, img.width) + seq(Stride(img.width) - 3 * img.width, _ => 0)
  }

  /** File rows 0 .. n-1, in the order they are written. */
  function FileRows(img: Image, n: nat): (s: seq<byte>)
    requires Raster.Valid(img) && n <= img.height
    ensures |s| == n * Stride(img.width)
  {
    if n == 0 then [] else FileRows(img, n - 1) + FileRow(img, n - 1)
  }

  /** The file header written for a width x height image. */
  function WrittenFileHeader(width: nat, height: nat): (fh: FileHeader)
    ensures fh.Valid()
  {
    FileHeader(SIGNATURE, ToUint32(HEADERS_SIZE + height * Stride(width)), 0, 0, HEADERS_SIZE)
  }

  /** The info header written for a width x height image. */
  function WrittenInfoHeader(width: nat, height: nat): (ih: InfoHeader)
    ensures ih.Valid()
  {
    InfoHeader(40, ToInt32(width), ToInt32(height), 1, 24, 0, ToUint32(height * Stride(width)), 0, 0, 0, 0)
  }

  /** `WriteBmp`: the bytes written for `img`. */
  function Encode(img: Image): (r: Result<seq<byte>>)
    requires Raster.Valid(img)
    ensures r.Err? <==> img.width == 0 || img.height == 0
    ensures r.Err? ==> r.error == EmptyImage
    ensures r.Ok? ==> |r.value| == HEADERS_SIZE + img.height * Stride(img.width)
  {
    if img.width == 0 || img.height == 0 then
      Err(EmptyImage)
    else
      Ok(SerializeFileHeader(WrittenFileHeader(img.width, img.height))
        + SerializeInfoHeader(WrittenInfoHeader(img.width, img.height))
        + FileRows(img, img.height))
  }

  /** The header fields `WriteBmp` emits: pixel data right after the two
      headers, a positive height (bottom-up rows), one plane, 24 bits,
      BI_RGB, and file and image sizes that match the output. */
  lemma EncodedHeader(img: Image)
    requires Raster.Valid(img) && img.width > 0 && img.height > 0
    ensures Encode(img).Ok?
    ensures var bytes := Encode(img).value;
      && U16(bytes, 0) == SIGNATURE
      && U32(bytes, 2) == ToUint32(|bytes|)
      && U32(bytes, 10) == HEADERS_SIZE
      && U32(bytes, 14) == 40
      && I32(bytes, 18) == ToInt32(img.width)
      && I32(bytes, 22) == ToInt32(img.height)
      && U16(bytes, 26) == 1
      && U16(bytes, 28) == 24
      && U32(bytes, 30) == 0
      && U32(bytes, 34) == ToUint32(img.height * Stride(img.width))
  {
    EncodedFileHeader(img);
    EncodedInfoHeader(img);
  }

  /** The file header fields of an encoding. */
  lemma EncodedFileHeader(img: Image)
    requires Raster.Valid(img) && img.width > 0 && img.height > 0
    ensures Encode(img).Ok?
    ensures var bytes := Encode(img).value;
      && U16(bytes, 0) == SIGNATURE
      && U32(bytes, 2) == ToUint32(|bytes|)
      && U32(bytes, 10) == HEADERS_SIZE
  {
    var fh := WrittenFileHeader(img.width, img.height);
    HeadersOfEncoding(fh, WrittenInfoHeader(img.width, img.height), FileRows(img, img.height));
    ParsedFields(Encode(img).value);
  }

  /** The info header fields of an encoding. */
  lemma EncodedInfoHeader(img: Image)
    requires Raster.Valid(img) && img.width > 0 && img.height > 0
    ensures Encode(img).Ok?
    ensures var bytes := Encode(img).value;
      && U32(bytes, 14) == 40
      && I32(bytes, 18) == ToInt32(img.width)
      && I32(bytes, 22) == ToInt32(img.height)
      && U16(bytes, 26) == 1
      && U16(bytes, 28) == 24
      && U32(bytes, 30) == 0
      && U32(bytes, 34) == ToUint32(img.height * Stride(img.width))
  {
    var ih := WrittenInfoHeader(img.width, img.height);
    HeadersOfEncoding(WrittenFileHeader(img.width, img.height), ih, FileRows(img, img.height));
    ParsedFields(Encode(img).value);
  }

  /** After the headers come the file rows. */
  lemma EncodedRows(img: Image)
    requires Raster.Valid(img) && img.width > 0 && img.height > 0
    ensures Encode(img).Ok?
    ensures Encode(img).value[HEADERS_SIZE..] == FileRows(img, img.height)
  {
    HeadersOfEncoding(WrittenFileHeader(img.width, img.height), WrittenInfoHeader(img.width, img.height),
      FileRows(img, img.height));
  }

  /** The headers at the front of `SerializeFileHeader(fh) + SerializeInfoHeader(ih) + rest`
      parse back to `fh` and `ih`. */
  lemma HeadersOfEncoding(fh: FileHeader, ih: InfoHeader, rest: seq<byte>)
    requires fh.Valid() && ih.Valid()
    ensures var bytes := SerializeFileHeader(fh) + SerializeInfoHeader(ih) + rest;
      && |bytes| == HEADERS_SIZE + |rest|
      && ParseFileHeader(bytes[..FILE_HEADER_SIZE]) == fh
      && ParseInfoHeader(bytes[FILE_HEADER_SIZE..HEADERS_SIZE]) == ih
      && bytes[HEADERS_SIZE..] == rest
  {
    var bytes := SerializeFileHeader(fh) + SerializeInfoHeader(ih) + rest;
    assert bytes[..FILE_HEADER_SIZE] == SerializeFileHeader(fh);
    assert bytes[FILE_HEADER_SIZE..HEADERS_SIZE] == SerializeInfoHeader(ih);
    FileHeaderRoundTrip(fh);
    InfoHeaderRoundTrip(ih);
  }

  lemma {:induction false} RowBytesAt(img: Image, row: nat, n: nat, x: nat)
    requires Raster.Valid(img) && row < img.height && n <= img.width && x < n
    ensures 3 * x + 3 <= |RowBytes(img, row, n)|
    ensures PixelAt(RowBytes(img, row, n), 3 * x) == Raster.At(img, x, row).value
  {
    if x < n - 1 {
      RowBytesAt(img, row, n - 1, x);
    }
  }

  lemma {:induction false} FileRowsAt(img: Image, n: nat, y: nat, k: nat)
    requires Raster.Valid(img) && n <= img.height && y < n && k < Stride(img.width)
    ensures y * Stride(img.width) + k < |FileRows(img, n)|
    ensures FileRows(img, n)[y * Stride(img.width) + k] == FileRow(img, y)[k]
  {
    var stride := Stride(img.width);
    if y < n - 1 {
      FileRowsAt(img, n - 1, y, k);
    } else {
      assert |FileRows(img, n - 1)| == y * stride;
    }
  }

  /** Image row height-1-y is written, as blue, green, red, at file row y. */
  lemma {:induction false} EncodedPixel(img: Image, x: nat, y: nat)
    requires Raster.Valid(img) && x < img.width && y < img.height
    ensures Encode(img).Ok?
    ensures PixelOffset(HEADERS_SIZE, Stride(img.width), x, y) + 3 <= |Encode(img).value|
    ensures PixelAt(Encode(img).value, PixelOffset(HEADERS_SIZE, Stride(img.width), x, y))
      == Raster.At(img, x, img.height - 1 - y).value
  {
    EncodedRows(img);
    PixelLayout(Encode(img).value, img, x, y);
  }

  lemma PixelLayout(bytes: seq<byte>, img: Image, x: nat, y: nat)
    requires Raster.Valid(img) && x < img.width && y < img.height
    requires |bytes| >= HEADERS_SIZE && bytes[HEADERS_SIZE..] == FileRows(img, img.height)
    ensures PixelOffset(HEADERS_SIZE, Stride(img.width), x, y) + 3 <= |bytes|
    ensures PixelAt(bytes, PixelOffset(HEADERS_SIZE, Stride(img.width), x, y))
      == Raster.At(img, x, img.height - 1 - y).value
  {
    var stride := Stride(img.width);
    var row := RowBytes(img, img.height - 1 - y, img.width);
    RowBytesAt(img, img.height - 1 - y, img.width, x);
    RowsLayout(bytes, img, y, 3 * x);
    RowsLayout(bytes, img, y, 3 * x + 1);
    RowsLayout(bytes, img, y, 3 * x + 2);
    assert FileRow(img, y)[3 * x] == row[3 * x];
    assert FileRow(img, y)[3 * x + 1] == row[3 * x + 1];
    assert FileRow(img, y)[3 * x + 2] == row[3 * x + 2];
    assert PixelOffset(HEADERS_SIZE, stride, x, y) == PixelOffset(HEADERS_SIZE, stride, 0, y) + 3 * x;
  }

  lemma {:induction false} EncodedPadding(img: Image, y: nat, k: nat)
    requires Raster.Valid(img) && img.width > 0 && y < img.height
    requires 3 * img.width <= k < Stride(img.width)
    ensures Encode(img).Ok?
    ensures PixelOffset(HEADERS_SIZE, Stride(img.width), 0, y) + k < |Encode(img).value|
    ensures Encode(img).value[PixelOffset(HEADERS_SIZE, Stride(img.width), 0, y) + k] == 0
  {
    EncodedRows(img);
    RowsLayout(Encode(img).value, img, y, k);
  }

  lemma RowsLayout(bytes: seq<byte>, img: Image, y: nat, k: nat)
    requires Raster.Valid(img) && y < img.height && k < Stride(img.width)
    requires |bytes| >= HEADERS_SIZE && bytes[HEADERS_SIZE..] == FileRows(img, img.height)
    ensures PixelOffset(HEADERS_SIZE, Stride(img.width), 0, y) + k < |bytes|
    ensures bytes[PixelOffset(HEADERS_SIZE, Stride(img.width), 0, y) + k] == FileRow(img, y)[k]
  {
    FileRowsAt(img, img.height, y, k);
    SuffixAt(bytes, FileRows(img, img.height), FileRow(img, y), Stride(img.width), y, k);
  }

  /** Byte k of the row stored at y * stride after the headers. */
  lemma SuffixAt(bytes: seq<byte>, rows: seq<byte>, row: seq<byte>, stride: nat, y: nat, k: nat)
    requires |bytes| >= HEADERS_SIZE && bytes[HEADERS_SIZE..] == rows && k < |row|
    requires y * stride + k < |rows| && rows[y * stride + k] == row[k]
    ensures PixelOffset(HEADERS_SIZE, stride, 0, y) + k < |bytes|
    ensures bytes[PixelOffset(HEADERS_SIZE, stride, 0, y) + k] == row[k]
  {
    assert PixelOffset(HEADERS_SIZE, stride, 0, y) + k == HEADERS_SIZE + (y * stride + k);
  }

  /** The headers the encoder writes pass every check of the decoder, and
      the pixel rows they declare are all present. */
  lemma EncodingAccepted(img: Image)
    requires Raster.Valid(img) && 0 < img.width < TWO31 && 0 < img.height < TWO31
    ensures Encode(img).Ok?
    ensures HeadersAccepted(Encode(img).value) && PixelsPresent(Encode(img).value)
    ensures U32(Encode(img).value, 10) == HEADERS_SIZE
    ensures FileWidth(Encode(img).value) == img.width && FileHeight(Encode(img).value) == img.height
    ensures !TopDown(Encode(img).value)
  {
    EncodedHeader(img);
    var bytes := Encode(img).value;
    assert FileWidth(bytes) == img.width && FileHeight(bytes) == img.height && !TopDown(bytes);
    PresentFromSize(bytes, img.width, img.height);
  }

  /** Headers declaring w by h with pixel data right after them, followed
      by h full rows, leave every pixel byte present. */
  lemma PresentFromSize(bytes: seq<byte>, w: nat, h: nat)
    requires HeadersAccepted(bytes) && FileWidth(bytes) == w && FileHeight(bytes) == h
    requires U32(bytes, 10) == HEADERS_SIZE && |bytes| == HEADERS_SIZE + h * Stride(w)
    ensures PixelsPresent(bytes)
  {
    LastRowEnd(h, Stride(w));
  }

  /** Bottom-up rows laid out by `FileRows` after the headers read back as `img`. */
  lemma ReadBackRows(bytes: seq<byte>, img: Image)
    requires Raster.Valid(img) && img.width > 0 && img.height > 0
    requires |bytes| >= HEADERS_SIZE && bytes[HEADERS_SIZE..] == FileRows(img, img.height)
    ensures HEADERS_SIZE + (img.height - 1) * Stride(img.width) + 3 * img.width <= |bytes|
    ensures ReadPixels(bytes, HEADERS_SIZE, img.width, img.height, false) == img
  {
    LastRowEnd(img.height, Stride(img.width));
    var decoded := ReadPixels(bytes, HEADERS_SIZE, img.width, img.height, false);
    forall x: nat, y: nat | x < img.width && y < img.height
      ensures Raster.At(decoded, x, y) == Raster.At(img, x, y)
    {
      ReadBackPixel(bytes, img, x, y);
    }
    Raster.Extensionality(decoded, img);
  }

  /** The last of h rows of s bytes ends at h * s. */
  lemma LastRowEnd(h: nat, s: nat)
    requires h > 0
    ensures (h - 1) * s + s == h * s
  {
  }

  /** One pixel of the rows read back. */
  lemma ReadBackPixel(bytes: seq<byte>, img: Image, x: nat, y: nat)
    requires Raster.Valid(img) && x < img.width && y < img.height
    requires |bytes| >= HEADERS_SIZE && bytes[HEADERS_SIZE..] == FileRows(img, img.height)
    requires HEADERS_SIZE + (img.height - 1) * Stride(img.width) + 3 * img.width <= |bytes|
    ensures Raster.At(ReadPixels(bytes, HEADERS_SIZE, img.width, img.height, false), x, y) == Raster.At(img, x, y)
  {
    var stored := img.height - 1 - y;
    ReadPixelsAt(bytes, HEADERS_SIZE, img.width, img.height, false, x, stored);
    PixelLayout(bytes, img, x, stored);
  }

  /** Writing an image and reading the file back gives the same image, for
      every non-empty image whose sides fit the signed 32-bit header fields. */
  lemma EncodeDecodeRoundTrip(img: Image)
    requires Raster.Valid(img) && 0 < img.width < TWO31 && 0 < img.height < TWO31
    ensures Encode(img).Ok?
    ensures Decode(Encode(img).value) == Ok(img)
  {
    EncodingAccepted(img);
    EncodedRows(img);
    DecodeAccepted(Encode(img).value);
    ReadBackRows(Encode(img).value, img);
  }
}
