/** The per-pixel and window filters of src/filter_factory.cpp on images
    with real channels: crop, clamped grayscale, clamped negative, the median
    filter, and the constructor checks of the Gaussian blur. Every filter returns a
    new image. */
module FloatFilters {
  import opened Errors
  import Raster
  import Grid
  import Rank
  import opened FloatHelpers
  import LittleEndian
  import Utils

  // ---------------------------------------------------------------------
  // Crop

  datatype CropFilter = CropFilter(width: int, height: int)

  /** `CropFilter(w, h)`: both sizes must be positive. */
  function MakeCrop(width: int, height: int): (r: Result<CropFilter>)
    ensures r.Err? <==> width <= 0 || height <= 0
    ensures r.Err? ==> r.error == CropSizeNotPositive
    ensures r.Ok? ==> r.value == CropFilter(width, height)
  {
    if width <= 0 || height <= 0 then Err(CropSizeNotPositive) else Ok(CropFilter(width, height))
  }

  /** `CropFilter::Apply`: the min(W, w) by min(H, h) top-left region. */
  function Crop(f: CropFilter, src: Image): (dst: Image)
    requires f.width > 0 && f.height > 0 && Raster.Valid(src)
    ensures Raster.Valid(dst)
    ensures dst.width == Grid.Min(src.width, f.width) && dst.height == Grid.Min(src.height, f.height)
    ensures forall x: nat, y: nat :: x < dst.width && y < dst.height ==>
      PixelAt(dst, x, y) == PixelAt(src, x, y)
  {
    var w := Grid.Min(src.width, f.width);
    var h := Grid.Min(src.height, f.height);
    Raster.Build(w, h, (x: nat, y: nat) requires x < w && y < h => PixelAt(src, x, y))
  }

  /** A crop at least as large as the image returns the image. */
  lemma CropCoversImage(f: CropFilter, src: Image)
    requires f.width > 0 && f.height > 0 && Raster.Valid(src)
    requires f.width >= src.width && f.height >= src.height
    ensures Crop(f, src) == src
  {
    Raster.Extensionality(Crop(f, src), src);
  }

  /** Cropping twice is cropping once. */
  lemma CropIdempotent(f: CropFilter, src: Image)
    requires f.width > 0 && f.height > 0 && Raster.Valid(src)
    ensures Crop(f, Crop(f, src)) == Crop(f, src)
  {
    CropCoversImage(f, Crop(f, src));
  }

  // ---------------------------------------------------------------------
  // Grayscale and negative, clamped

  /** `GrayscaleFilter::Apply`: each pixel becomes its luma, clamped into
      [0, 1], in all three channels. */
  function Grayscale(src: Image): (dst: Image)
    requires Raster.Valid(src)
    ensures Raster.Valid(dst) && dst.width == src.width && dst.height == src.height
    ensures forall x: nat, y: nat :: x < src.width && y < src.height ==>
      var v := Clamp01(Luma(PixelAt(src, x, y)));
      PixelAt(dst, x, y) == Raster.Pixel(v, v, v)
  {
    Raster.MapPixels(src, p => ClampPixel01(Raster.Pixel(Luma(p), Luma(p), Luma(p))))
  }

  /** The grayscale output is gray and in [0, 1]. */
  lemma GrayscaleIsGray(src: Image, x: nat, y: nat)
    requires Raster.Valid(src) && x < src.width && y < src.height
    ensures var p := PixelAt(Grayscale(src), x, y); p.r == p.g == p.b && InUnit(p)
  {
  }

  /** Grayscale of a grayscale image changes nothing. */
  lemma GrayscaleIdempotent(src: Image)
    requires Raster.Valid(src)
    ensures Grayscale(Grayscale(src)) == Grayscale(src)
  {
    var once := Grayscale(src);
    forall x: nat, y: nat | x < src.width && y < src.height
      ensures Raster.At(Grayscale(once), x, y) == Raster.At(once, x, y)
    {
      LumaBounds(PixelAt(once, x, y));
    }
    Raster.Extensionality(Grayscale(once), once);
  }

  /** 1 - c in every channel. */
  function Invert(p: Pixel): (q: Pixel)
    ensures InUnit(p) ==> InUnit(q)
  {
    Raster.Pixel(1.0 - p.r, 1.0 - p.g, 1.0 - p.b)
  }

  /** Inverting twice gives the pixel back. */
  lemma InvertInvolution(p: Pixel)
    ensures Invert(Invert(p)) == p
  {
  }

  /** `NegativeFilter::Apply`: each channel becomes 1 - c, clamped into [0, 1]. */
  function Negative(src: Image): (dst: Image)
    requires Raster.Valid(src)
    ensures Raster.Valid(dst) && dst.width == src.width && dst.height == src.height
    ensures UnitImage(dst)
    ensures forall x: nat, y: nat :: x < src.width && y < src.height ==>
      PixelAt(dst, x, y) == ClampPixel01(Invert(PixelAt(src, x, y)))
  {
    Raster.MapPixels(src, p => ClampPixel01(Invert(p)))
  }

  /** On a [0, 1] image the clamp never acts, so the negative of the
      negative is the image itself. */
  lemma NegativeInvolution(src: Image)
    requires Raster.Valid(src) && UnitImage(src)
    ensures Negative(Negative(src)) == src
  {
    var once := Negative(src);
    forall x: nat, y: nat | x < src.width && y < src.height
      ensures Raster.At(Negative(once), x, y) == Raster.At(src, x, y)
    {
      PixelAtInUnit(src, x, y);
      InvertInvolution(PixelAt(src, x, y));
    }
    Raster.Extensionality(Negative(once), src);
  }

  // ---------------------------------------------------------------------
  // Median

  datatype MedianFilter = MedianFilter(window: int)

  /** `MedianFilter(window)`: the window must be positive and odd. */
  function MakeMedian(window: int): (r: Result<MedianFilter>)
    ensures r.Err? <==> window <= 0 || window % 2 == 0
    ensures r.Err? ==> r.error == MedianWindowInvalid
    ensures r.Ok? ==> r.value.window == window && r.value.window % 2 == 1
  {
    if window <= 0 || window % 2 == 0 then Err(MedianWindowInvalid) else Ok(MedianFilter(window))
  }

  predicate ValidMedian(f: MedianFilter) {
    f.window > 0 && f.window % 2 == 1
  }

  /** The `buf` of `MedianChannel`: channel c of the window*window clamped
      neighbours, dy from -r to r in the outer loop and dx in the inner one. */
  function Buffer(src: Image, x: nat, y: nat, f: MedianFilter, c: Channel): (buf: seq<real>)
    requires ValidMedian(f) && Raster.Valid(src) && src.width > 0 && src.height > 0
    ensures |buf| == f.window * f.window
    ensures forall i: nat, j: nat :: i < f.window && j < f.window ==>
      Grid.Index(i, j, f.window) < |buf|
      && buf[Grid.Index(i, j, f.window)] == ChannelOf(Neighbour(src, x, y, i - f.window / 2, j - f.window / 2), c)
  {
    var r := f.window / 2;
    Grid.Tabulate(f.window, f.window, (i: nat, j: nat) => ChannelOf(Neighbour(src, x, y, i - r, j - r), c))
  }

  /** Sample k of the buffer is the neighbour at column k % window, row
      k / window of the window. */
  lemma BufferOrder(src: Image, x: nat, y: nat, f: MedianFilter, c: Channel, dx: int, dy: int)
    requires ValidMedian(f) && Raster.Valid(src) && src.width > 0 && src.height > 0
    requires -(f.window / 2) <= dx <= f.window / 2 && -(f.window / 2) <= dy <= f.window / 2
    ensures Grid.Index(dx + f.window / 2, dy + f.window / 2, f.window) < |Buffer(src, x, y, f, c)|
    ensures Buffer(src, x, y, f, c)[Grid.Index(dx + f.window / 2, dy + f.window / 2, f.window)]
      == ChannelOf(Neighbour(src, x, y, dx, dy), c)
  {
    var i: nat, j: nat := dx + f.window / 2, dy + f.window / 2;
    assert Buffer(src, x, y, f, c)[Grid.Index(i, j, f.window)] == ChannelOf(Neighbour(src, x, y, dx, dy), c);
  }

  function Identity(v: real): real {
    v
  }

  /** `MedianChannel`: the value `nth_element` leaves at position size/2. */
  function MedianChannel(src: Image, x: nat, y: nat, f: MedianFilter, c: Channel): (m: real)
    requires ValidMedian(f) && Raster.Valid(src) && src.width > 0 && src.height > 0
    ensures m in Buffer(src, x, y, f, c)
    ensures Rank.HasRank(Buffer(src, x, y, f, c), Identity, |Buffer(src, x, y, f, c)| / 2, m)
  {
    var buf := Buffer(src, x, y, f, c);
    Rank.Select(buf, |buf| / 2, Identity)
  }

  /** The output pixel at (x, y): the three channel medians, clamped into [0, 1]. */
  function MedianPixel(f: MedianFilter, src: Image, x: nat, y: nat): (p: Pixel)
    requires ValidMedian(f) && Raster.Valid(src) && src.width > 0 && src.height > 0
    ensures InUnit(p)
  {
    ClampPixel01(Raster.Pixel(
      MedianChannel(src, x, y, f, Red), MedianChannel(src, x, y, f, Green), MedianChannel(src, x, y, f, Blue)))
  }

  /** The capacity `Apply` reserves for the buffer: window*window evaluated
      in 32-bit `int`, wrapping in two's complement. */
  function ReserveCount(f: MedianFilter): (n: int)
    requires ValidMedian(f)
    ensures -(LittleEndian.TWO31 as int) <= n < LittleEndian.TWO31
    ensures f.window * f.window < LittleEndian.TWO31 ==> n == f.window * f.window
  {
    LittleEndian.ToInt32(f.window * f.window)
  }

  /** `MedianFilter::Apply`: same size, pixel (x, y) replaced by its median
      pixel. A negative reserved capacity converts to a `size_t` of at least
      2^63, so `reserve` throws `length_error` before any pixel is read. */
  function Median(f: MedianFilter, src: Image): (r: Result<Image>)
    requires ValidMedian(f) && Raster.Valid(src)
    ensures r.Err? <==> ReserveCount(f) < 0
    ensures r.Err? ==> r.error == LengthError
    ensures r.Ok? ==> Raster.Valid(r.value) && r.value.width == src.width && r.value.height == src.height
    ensures r.Ok? ==> forall x: nat, y: nat :: x < src.width && y < src.height ==>
      PixelAt(r.value, x, y) == MedianPixel(f, src, x, y)
  {
    if ReserveCount(f) < 0 then Err(LengthError)
    else
      Ok(Raster.Build(src.width, src.height, (x: nat, y: nat) requires x < src.width && y < src.height =>
        MedianPixel(f, src, x, y)))
  }

  /** Every window below 46341 reserves window^2 samples and succeeds; at
      46341 the `int` product overflows and the filter fails. */
  lemma WindowLimit(f: MedianFilter, src: Image)
    requires ValidMedian(f) && Raster.Valid(src)
    ensures f.window < 46341 ==> ReserveCount(f) == f.window * f.window
    ensures f.window < 46341 ==> Median(f, src).Ok?
    ensures Median(MedianFilter(46341), src) == Err(LengthError)
  {
    if f.window < 46341 {
      Grid.MulMonotone(f.window, 46340, f.window);
      Grid.MulMonotone(f.window, 46340, 46340);
    }
    assert 46341 * 46341 == 2147488281;
  }

  /** Each output channel lies between the smallest and largest value of
      that channel in the window, within [0, 1]. */
  lemma MedianWithinWindow(f: MedianFilter, src: Image, x: nat, y: nat, c: Channel, lo: real, hi: real)
    requires ValidMedian(f) && Raster.Valid(src) && x < src.width && y < src.height
    requires 0.0 <= lo && hi <= 1.0
    requires forall k :: 0 <= k < |Buffer(src, x, y, f, c)| ==> lo <= Buffer(src, x, y, f, c)[k] <= hi
    ensures lo <= ChannelOf(MedianPixel(f, src, x, y), c) <= hi
  {
    var buf := Buffer(src, x, y, f, c);
    var m := MedianChannel(src, x, y, f, c);
    var k :| 0 <= k < |buf| && buf[k] == m;
  }

  /** Every sample of a uniform image is that channel of its pixel, and so
      is the median. */
  lemma MedianChannelUniform(f: MedianFilter, src: Image, q: Pixel, x: nat, y: nat, c: Channel)
    requires ValidMedian(f) && Raster.Valid(src) && src.width > 0 && src.height > 0 && Uniform(src, q)
    ensures MedianChannel(src, x, y, f, c) == ChannelOf(q, c)
  {
    var buf := Buffer(src, x, y, f, c);
    forall i: nat, j: nat | i < f.window && j < f.window
      ensures Grid.Index(i, j, f.window) < |buf| && buf[Grid.Index(i, j, f.window)] == ChannelOf(q, c)
    {
      NeighbourOfUniform(src, q, x, y, i - f.window / 2, j - f.window / 2);
    }
    Grid.Everywhere(buf, f.window, f.window, ChannelOf(q, c));
  }

  /** The median pixel of a uniform image of a pixel in [0, 1] is that pixel. */
  lemma MedianPixelUniform(f: MedianFilter, src: Image, q: Pixel, x: nat, y: nat)
    requires ValidMedian(f) && Raster.Valid(src) && Uniform(src, q) && InUnit(q)
    requires x < src.width && y < src.height
    ensures MedianPixel(f, src, x, y) == q
  {
    MedianChannelUniform(f, src, q, x, y, Red);
    MedianChannelUniform(f, src, q, x, y, Green);
    MedianChannelUniform(f, src, q, x, y, Blue);
    assert Raster.Pixel(MedianChannel(src, x, y, f, Red), MedianChannel(src, x, y, f, Green),
      MedianChannel(src, x, y, f, Blue)) == q;
  }

  /** A uniform image of a pixel in [0, 1] is unchanged. */
  lemma MedianUniform(f: MedianFilter, src: Image, q: Pixel)
    requires ValidMedian(f) && Raster.Valid(src) && Uniform(src, q) && InUnit(q)
    ensures Median(f, src).Ok? ==> Median(f, src) == Ok(src)
  {
    if ReserveCount(f) >= 0 {
      var dst := Median(f, src).value;
      forall x: nat, y: nat | x < src.width && y < src.height
        ensures Raster.At(dst, x, y) == Raster.At(src, x, y)
      {
        MedianPixelUniform(f, src, q, x, y);
        UniformAt(src, q, x, y);
      }
      Raster.Extensionality(dst, src);
    }
  }

  /** A window of 1 holds only the pixel itself. */
  lemma MedianChannelWindowOne(src: Image, x: nat, y: nat, c: Channel)
    requires Raster.Valid(src) && x < src.width && y < src.height
    ensures MedianChannel(src, x, y, MedianFilter(1), c) == ChannelOf(PixelAt(src, x, y), c)
  {
    assert Buffer(src, x, y, MedianFilter(1), c)[Grid.Index(0, 0, 1)] == ChannelOf(Neighbour(src, x, y, 0, 0), c);
  }

  /** With a window of 1 the median pixel of a [0, 1] image is its own pixel. */
  lemma MedianPixelWindowOne(src: Image, x: nat, y: nat)
    requires Raster.Valid(src) && UnitImage(src) && x < src.width && y < src.height
    ensures MedianPixel(MedianFilter(1), src, x, y) == PixelAt(src, x, y)
  {
    MedianChannelWindowOne(src, x, y, Red);
    MedianChannelWindowOne(src, x, y, Green);
    MedianChannelWindowOne(src, x, y, Blue);
    PixelAtInUnit(src, x, y);
  }

  /** With a window of 1 a [0, 1] image is unchanged. */
  lemma MedianWindowOne(src: Image)
    requires Raster.Valid(src) && UnitImage(src)
    ensures Median(MedianFilter(1), src) == Ok(src)
  {
    var dst := Median(MedianFilter(1), src).value;
    forall x: nat, y: nat | x < src.width && y < src.height
      ensures Raster.At(dst, x, y) == Raster.At(src, x, y)
    {
      MedianPixelWindowOne(src, x, y);
    }
    Raster.Extensionality(dst, src);
  }

  // ---------------------------------------------------------------------
  // Gaussian blur: the constructor's checks only

  datatype BlurFilter = BlurFilter(sigma: real)

  /** `GaussianBlurFilter(sigma)`: sigma must be positive, and `BuildKernel`
      must be able to size a kernel of 2 * max(1, ceil(3 sigma)) + 1
      weights in `int`. */
  function MakeBlur(sigma: real): (r: Result<BlurFilter>)
    ensures r.Err? <==> !(sigma > 0.0) || Utils.KernelTooLarge(sigma)
    ensures r.Err? ==> r.error == (if sigma > 0.0 then LengthError else SigmaNotPositive)
    ensures r.Ok? ==> r.value.sigma == sigma
  {
    if !(sigma > 0.0) then Err(SigmaNotPositive)
    else if Utils.KernelTooLarge(sigma) then Err(LengthError)
    else Ok(BlurFilter(sigma))
  }

  /** The sigmas the constructor accepts. */
  predicate ValidBlur(f: BlurFilter) {
    f.sigma > 0.0 && !Utils.KernelTooLarge(f.sigma)
  }

  /** Every positive sigma up to 357913941 is accepted; above it, up to the
      undefined range, the kernel's size overflows and construction fails. */
  lemma BlurLimit(sigma: real)
    ensures 0.0 < sigma <= 357913941.0 ==> MakeBlur(sigma) == Ok(BlurFilter(sigma))
    ensures 357913941.0 < sigma <= 715827882.0 ==> MakeBlur(sigma) == Err(LengthError)
  {
    Utils.SigmaLimit(sigma);
  }
}
