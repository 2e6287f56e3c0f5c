/** `MedianFilter` of the 8-bit filters: every output channel is the
    middle-ranked value of that channel over the (2r+1) x (2r+1) window of
    edge-replicated neighbours. */
module Median {
  import opened Errors
  import opened LittleEndian
  import Grid
  import Raster
  import ByteImage
  import Utils
  import Rank

  type Pixel = Raster.Pixel<byte>

  datatype MedianFilter = MedianFilter(radius: nat)

  /** `MedianFilter(radius)`: a negative radius is rejected, zero is accepted. */
  function MakeMedian(radius: int): (r: Result<MedianFilter>)
    ensures r.Err? <==> radius < 0
    ensures r.Err? ==> r.error == NegativeRadius
    ensures r.Ok? ==> r.value.radius == radius
  {
    if radius < 0 then Err(NegativeRadius) else Ok(MedianFilter(radius))
  }

  datatype Channel = Red | Green | Blue

  function ChannelOf(p: Pixel, c: Channel): byte {
    match c
    case Red => p.r
    case Green => p.g
    case Blue => p.b
  }

  /** One channel of every sample, in sample order (the `vr`, `vg`, `vb` vectors). */
  function Samples(window: seq<Pixel>, c: Channel): (v: seq<byte>)
    ensures |v| == |window|
    ensures forall i :: 0 <= i < |v| ==> v[i] == ChannelOf(window[i], c)
  {
    seq(|window|, i requires 0 <= i < |window| => ChannelOf(window[i], c))
  }

  /** The side of the window: 2r + 1. */
  function Side(r: nat): (n: nat)
    ensures n > 0
  {
    2 * r + 1
  }

  /** The sample at column i, row j of the window around (x, y). */
  function Sample(image: ByteImage.Image, x: nat, y: nat, r: nat, i: nat, j: nat): Pixel
    requires ByteImage.Valid(image) && image.width > 0 && image.height > 0
  {
    Utils.GetClamped(image, x + i - r, y + j - r).value
  }

  /** The samples around (x, y) in loop order: sample k is column k % (2r+1),
      row k / (2r+1) of the window. */
  function Window(image: ByteImage.Image, x: nat, y: nat, r: nat): (w: seq<Pixel>)
    requires ByteImage.Valid(image) && image.width > 0 && image.height > 0
    ensures |w| == Side(r) * Side(r)
    ensures forall i: nat, j: nat :: i < Side(r) && j < Side(r) ==>
      Grid.Index(i, j, Side(r)) < |w| && w[Grid.Index(i, j, Side(r))] == Sample(image, x, y, r, i, j)
  {
    Grid.Tabulate(Side(r), Side(r), (i: nat, j: nat) => Sample(image, x, y, r, i, j))
  }

  /** The window holds dy from -r to r in the outer loop and dx from -r to r
      in the inner one, each read through `GetClamped`. */
  lemma WindowOrder(image: ByteImage.Image, x: nat, y: nat, r: nat, dx: int, dy: int)
    requires ByteImage.Valid(image) && image.width > 0 && image.height > 0
    requires -(r as int) <= dx <= r && -(r as int) <= dy <= r
    ensures Grid.Index(dx + r, dy + r, Side(r)) < |Window(image, x, y, r)|
    ensures Window(image, x, y, r)[Grid.Index(dx + r, dy + r, Side(r))]
      == Utils.GetClamped(image, x + dx, y + dy).value
  {
    var i: nat, j: nat := dx + r, dy + r;
    assert Window(image, x, y, r)[Grid.Index(i, j, Side(r))] == Sample(image, x, y, r, i, j);
  }

  function ByteKey(v: byte): real {
    v as real
  }

  /** m is what `nth_element` leaves at position size/2 of v. */
  predicate IsMedian(m: byte, v: seq<byte>) {
    m in v && Rank.HasRank(v, ByteKey, |v| / 2, m)
  }

  /** The value `nth_element` puts at position size/2, passed through ClampU8. */
  function MedianOf(v: seq<byte>): (m: byte)
    requires |v| > 0
    ensures IsMedian(m, v)
  {
    Utils.ClampU8(Rank.Select(v, |v| / 2, ByteKey) as int)
  }

  /** The median of one channel of the window. */
  function ChannelMedian(w: seq<Pixel>, c: Channel): (m: byte)
    requires |w| > 0
    ensures IsMedian(m, Samples(w, c))
  {
    MedianOf(Samples(w, c))
  }

  /** The output pixel for a window: each channel selected independently. */
  function MedianPixel(w: seq<Pixel>): (p: Pixel)
    requires |w| > 0
    ensures IsMedian(p.r, Samples(w, Red))
    ensures IsMedian(p.g, Samples(w, Green))
    ensures IsMedian(p.b, Samples(w, Blue))
  {
    Raster.Pixel(ChannelMedian(w, Red), ChannelMedian(w, Green), ChannelMedian(w, Blue))
  }

  /** A square as a `nat`, for the `int` side of a window. */
  function Square(s: int): (n: nat)
    ensures n == s * s
  {
    if s < 0 then (-s) * (-s) else s * s
  }

  /** The capacity `Apply` reserves for each channel vector: (2r+1)*(2r+1)
      evaluated in 32-bit `int`, each step wrapping in two's complement. */
  function ReserveCount(r: nat): (n: int)
    ensures ByteImage.IsInt(n)
    ensures Side(r) < TWO31 && Square(Side(r)) < TWO31 ==> n == Side(r) * Side(r)
  {
    ToInt32(Square(ToInt32(2 * r + 1)))
  }

  /** `MedianFilter::Apply`: same size, pixel (x, y) replaced by the median
      pixel of its window. A negative reserved capacity converts to a
      `size_t` of at least 2^63, so `reserve` throws `length_error` before
      any pixel is read. */
  function Apply(f: MedianFilter, image: ByteImage.Image): (r: Result<ByteImage.Image>)
    requires ByteImage.Valid(image)
    ensures r.Err? <==> ReserveCount(f.radius) < 0
    ensures r.Err? ==> r.error == LengthError
    ensures r.Ok? ==> ByteImage.Valid(r.value) && r.value.width == image.width && r.value.height == image.height
    ensures r.Ok? ==> forall x: nat, y: nat :: x < image.width && y < image.height ==>
      ByteImage.At(r.value, x, y) == MedianPixel(Window(image, x, y, f.radius))
  {
    if ReserveCount(f.radius) < 0 then Err(LengthError)
    else
      Ok(ByteImage.Build(image.width, image.height,
        (x: nat, y: nat) requires x < image.width && y < image.height => MedianPixel(Window(image, x, y, f.radius))))
  }

  /** Every radius below 23170 reserves (2r+1)^2 samples and succeeds; at
      23170 the `int` product 46341^2 overflows and the filter fails. */
  lemma RadiusLimit(f: MedianFilter, image: ByteImage.Image)
    requires ByteImage.Valid(image)
    ensures f.radius < 23170 ==> ReserveCount(f.radius) == Side(f.radius) * Side(f.radius)
    ensures f.radius < 23170 ==> Apply(f, image).Ok?
    ensures Apply(MedianFilter(23170), image) == Err(LengthError)
  {
    if f.radius < 23170 {
      var s := Side(f.radius);
      Grid.MulMonotone(s, 46339, s);
      Grid.MulMonotone(s, 46339, 46339);
      assert Square(s) < TWO31;
    }
    assert ToInt32(2 * 23170 + 1) == 46341;
    assert Square(46341) == 2147488281;
  }

  /** Each output channel lies between the smallest and largest value of
      that channel among the samples. */
  lemma MedianWithinWindow(w: seq<Pixel>, c: Channel, lo: int, hi: int)
    requires |w| > 0
    requires forall i :: 0 <= i < |w| ==> lo <= ChannelOf(w[i], c) <= hi
    ensures lo <= ChannelOf(MedianPixel(w), c) <= hi
  {
    var v := Samples(w, c);
    var m := ChannelOf(MedianPixel(w), c);
    var i :| 0 <= i < |v| && v[i] == m;
  }

  /** The window of radius 0 around (x, y) is that one pixel. */
  lemma WindowRadiusZero(image: ByteImage.Image, x: nat, y: nat)
    requires ByteImage.Valid(image) && x < image.width && y < image.height
    ensures Window(image, x, y, 0) == [ByteImage.At(image, x, y)]
  {
    var w := Window(image, x, y, 0);
    assert w[Grid.Index(0, 0, 1)] == Sample(image, x, y, 0, 0, 0);
  }

  lemma MedianOfOne(p: Pixel)
    ensures MedianPixel([p]) == p
  {
    MedianOfUniform([p], p);
  }

  /** A window of radius 0 is the pixel itself, so the filter changes nothing. */
  lemma RadiusZeroIdentity(image: ByteImage.Image)
    requires ByteImage.Valid(image)
    ensures Apply(MedianFilter(0), image) == Ok(image)
  {
    var out := Apply(MedianFilter(0), image).value;
    forall x: nat, y: nat | x < image.width && y < image.height
      ensures ByteImage.At(out, x, y) == ByteImage.At(image, x, y)
    {
      WindowRadiusZero(image, x, y);
      MedianOfOne(ByteImage.At(image, x, y));
    }
    ByteImage.Extensionality(out, image);
  }

  /** A window whose samples are all q has median pixel q. */
  lemma MedianOfUniform(w: seq<Pixel>, q: Pixel)
    requires |w| > 0 && forall i :: 0 <= i < |w| ==> w[i] == q
    ensures MedianPixel(w) == q
  {
    var p := MedianPixel(w);
    forall c ensures ChannelOf(p, c) == ChannelOf(q, c) {
      var v := Samples(w, c);
      var i :| 0 <= i < |v| && v[i] == ChannelOf(p, c);
    }
    assert ChannelOf(p, Red) == q.r && ChannelOf(p, Green) == q.g && ChannelOf(p, Blue) == q.b;
  }

  /** Every sample of a uniform image is its one pixel value. */
  lemma SampleOfUniform(image: ByteImage.Image, q: Pixel, x: nat, y: nat, r: nat, i: nat, j: nat)
    requires ByteImage.Valid(image) && image.width > 0 && image.height > 0
    requires forall k :: 0 <= k < |image.data| ==> image.data[k] == q
    ensures Sample(image, x, y, r, i, j) == q
  {
    ByteImage.GetInRange(image, Utils.Nearest(x + i - r, image.width), Utils.Nearest(y + j - r, image.height));
  }

  lemma UniformWindow(image: ByteImage.Image, q: Pixel, x: nat, y: nat, r: nat)
    requires ByteImage.Valid(image) && image.width > 0 && image.height > 0
    requires forall i :: 0 <= i < |image.data| ==> image.data[i] == q
    ensures forall k :: 0 <= k < |Window(image, x, y, r)| ==> Window(image, x, y, r)[k] == q
  {
    var w := Window(image, x, y, r);
    forall i: nat, j: nat | i < Side(r) && j < Side(r)
      ensures Grid.Index(i, j, Side(r)) < |w| && w[Grid.Index(i, j, Side(r))] == q
    {
      SampleOfUniform(image, q, x, y, r, i, j);
    }
    Grid.Everywhere(w, Side(r), Side(r), q);
  }

  /** An image whose pixels are all the same is left unchanged. */
  lemma UniformUnchanged(f: MedianFilter, image: ByteImage.Image, q: Pixel)
    requires ByteImage.Valid(image)
    requires forall i :: 0 <= i < |image.data| ==> image.data[i] == q
    ensures Apply(f, image).Ok? ==> Apply(f, image) == Ok(image)
  {
    if ReserveCount(f.radius) >= 0 {
      var out := Apply(f, image).value;
      forall x: nat, y: nat | x < image.width && y < image.height
        ensures ByteImage.At(out, x, y) == ByteImage.At(image, x, y)
      {
        UniformWindow(image, q, x, y, f.radius);
        MedianOfUniform(Window(image, x, y, f.radius), q);
        ByteImage.GetInRange(image, x, y);
      }
      ByteImage.Extensionality(out, image);
    }
  }
}
