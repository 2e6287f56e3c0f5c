/** Helpers of the floating-point filters (src/filter_factory.cpp): index
    clamping for replicated edges, channel clamping into [0, 1], and the
    luma weights. Channels are exact reals, not IEEE doubles. */
module FloatHelpers {
  import opened Errors
  import Grid
  import Raster

  type Pixel = Raster.Pixel<real>
  type Image = Raster.Image<real>

  /** `ClampIndex(v, lo, hi)`: lo below the range, hi above it, v inside. */
  function ClampIndex(v: int, lo: nat, hi: nat): (c: nat)
    ensures v < lo ==> c == lo
    ensures lo <= v <= hi ==> c == v
    ensures lo <= v && hi < v ==> c == hi
    ensures lo <= hi ==> lo <= c <= hi
  {
    if v < lo then lo else if v > hi then hi else v
  }

  /** `std::clamp(v, 0.0, 1.0)`. */
  function Clamp01(v: real): (c: real)
    ensures 0.0 <= c <= 1.0
    ensures 0.0 <= v <= 1.0 ==> c == v
    ensures v < 0.0 ==> c == 0.0
    ensures v > 1.0 ==> c == 1.0
  {
    if v < 0.0 then 0.0 else if v > 1.0 then 1.0 else v
  }

  /** Every channel lies in [0, 1]. */
  predicate InUnit(p: Pixel) {
    0.0 <= p.r <= 1.0 && 0.0 <= p.g <= 1.0 && 0.0 <= p.b <= 1.0
  }

  /** Every pixel of the image lies in [0, 1]. */
  predicate UnitImage(img: Image) {
    forall i :: 0 <= i < |img.data| ==> InUnit(img.data[i])
  }

  /** `ClampPixel01`: each channel clamped on its own; pixels already in
      [0, 1] are left alone. */
  function ClampPixel01(p: Pixel): (q: Pixel)
    ensures InUnit(q)
    ensures q == Raster.Pixel(Clamp01(p.r), Clamp01(p.g), Clamp01(p.b))
    ensures InUnit(p) ==> q == p
  {
    Raster.Pixel(Clamp01(p.r), Clamp01(p.g), Clamp01(p.b))
  }

  datatype Channel = Red | Green | Blue

  function ChannelOf(p: Pixel, c: Channel): real {
    match c
    case Red => p.r
    case Green => p.g
    case Blue => p.b
  }

  /** 0.299 r + 0.587 g + 0.114 b. */
  function Luma(p: Pixel): real {
    0.299 * p.r + 0.587 * p.g + 0.114 * p.b
  }

  /** The weights sum to 1, so a gray pixel has its own level as luma and a
      pixel in [0, 1] has luma in [0, 1]. */
  lemma LumaBounds(p: Pixel)
    ensures p.r == p.g == p.b ==> Luma(p) == p.r
    ensures InUnit(p) ==> 0.0 <= Luma(p) <= 1.0
  {
  }

  /** The pixel at an in-range (x, y). */
  function PixelAt(img: Image, x: nat, y: nat): (p: Pixel)
    requires Raster.Valid(img) && x < img.width && y < img.height
    ensures Raster.At(img, x, y) == Ok(p)
  {
    Raster.At(img, x, y).value
  }

  /** An in-range pixel of a [0, 1] image is in [0, 1]. */
  lemma PixelAtInUnit(img: Image, x: nat, y: nat)
    requires Raster.Valid(img) && UnitImage(img) && x < img.width && y < img.height
    ensures InUnit(PixelAt(img, x, y))
  {
  }

  /** The pixel at offset (dx, dy) from (x, y), both coordinates passed
      through `ClampIndex(_, 0, size - 1)`: the nearest edge is replicated. */
  function Neighbour(img: Image, x: nat, y: nat, dx: int, dy: int): (p: Pixel)
    requires Raster.Valid(img) && img.width > 0 && img.height > 0
    ensures p == PixelAt(img, ClampIndex(x + dx, 0, img.width - 1), ClampIndex(y + dy, 0, img.height - 1))
  {
    PixelAt(img, ClampIndex(x + dx, 0, img.width - 1), ClampIndex(y + dy, 0, img.height - 1))
  }

  /** Every neighbour of a pixel in a uniform image is the one pixel value. */
  lemma NeighbourOfUniform(img: Image, q: Pixel, x: nat, y: nat, dx: int, dy: int)
    requires Raster.Valid(img) && img.width > 0 && img.height > 0
    requires forall i :: 0 <= i < |img.data| ==> img.data[i] == q
    ensures Neighbour(img, x, y, dx, dy) == q
  {
  }

  /** The image is the one pixel value q everywhere. */
  predicate Uniform(img: Image, q: Pixel) {
    forall i :: 0 <= i < |img.data| ==> img.data[i] == q
  }

  /** Every in-range pixel of a uniform image is its one pixel value. */
  lemma UniformAt(img: Image, q: Pixel, x: nat, y: nat)
    requires Raster.Valid(img) && Uniform(img, q) && x < img.width && y < img.height
    ensures PixelAt(img, x, y) == q
  {
  }

  /** An image whose every in-range pixel is q is uniform. */
  lemma UniformFromPixels(img: Image, q: Pixel)
    requires Raster.Valid(img)
    requires forall x: nat, y: nat :: x < img.width && y < img.height ==> PixelAt(img, x, y) == q
    ensures Uniform(img, q)
  {
    forall i | 0 <= i < |img.data| ensures img.data[i] == q {
      Grid.IndexSurjective(i, img.width, img.height);
      assert PixelAt(img, i % img.width, i / img.width) == q;
    }
  }

  /** An image whose in-range pixels are all in [0, 1] is a [0, 1] image. */
  lemma UnitImageFromPixels(img: Image)
    requires Raster.Valid(img)
    requires forall x: nat, y: nat :: x < img.width && y < img.height ==> InUnit(PixelAt(img, x, y))
    ensures UnitImage(img)
  {
    forall i | 0 <= i < |img.data| ensures InUnit(img.data[i]) {
      Grid.IndexSurjective(i, img.width, img.height);
      assert InUnit(PixelAt(img, i % img.width, i / img.width));
    }
  }
}
