/** The stand-alone `GrayscaleFilter` (src/filters/gs.cpp) and
    `NegativeFilter` (src/filters/neg.cpp): the same per-pixel formulas as
    the factory's filters, without the clamp into [0, 1]. */
module PlainFilters {
  import Raster
  import opened FloatHelpers
  import FloatFilters

  /** `GrayscaleFilter::Apply`: each pixel becomes its luma in all three
      channels. */
  function Grayscale(src: Image): (dst: Image)
    requires Raster.Valid(src)
    ensures Raster.Valid(dst) && dst.width == src.width && dst.height == src.height
    ensures forall x: nat, y: nat :: x < src.width && y < src.height ==>
      var v := Luma(PixelAt(src, x, y));
      PixelAt(dst, x, y) == Raster.Pixel(v, v, v)
  {
    Raster.MapPixels(src, p => Raster.Pixel(Luma(p), Luma(p), Luma(p)))
  }

  /** A gray pixel keeps its level. */
  lemma GrayPixelUnchanged(src: Image, x: nat, y: nat)
    requires Raster.Valid(src) && x < src.width && y < src.height
    requires PixelAt(src, x, y).r == PixelAt(src, x, y).g == PixelAt(src, x, y).b
    ensures PixelAt(Grayscale(src), x, y) == PixelAt(src, x, y)
  {
    LumaBounds(PixelAt(src, x, y));
  }

  /** Over reals the weights sum to 1, so grayscale twice is grayscale once. */
  lemma GrayscaleIdempotent(src: Image)
    requires Raster.Valid(src)
    ensures Grayscale(Grayscale(src)) == Grayscale(src)
  {
    var once := Grayscale(src);
    forall x: nat, y: nat | x < src.width && y < src.height
      ensures Raster.At(Grayscale(once), x, y) == Raster.At(once, x, y)
    {
      GrayPixelUnchanged(once, x, y);
    }
    Raster.Extensionality(Grayscale(once), once);
  }

  /** A [0, 1] image stays in [0, 1], and there the unclamped filter agrees
      with the factory's clamped one. */
  lemma GrayscaleUnit(src: Image)
    requires Raster.Valid(src) && UnitImage(src)
    ensures UnitImage(Grayscale(src))
    ensures Grayscale(src) == FloatFilters.Grayscale(src)
  {
    var dst := Grayscale(src);
    forall x: nat, y: nat | x < src.width && y < src.height
      ensures InUnit(PixelAt(dst, x, y))
      ensures Raster.At(dst, x, y) == Raster.At(FloatFilters.Grayscale(src), x, y)
    {
      PixelAtInUnit(src, x, y);
      LumaBounds(PixelAt(src, x, y));
    }
    UnitImageFromPixels(dst);
    Raster.Extensionality(dst, FloatFilters.Grayscale(src));
  }

  /** `NegativeFilter::Apply`: each channel becomes 1 - c. */
  function Negative(src: Image): (dst: Image)
    requires Raster.Valid(src)
    ensures Raster.Valid(dst) && dst.width == src.width && dst.height == src.height
    ensures forall x: nat, y: nat :: x < src.width && y < src.height ==>
      PixelAt(dst, x, y) == FloatFilters.Invert(PixelAt(src, x, y))
  {
    Raster.MapPixels(src, FloatFilters.Invert)
  }

  /** Over reals, the negative of the negative is the image itself. */
  lemma NegativeInvolution(src: Image)
    requires Raster.Valid(src)
    ensures Negative(Negative(src)) == src
  {
    var once := Negative(src);
    forall x: nat, y: nat | x < src.width && y < src.height
      ensures Raster.At(Negative(once), x, y) == Raster.At(src, x, y)
    {
      FloatFilters.InvertInvolution(PixelAt(src, x, y));
    }
    Raster.Extensionality(Negative(once), src);
  }

  /** A [0, 1] image stays in [0, 1], and there the unclamped filter agrees
      with the factory's clamped one. */
  lemma NegativeUnit(src: Image)
    requires Raster.Valid(src) && UnitImage(src)
    ensures UnitImage(Negative(src))
    ensures Negative(src) == FloatFilters.Negative(src)
  {
    var dst := Negative(src);
    forall x: nat, y: nat | x < src.width && y < src.height
      ensures InUnit(PixelAt(dst, x, y))
      ensures Raster.At(dst, x, y) == Raster.At(FloatFilters.Negative(src), x, y)
    {
      PixelAtInUnit(src, x, y);
    }
    UnitImageFromPixels(dst);
    Raster.Extensionality(dst, FloatFilters.Negative(src));
  }
}
