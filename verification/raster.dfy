/** The pixel container of the floating-point filters (include/image.h):
    a width, a height and a row-major buffer, with bounds-checked access.
    The channel type is a parameter: the filters use `real` channels in
    [0,1], the bitmap codec works on the byte samples stored in the file. */
module Raster {
  import opened Errors
  import Grid

  datatype Pixel<T> = Pixel(r: T, g: T, b: T)

  datatype Image<T> = Image(width: nat, height: nat, data: seq<Pixel<T>>)

  /** The buffer holds exactly width*height pixels. */
  predicate Valid<T>(img: Image<T>) {
    |img.data| == img.width * img.height
  }

  /** `Image()`: the default-constructed image. */
  function Empty<T>(): (img: Image<T>)
    ensures Valid(img)
  {
    Image(0, 0, [])
  }

  /** `Image(width, height)`: every pixel value-initialised to `zero`. */
  function New<T>(width: nat, height: nat, zero: T): (img: Image<T>)
    ensures Valid(img) && img.width == width && img.height == height
    ensures forall i :: 0 <= i < |img.data| ==> img.data[i] == Pixel(zero, zero, zero)
  {
    Image(width, height, seq(width * height, _ => Pixel(zero, zero, zero)))
  }

  /** The image holding f(x, y) at column x, row y. */
  function Build<T>(width: nat, height: nat, f: (nat, nat) --> Pixel<T>): (img: Image<T>)
    requires forall x: nat, y: nat :: x < width && y < height ==> f.requires(x, y)
    ensures Valid(img) && img.width == width && img.height == height
    ensures forall x: nat, y: nat :: x < width && y < height ==> At(img, x, y) == Ok(f(x, y))
  {
    Image(width, height, Grid.Tabulate(width, height, f))
  }

  /** `At(x, y)`: out_of_range unless x < width and y < height; otherwise the
      flat element y*width + x, which lies inside the buffer. */
  function At<T>(img: Image<T>, x: nat, y: nat): (r: Result<Pixel<T>>)
    requires Valid(img)
    ensures r.Ok? <==> x < img.width && y < img.height
    ensures r.Err? ==> r.error == OutOfRange
    ensures r.Ok? ==> Grid.Index(x, y, img.width) < img.width * img.height
    ensures r.Ok? ==> r.value == img.data[Grid.Index(x, y, img.width)]
  {
    if x >= img.width || y >= img.height then
      Err(OutOfRange)
    else
      Grid.IndexInBounds(x, y, img.width, img.height);
      Ok(img.data[Grid.Index(x, y, img.width)])
  }

  /** Assignment through the non-const `At(x, y)`: it changes that one
      pixel and nothing else. */
  function Set<T>(img: Image<T>, x: nat, y: nat, p: Pixel<T>): (r: Result<Image<T>>)
    requires Valid(img)
    ensures r.Ok? <==> x < img.width && y < img.height
    ensures r.Err? ==> r.error == OutOfRange
    ensures r.Ok? ==> Valid(r.value) && r.value.width == img.width && r.value.height == img.height
    ensures r.Ok? ==> At(r.value, x, y) == Ok(p)
    ensures r.Ok? ==> forall x': nat, y': nat :: (x' != x || y' != y) ==> At(r.value, x', y') == At(img, x', y')
  {
    if x >= img.width || y >= img.height then
      Err(OutOfRange)
    else
      Grid.IndexInBounds(x, y, img.width, img.height);
      var out := img.(data := img.data[Grid.Index(x, y, img.width) := p]);
      assert forall x': nat, y': nat :: (x' != x || y' != y) ==> At(out, x', y') == At(img, x', y') by {
        forall x': nat, y': nat | x' != x || y' != y
          ensures At(out, x', y') == At(img, x', y')
        {
          if x' < img.width && y' < img.height {
            if Grid.Index(x', y', img.width) == Grid.Index(x, y, img.width) {
              Grid.IndexInjective(x', y', x, y, img.width);
            }
          }
        }
      }
      Ok(out)
  }

  /** A per-pixel transformation: same size, pixel (x, y) becomes f of the
      source pixel (x, y). */
  function MapPixels<T, U>(img: Image<T>, f: Pixel<T> -> Pixel<U>): (out: Image<U>)
    requires Valid(img)
    ensures Valid(out) && out.width == img.width && out.height == img.height
    ensures forall x: nat, y: nat :: x < img.width && y < img.height ==>
      At(out, x, y) == Ok(f(At(img, x, y).value))
  {
    Image(img.width, img.height, seq(|img.data|, i requires 0 <= i < |img.data| => f(img.data[i])))
  }

  /** The default-constructed image has no addressable pixel. */
  lemma EmptyHasNoPixels<T>(x: nat, y: nat)
    ensures At(Empty<T>(), x, y) == Err(OutOfRange)
  {
  }

  /** Two images of the same size that agree at every coordinate are equal. */
  lemma Extensionality<T>(a: Image<T>, b: Image<T>)
    requires Valid(a) && Valid(b) && a.width == b.width && a.height == b.height
    requires forall x: nat, y: nat :: x < a.width && y < a.height ==> At(a, x, y) == At(b, x, y)
    ensures a == b
  {
    forall x: nat, y: nat | x < a.width && y < a.height
      ensures Grid.Index(x, y, a.width) < |a.data| && a.data[Grid.Index(x, y, a.width)] == b.data[Grid.Index(x, y, a.width)]
    {
      Grid.IndexInBounds(x, y, a.width, a.height);
      assert At(a, x, y) == At(b, x, y);
    }
    Grid.Extensional(a.data, b.data, a.width, a.height);
  }
}
