/** The pixel container of the 8-bit filters: an `Image` built from signed
    sizes whose `GetPixel`/`SetPixel` take signed coordinates, convert each to
    an unsigned 64-bit size and check only the resulting flat index. */
module ByteImage {
  import opened Errors
  import opened LittleEndian
  import Grid
  import Raster

  /** 2^64: `size_t` arithmetic wraps modulo this. */
  const TWO64: int := 0x1_0000_0000_0000_0000

  type Pixel = Raster.Pixel<byte>

  datatype Image = Image(width: nat, height: nat, data: seq<Pixel>)

  /** `int` is 32 bits wide. */
  predicate IsInt(v: int) {
    -(TWO31 as int) <= v < TWO31
  }

  /** Sizes come from `int` arguments, and the buffer holds width*height pixels. */
  predicate Valid(img: Image) {
    && img.width < TWO31 && img.height < TWO31
    && |img.data| == img.width * img.height
  }

  /** `Image(width, height)`: the buffer of size_t(width) * size_t(height)
      elements is sized before the sizes are checked. A negative size
      therefore fails in the buffer, with `length_error`, when the other side
      is positive, and at the check, with the negative-size error, when the
      other side is zero or negative too. Otherwise every pixel is
      value-initialised to black. */
  function New(width: int, height: int): (r: Result<Image>)
    requires IsInt(width) && IsInt(height)
    ensures r.Err? <==> width < 0 || height < 0
    ensures r.Err? ==> r.error == (if width > 0 || height > 0 then LengthError else NegativeSize)
    ensures r.Ok? ==> Valid(r.value) && r.value.width == width && r.value.height == height
    ensures r.Ok? ==> forall i :: 0 <= i < |r.value.data| ==> r.value.data[i] == Raster.Pixel(0, 0, 0)
  {
    if width < 0 || height < 0 then
      AllocCountOfInts(width, height);
      Err(if AllocCount(width, height) >= TWO63 then LengthError else NegativeSize)
    else Ok(Image(width, height, seq(width * height, _ => Raster.Pixel(0, 0, 0))))
  }

  /** No vector holds 2^63 elements: its `max_size` is at most `PTRDIFF_MAX`. */
  const TWO63: int := 0x8000_0000_0000_0000

  /** The element count the constructor sizes its buffer with:
      size_t(width) * size_t(height), wrapping modulo 2^64. */
  function AllocCount(width: int, height: int): (n: nat)
    ensures n < TWO64
  {
    SizeT(width) * SizeT(height) % TWO64
  }

  /** With a negative side, the wrapped count reaches 2^63 exactly when the
      other side is positive; two negative sides wrap back to their product. */
  lemma AllocCountOfInts(width: int, height: int)
    requires IsInt(width) && IsInt(height)
    requires width < 0 || height < 0
    ensures AllocCount(width, height) >= TWO63 <==> width > 0 || height > 0
    ensures width < 0 && height < 0 ==> AllocCount(width, height) == width * height
  {
    WrapSmall(width);
    WrapSmall(height);
    if width < 0 && height < 0 {
      Grid.MulMonotone(-width, TWO31, -height);
      Grid.MulMonotone(-height, TWO31, TWO31);
      assert width * height == (-width) * (-height);
      assert SizeT(width) * SizeT(height) == TWO64 * (width + height + TWO64) + width * height;
      ModShift(width * height, width + height + TWO64);
      WrapSmall(width * height);
    } else if width < 0 {
      ProductBounds(width, height);
      assert SizeT(width) * SizeT(height) == TWO64 * height + width * height;
      ModShift(width * height, height);
      WrapSmall(width * height);
    } else {
      ProductBounds(height, width);
      assert SizeT(width) * SizeT(height) == TWO64 * width + height * width;
      ModShift(height * width, width);
      WrapSmall(height * width);
    }
  }

  /** `static_cast<size_t>(v)`. */
  function SizeT(v: int): (s: nat)
    ensures s < TWO64
    ensures 0 <= v < TWO64 ==> s == v
  {
    v % TWO64
  }

  /** The flat index `GetPixel` and `SetPixel` compute: y*width + x in
      wrapping 64-bit unsigned arithmetic. */
  function FlatIndex(width: nat, x: int, y: int): (i: nat)
    ensures i < TWO64
  {
    (SizeT(y) * SizeT(width) % TWO64 + SizeT(x)) % TWO64
  }

  /** The wrapping computation agrees with y*width + x taken modulo 2^64. */
  lemma FlatIndexModular(width: nat, x: int, y: int)
    requires width < TWO64
    ensures FlatIndex(width, x, y) == (y * width + x) % TWO64
  {
    var qy, qx := y / TWO64, x / TWO64;
    var ry, rx := y % TWO64, x % TWO64;
    var qp := ry * width / TWO64;
    assert y == TWO64 * qy + ry && x == TWO64 * qx + rx;
    assert ry * width == TWO64 * qp + ry * width % TWO64;
    calc {
      y * width + x;
      (TWO64 * qy + ry) * width + TWO64 * qx + rx;
      { assert (TWO64 * qy + ry) * width == TWO64 * (qy * width) + ry * width; }
      TWO64 * (qy * width) + ry * width + TWO64 * qx + rx;
      TWO64 * (qy * width + qp + qx) + (ry * width % TWO64 + rx);
    }
    ModShift(ry * width % TWO64 + rx, qy * width + qp + qx);
  }

  lemma ModShift(a: int, q: int)
    ensures (TWO64 * q + a) % TWO64 == a % TWO64
  {
  }

  /** For 32-bit coordinates, the 64-bit flat index is y*width + x itself
      when that is non-negative, and lands at or above 2^64 - 2^62 - 2^31
      when it is negative. */
  lemma FlatIndexOfInts(width: nat, x: int, y: int)
    requires width < TWO31 && IsInt(x) && IsInt(y)
    ensures 0 <= y * width + x ==> FlatIndex(width, x, y) == y * width + x
    ensures y * width + x < 0 ==> FlatIndex(width, x, y) >= TWO64 - TWO31 * TWO31 - TWO31
  {
    FlatIndexModular(width, x, y);
    ProductBounds(y, width);
    WrapSmall(y * width + x);
  }

  /** Reducing modulo 2^64 keeps a small non-negative value and adds 2^64
      to a small negative one. */
  lemma WrapSmall(v: int)
    requires -(TWO31 * TWO31) - TWO31 <= v < TWO31 * TWO31 + TWO31
    ensures 0 <= v ==> v % TWO64 == v
    ensures v < 0 ==> v % TWO64 == v + TWO64
  {
    if v < 0 {
      ModShift(v + TWO64, -1);
    }
  }

  lemma ProductBounds(y: int, width: nat)
    requires IsInt(y) && width < TWO31
    ensures -(TWO31 * TWO31) <= y * width < TWO31 * TWO31
  {
    if y >= 0 {
      Grid.MulMonotone(y, TWO31, width);
      assert width * TWO31 < TWO31 * TWO31;
    } else {
      Grid.MulMonotone(-y, TWO31, width);
      assert width * TWO31 < TWO31 * TWO31;
    }
  }

  /** `GetPixel(x, y)`: the pixel at flat index y*width + x. */
  function GetPixel(img: Image, x: int, y: int): (r: Result<Pixel>)
    requires Valid(img) && IsInt(x) && IsInt(y)
    ensures r.Ok? <==> 0 <= y * img.width + x < img.width * img.height
    ensures r.Err? ==> r.error == OutOfRange
    ensures r.Ok? ==> r.value == img.data[y * img.width + x]
  {
    FlatIndexOfInts(img.width, x, y);
    ProductBounds(img.height, img.width);
    var i := FlatIndex(img.width, x, y);
    if i < |img.data| then Ok(img.data[i]) else Err(OutOfRange)
  }

  /** `SetPixel(x, y, p)`: replaces the pixel at flat index y*width + x. */
  function SetPixel(img: Image, x: int, y: int, p: Pixel): (r: Result<Image>)
    requires Valid(img) && IsInt(x) && IsInt(y)
    ensures r.Ok? <==> 0 <= y * img.width + x < img.width * img.height
    ensures r.Err? ==> r.error == OutOfRange
    ensures r.Ok? ==> Valid(r.value) && r.value.width == img.width && r.value.height == img.height
    ensures r.Ok? ==> |r.value.data| == |img.data| && r.value.data[y * img.width + x] == p
    ensures r.Ok? ==> forall i :: 0 <= i < |img.data| && i != y * img.width + x ==> r.value.data[i] == img.data[i]
  {
    FlatIndexOfInts(img.width, x, y);
    ProductBounds(img.height, img.width);
    var i := FlatIndex(img.width, x, y);
    if i < |img.data| then Ok(img.(data := img.data[i := p])) else Err(OutOfRange)
  }

  /** Reading back a pixel just written gives that pixel. */
  lemma SetThenGet(img: Image, x: int, y: int, p: Pixel)
    requires Valid(img) && IsInt(x) && IsInt(y)
    requires SetPixel(img, x, y, p).Ok?
    ensures GetPixel(SetPixel(img, x, y, p).value, x, y) == Ok(p)
  {
  }

  /** Writing one pixel leaves every other in-range pixel as it was. */
  lemma SetKeepsOthers(img: Image, x: int, y: int, p: Pixel, x': nat, y': nat)
    requires Valid(img) && IsInt(x) && IsInt(y)
    requires SetPixel(img, x, y, p).Ok?
    requires x' < img.width && y' < img.height && y' * img.width + x' != y * img.width + x
    ensures GetPixel(SetPixel(img, x, y, p).value, x', y') == GetPixel(img, x', y')
  {
    Grid.IndexInBounds(x', y', img.width, img.height);
  }

  /** In-range coordinates always succeed and address element y*width + x. */
  lemma GetInRange(img: Image, x: nat, y: nat)
    requires Valid(img) && x < img.width && y < img.height
    ensures Grid.Index(x, y, img.width) < |img.data|
    ensures GetPixel(img, x, y) == Ok(img.data[Grid.Index(x, y, img.width)])
  {
    Grid.IndexInBounds(x, y, img.width, img.height);
  }

  /** Only the flat index is checked: a column past the right edge of a row
      that is not the last one reads the next row's pixel. */
  lemma ColumnOverflow(img: Image, x: int, y: int)
    requires Valid(img) && IsInt(x) && IsInt(y) && IsInt(y + 1)
    requires img.width <= x
    ensures GetPixel(img, x, y) == GetPixel(img, x - img.width, y + 1)
  {
    assert y * img.width + x == (y + 1) * img.width + (x - img.width);
  }

  /** The pixel at in-range coordinates. */
  function At(img: Image, x: nat, y: nat): Pixel
    requires Valid(img) && x < img.width && y < img.height
  {
    Grid.IndexInBounds(x, y, img.width, img.height);
    img.data[Grid.Index(x, y, img.width)]
  }

  /** The image of the given size whose pixel (x, y) is f(x, y): what a
      filter's `SetPixel` loop over every coordinate leaves behind. */
  function Build(width: nat, height: nat, f: (nat, nat) --> Pixel): (img: Image)
    requires width < TWO31 && height < TWO31
    requires forall x: nat, y: nat :: x < width && y < height ==> f.requires(x, y)
    ensures Valid(img) && img.width == width && img.height == height
    ensures forall x: nat, y: nat :: x < width && y < height ==> At(img, x, y) == f(x, y)
  {
    Image(width, height, Grid.Tabulate(width, height, f))
  }

  /** Two valid images of the same size with the same pixels are equal. */
  lemma Extensionality(a: Image, b: Image)
    requires Valid(a) && Valid(b) && a.width == b.width && a.height == b.height
    requires forall x: nat, y: nat :: x < a.width && y < a.height ==> At(a, x, y) == At(b, x, y)
    ensures a == b
  {
    forall x: nat, y: nat | x < a.width && y < a.height
      ensures Grid.Index(x, y, a.width) < |a.data| && a.data[Grid.Index(x, y, a.width)] == b.data[Grid.Index(x, y, a.width)]
    {
      Grid.IndexInBounds(x, y, a.width, a.height);
      assert At(a, x, y) == At(b, x, y);
    }
    Grid.Extensional(a.data, b.data, a.width, a.height);
  }
}
