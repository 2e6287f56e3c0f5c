/** `CropFilter` of the 8-bit filters: keeps the top-left corner of the
    image. The constructor accepts any size; a negative one only fails when
    the output image is constructed. */
module Crop {
  import opened Errors
  import ByteImage
  import Grid
  import LittleEndian

  datatype CropFilter = CropFilter(width: int, height: int)

  /** The sizes come from `int` constructor arguments; the constructor
      checks nothing else. */
  predicate Valid(f: CropFilter) {
    ByteImage.IsInt(f.width) && ByteImage.IsInt(f.height)
  }

  /** `CropFilter::Apply`: the min(width, old width) by min(height, old
      height) top-left region; a negative requested size makes the output
      `Image` constructor fail, in its buffer when the other output side is
      positive. */
  function Apply(f: CropFilter, image: ByteImage.Image): (r: Result<ByteImage.Image>)
    requires Valid(f) && ByteImage.Valid(image)
    ensures r.Err? <==> f.width < 0 || f.height < 0
    ensures r.Err? ==>
      r.error == (if Grid.Min(f.width, image.width) > 0 || Grid.Min(f.height, image.height) > 0 then LengthError else NegativeSize)
    ensures r.Ok? ==> ByteImage.Valid(r.value)
    ensures r.Ok? ==> r.value.width == Grid.Min(f.width, image.width) && r.value.height == Grid.Min(f.height, image.height)
    ensures r.Ok? ==> forall x: nat, y: nat :: x < r.value.width && y < r.value.height ==>
      ByteImage.At(r.value, x, y) == ByteImage.At(image, x, y)
  {
    var w := Grid.Min(f.width, image.width);
    var h := Grid.Min(f.height, image.height);
    var out :- ByteImage.New(w, h);
    Ok(ByteImage.Build(w, h, (x: nat, y: nat) requires x < w && y < h => ByteImage.At(image, x, y)))
  }

  /** A requested size at least the image's leaves the image unchanged. */
  lemma CropCoversImage(f: CropFilter, image: ByteImage.Image)
    requires Valid(f) && ByteImage.Valid(image)
    requires f.width >= image.width && f.height >= image.height
    ensures Apply(f, image) == Ok(image)
  {
    ByteImage.Extensionality(Apply(f, image).value, image);
  }

  /** Cropping twice with the same filter is cropping once. */
  lemma CropIdempotent(f: CropFilter, image: ByteImage.Image)
    requires Valid(f) && ByteImage.Valid(image)
    requires Apply(f, image).Ok?
    ensures Apply(f, Apply(f, image).value) == Apply(f, image)
  {
    CropCoversImage(f, Apply(f, image).value);
  }

  /** A requested size of zero yields an image without pixels. */
  lemma CropToZero(image: ByteImage.Image, height: int)
    requires ByteImage.Valid(image) && 0 <= height < LittleEndian.TWO31
    ensures Apply(CropFilter(0, height), image).Ok?
    ensures |Apply(CropFilter(0, height), image).value.data| == 0
  {
  }
}
