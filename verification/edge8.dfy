/** `EdgeFilter` of the 8-bit filters: a grayscale pass, then the integer
    4-neighbour Laplacian clamped to 0..255 and compared with a threshold in
    [0, 1]; the output is black or white. */
module Edge {
  import opened Errors
  import opened LittleEndian
  import Raster
  import ByteImage
  import Utils

  type Pixel = Raster.Pixel<byte>

  const White: Pixel := Raster.Pixel(255, 255, 255)
  const Black: Pixel := Raster.Pixel(0, 0, 0)

  datatype EdgeFilter = EdgeFilter(threshold: real)

  /** `EdgeFilter(threshold01)`: the threshold must lie in [0, 1]. */
  function MakeEdge(threshold: real): (r: Result<EdgeFilter>)
    ensures r.Err? <==> threshold < 0.0 || threshold > 1.0
    ensures r.Err? ==> r.error == ThresholdOutOfRange
    ensures r.Ok? ==> r.value.threshold == threshold && 0.0 <= threshold <= 1.0
  {
    if threshold < 0.0 || threshold > 1.0 then Err(ThresholdOutOfRange) else Ok(EdgeFilter(threshold))
  }

  /** The grayscale pass: every pixel replaced by its gray level in all
      three channels. */
  function Gray(image: ByteImage.Image): (gray: ByteImage.Image)
    requires ByteImage.Valid(image)
    ensures ByteImage.Valid(gray) && gray.width == image.width && gray.height == image.height
    ensures forall x: nat, y: nat :: x < image.width && y < image.height ==>
      var g := Utils.GrayLevel(ByteImage.At(image, x, y));
      ByteImage.At(gray, x, y) == Raster.Pixel(g, g, g)
  {
    ByteImage.Build(image.width, image.height, (x: nat, y: nat) requires x < image.width && y < image.height =>
      var g := Utils.GrayLevel(ByteImage.At(image, x, y));
      Raster.Pixel(g, g, g))
  }

  /** The red channel of the gray image at (x, y), edges replicated. */
  function Level(gray: ByteImage.Image, x: int, y: int): byte
    requires ByteImage.Valid(gray) && gray.width > 0 && gray.height > 0
  {
    Utils.GetClamped(gray, x, y).value.r
  }

  /** 4 c - left - right - up - down. */
  function Response(gray: ByteImage.Image, x: nat, y: nat): (v: int)
    requires ByteImage.Valid(gray) && gray.width > 0 && gray.height > 0
    ensures -1020 <= v <= 1020
  {
    4 * Level(gray, x, y) - Level(gray, x - 1, y) - Level(gray, x + 1, y)
      - Level(gray, x, y - 1) - Level(gray, x, y + 1)
  }

  /** The response clamped to 0..255 and scaled to [0, 1]. */
  function Strength(gray: ByteImage.Image, x: nat, y: nat): (s: real)
    requires ByteImage.Valid(gray) && gray.width > 0 && gray.height > 0
    ensures 0.0 <= s <= 1.0
  {
    Utils.ClampInt(Response(gray, x, y), 0, 255) as real / 255.0
  }

  /** `EdgeFilter::Apply`: white where the strength exceeds the threshold,
      black elsewhere. */
  function Apply(f: EdgeFilter, image: ByteImage.Image): (out: ByteImage.Image)
    requires ByteImage.Valid(image)
    ensures ByteImage.Valid(out) && out.width == image.width && out.height == image.height
    ensures forall x: nat, y: nat :: x < image.width && y < image.height ==>
      ByteImage.At(out, x, y) == (if Strength(Gray(image), x, y) > f.threshold then White else Black)
  {
    var gray := Gray(image);
    ByteImage.Build(image.width, image.height, (x: nat, y: nat) requires x < image.width && y < image.height =>
      if Strength(gray, x, y) > f.threshold then White else Black)
  }

  /** For a threshold t in [0, 1), a pixel is white exactly when the raw
      Laplacian response exceeds 255 t: the clamp never changes the decision. */
  lemma WhiteIffResponseAbove(f: EdgeFilter, image: ByteImage.Image, x: nat, y: nat)
    requires ByteImage.Valid(image) && x < image.width && y < image.height
    requires 0.0 <= f.threshold < 1.0
    ensures ByteImage.At(Apply(f, image), x, y) == White <==>
      Response(Gray(image), x, y) as real > 255.0 * f.threshold
  {
    var v := Response(Gray(image), x, y);
    var c := Utils.ClampInt(v, 0, 255);
    assert c as real / 255.0 > f.threshold <==> c as real > 255.0 * f.threshold;
  }

  /** A threshold of 1 turns every image black. */
  lemma ThresholdOneAllBlack(image: ByteImage.Image, x: nat, y: nat)
    requires ByteImage.Valid(image) && x < image.width && y < image.height
    ensures ByteImage.At(Apply(EdgeFilter(1.0), image), x, y) == Black
  {
  }

  /** Where the gray levels of a pixel and its four neighbours agree, the
      response is 0. */
  lemma FlatResponse(gray: ByteImage.Image, x: nat, y: nat)
    requires ByteImage.Valid(gray) && gray.width > 0 && gray.height > 0
    requires Level(gray, x - 1, y) == Level(gray, x, y) && Level(gray, x + 1, y) == Level(gray, x, y)
    requires Level(gray, x, y - 1) == Level(gray, x, y) && Level(gray, x, y + 1) == Level(gray, x, y)
    ensures Response(gray, x, y) == 0 && Strength(gray, x, y) == 0.0
  {
  }

  /** Every clamped read of the gray image of a uniform image gives the
      same level. */
  lemma UniformLevel(image: ByteImage.Image, q: Pixel, a: int, b: int)
    requires ByteImage.Valid(image) && image.width > 0 && image.height > 0
    requires forall i :: 0 <= i < |image.data| ==> image.data[i] == q
    ensures Level(Gray(image), a, b) == Utils.GrayLevel(q)
  {
    var gray := Gray(image);
    var cx, cy := Utils.Nearest(a, image.width), Utils.Nearest(b, image.height);
    ByteImage.GetInRange(image, cx, cy);
    assert ByteImage.At(image, cx, cy) == q;
  }

  /** A uniform image becomes all black for every threshold t >= 0. */
  lemma UniformAllBlack(f: EdgeFilter, image: ByteImage.Image, q: Pixel, x: nat, y: nat)
    requires ByteImage.Valid(image) && x < image.width && y < image.height
    requires forall i :: 0 <= i < |image.data| ==> image.data[i] == q
    requires f.threshold >= 0.0
    ensures ByteImage.At(Apply(f, image), x, y) == Black
  {
    UniformLevel(image, q, x, y);
    UniformLevel(image, q, x - 1, y);
    UniformLevel(image, q, x + 1, y);
    UniformLevel(image, q, x, y - 1);
    UniformLevel(image, q, x, y + 1);
    FlatResponse(Gray(image), x, y);
  }
}
