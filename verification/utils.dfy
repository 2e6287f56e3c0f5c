/** The helpers shared by the 8-bit filters: integer clamps, edge-replicating
    pixel access, rounded luma, and the shape of the 1-D Gaussian kernel. */
module Utils {
  import opened Errors
  import opened LittleEndian
  import Grid
  import Raster
  import ByteImage

  type Pixel = Raster.Pixel<byte>

  /** `ClampInt(v, lo, hi)`: max(lo, min(v, hi)). */
  function ClampInt(v: int, lo: int, hi: int): (c: int)
    ensures lo <= hi ==> lo <= c <= hi
    ensures lo <= v <= hi ==> c == v
    ensures v < lo ==> c == lo
    ensures lo <= hi < v ==> c == hi
    ensures hi < lo ==> c == lo
  {
    var m := if v < hi then v else hi;
    if lo < m then m else lo
  }

  /** `ClampU8(v)`: v saturated to a byte. */
  function ClampU8(v: int): (c: byte)
    ensures 0 <= v <= 255 ==> c == v
    ensures v < 0 ==> c == 0
    ensures v > 255 ==> c == 255
  {
    if v < 0 then 0 else if v > 255 then 255 else v
  }

  /** ClampU8 never moves values apart: it is monotone. */
  lemma ClampU8Monotone(a: int, b: int)
    requires a <= b
    ensures ClampU8(a) <= ClampU8(b)
  {
  }

  /** The weighted sum 1000 * (0.299 r + 0.587 g + 0.114 b), an integer. */
  function LumaMilli(p: Pixel): (m: nat)
    ensures m <= 255000
  {
    299 * p.r + 587 * p.g + 114 * p.b
  }

  /** `lround(0.299 r + 0.587 g + 0.114 b)` over exact reals: the nearest
      integer, halves rounded up. */
  function Luma8(p: Pixel): (l: nat)
    ensures l <= 255
    ensures 1000 * l - 500 <= LumaMilli(p) < 1000 * l + 500
  {
    (LumaMilli(p) + 500) / 1000
  }

  /** `ClampU8(lround(0.299 r + 0.587 g + 0.114 b))`: the gray level both
      the edge and the equalisation filter compute; the clamp never bites. */
  function GrayLevel(p: Pixel): (g: byte)
    ensures g == Luma8(p)
  {
    ClampU8(Luma8(p))
  }

  /** A gray pixel keeps its level. */
  lemma Luma8OfGray(v: byte)
    ensures Luma8(Raster.Pixel(v, v, v)) == v
  {
  }

  /** A darker pixel in every channel never has a higher luma. */
  lemma Luma8Monotone(p: Pixel, q: Pixel)
    requires p.r <= q.r && p.g <= q.g && p.b <= q.b
    ensures Luma8(p) <= Luma8(q)
  {
  }

  /** The nearest index of an axis of length n > 0 to coordinate v: the
      edge replication rule of `GetClamped`. */
  function Nearest(v: int, n: nat): (c: nat)
    requires n > 0
    ensures c < n
    ensures 0 <= v < n ==> c == v
    ensures v < 0 ==> c == 0
    ensures v >= n ==> c == n - 1
  {
    ClampInt(v, 0, n - 1)
  }

  /** `GetClamped(img, x, y)`: the pixel at the coordinates clamped into the
      image. Only an image without pixels makes the access fail. */
  function GetClamped(img: ByteImage.Image, x: int, y: int): (r: Result<Pixel>)
    requires ByteImage.Valid(img)
    ensures r.Ok? <==> img.width > 0 && img.height > 0
    ensures r.Err? ==> r.error == OutOfRange
    ensures r.Ok? ==> r.value == ByteImage.At(img, Nearest(x, img.width), Nearest(y, img.height))
  {
    var cx := ClampInt(x, 0, img.width - 1);
    var cy := ClampInt(y, 0, img.height - 1);
    if img.width > 0 && img.height > 0 then
      ByteImage.GetInRange(img, cx, cy);
      ByteImage.GetPixel(img, cx, cy)
    else
      // The buffer is empty, so no flat index is inside it.
      assert img.width * img.height == 0;
      ByteImage.GetPixel(img, cx, cy)
  }

  /** In range, `GetClamped` is plain `GetPixel`. */
  lemma GetClampedInRange(img: ByteImage.Image, x: nat, y: nat)
    requires ByteImage.Valid(img) && x < img.width && y < img.height
    ensures GetClamped(img, x, y) == ByteImage.GetPixel(img, x, y)
  {
    ByteImage.GetInRange(img, x, y);
  }

  /** Out of range, `GetClamped` repeats the edge row or column. */
  lemma GetClampedEdges(img: ByteImage.Image, x: int, y: int)
    requires ByteImage.Valid(img)
    requires img.width > 0 && img.height > 0
    ensures x < 0 ==> GetClamped(img, x, y) == GetClamped(img, 0, y)
    ensures x >= img.width ==> GetClamped(img, x, y) == GetClamped(img, img.width - 1, y)
    ensures y < 0 ==> GetClamped(img, x, y) == GetClamped(img, x, 0)
    ensures y >= img.height ==> GetClamped(img, x, y) == GetClamped(img, x, img.height - 1)
  {
  }

  // ---------------------------------------------------------------------
  // Sums and the Gaussian kernel

  lemma MulUnit(a: real, w: real)
    requires w == 1.0
    ensures a * w == a
  {
  }

  lemma MulZero(a: real, w: real)
    requires w == 0.0
    ensures a * w == 0.0
  {
  }

  /** Left-to-right sum, the order of a `sum += v` loop. */
  function Sum(s: seq<real>): real {
    if |s| == 0 then 0.0 else Sum(s[..|s| - 1]) + s[|s| - 1]
  }

  /** Every element divided by `t`. */
  function Scale(s: seq<real>, t: real): (r: seq<real>)
    requires t != 0.0
    ensures |r| == |s| && forall i :: 0 <= i < |s| ==> r[i] * t == s[i]
  {
    seq(|s|, i requires 0 <= i < |s| => s[i] / t)
  }

  /** Dividing every term by t divides the sum by t. */
  lemma {:induction false} SumScale(s: seq<real>, t: real)
    requires t != 0.0
    ensures Sum(Scale(s, t)) * t == Sum(s)
  {
    if |s| > 0 {
      var n := |s| - 1;
      assert Scale(s, t)[..n] == Scale(s[..n], t);
      SumScale(s[..n], t);
      assert Sum(Scale(s, t)) * t == Sum(Scale(s[..n], t)) * t + Scale(s, t)[n] * t;
    }
  }

  /** A sum of positive terms over a non-empty sequence is positive. */
  lemma {:induction false} SumPositive(s: seq<real>)
    requires |s| > 0 && forall i :: 0 <= i < |s| ==> s[i] > 0.0
    ensures Sum(s) > 0.0
  {
    if |s| > 1 {
      SumPositive(s[..|s| - 1]);
    }
  }

  /** The smallest integer at or above x. */
  function Ceil(x: real): (c: int)
    ensures (c - 1) as real < x <= c as real
  {
    -((-x).Floor)
  }

  /** The radius `static_cast<int>(ceil(3 sigma))`. */
  function KernelRadius(sigma: real): (r: int)
    ensures sigma > 0.0 ==> r >= 1
    ensures 3.0 * sigma <= r as real < 3.0 * sigma + 1.0
  {
    Ceil(3.0 * sigma)
  }

  /** The unnormalised weights weight(-r) .. weight(r). */
  function RawWeights(radius: nat, weight: int -> real): (w: seq<real>)
    ensures |w| == 2 * radius + 1
    ensures forall i :: 0 <= i < |w| ==> w[i] == weight(i - radius)
  {
    seq(2 * radius + 1, i => weight(i - radius))
  }

  /** The weights divided by their total: positive, proportional to the
      weights, and summing to 1. */
  function Normalize(raw: seq<real>): (k: seq<real>)
    requires |raw| > 0 && forall i :: 0 <= i < |raw| ==> raw[i] > 0.0
    ensures |k| == |raw|
    ensures forall i :: 0 <= i < |k| ==> k[i] > 0.0 && k[i] * Sum(raw) == raw[i]
    ensures Sum(k) == 1.0
  {
    SumPositive(raw);
    ScalePositive(raw, Sum(raw));
    ScaleByTotal(raw);
    Scale(raw, Sum(raw))
  }

  /** Dividing positive terms by a positive t keeps them positive. */
  lemma ScalePositive(s: seq<real>, t: real)
    requires t > 0.0 && forall i :: 0 <= i < |s| ==> s[i] > 0.0
    ensures forall i :: 0 <= i < |s| ==> Scale(s, t)[i] > 0.0
  {
    var k := Scale(s, t);
    forall i | 0 <= i < |s| ensures k[i] > 0.0 {
      PositiveFactor(k[i], t, s[i]);
    }
  }

  lemma PositiveFactor(a: real, t: real, b: real)
    requires t > 0.0 && a * t == b && b > 0.0
    ensures a > 0.0
  {
  }

  /** Dividing by a positive total leaves terms summing to 1. */
  lemma ScaleByTotal(s: seq<real>)
    requires Sum(s) > 0.0
    ensures Sum(Scale(s, Sum(s))) == 1.0
  {
    var total := Sum(s);
    SumScale(s, total);
    Cancel(Sum(Scale(s, total)), 1.0, total);
  }

  lemma Cancel(a: real, b: real, t: real)
    requires t > 0.0 && a * t == b * t
    ensures a == b
  {
  }

  /** 2^30: the smallest radius whose `2 * radius + 1` overflows `int`. */
  const TWO30: nat := 0x4000_0000

  /** `size = 2 * radius + 1` evaluated in 32-bit `int`, wrapping in two's
      complement. */
  function KernelSize(radius: nat): (n: int)
    ensures radius < TWO30 ==> n == 2 * radius + 1
    ensures TWO30 <= radius < TWO31 ==> n < 0
  {
    ToInt32(2 * radius + 1)
  }

  /** The kernel vector is sized with a negative `int`, which converts to a
      `size_t` of at least 2^63, beyond every `max_size`: `length_error`.
      From a radius of 2^31 the conversion of ceil(3 sigma) to `int` is
      itself undefined, and that range is not covered. */
  predicate KernelTooLarge(sigma: real) {
    sigma > 0.0 && KernelRadius(sigma) < TWO31 && KernelSize(KernelRadius(sigma)) < 0
  }

  /** Every sigma up to 357913941 gives a kernel; above it, up to the
      undefined range, the size overflows and the kernel cannot be built. */
  lemma SigmaLimit(sigma: real)
    ensures 0.0 < sigma <= 357913941.0 ==> !KernelTooLarge(sigma)
    ensures 357913941.0 < sigma <= 715827882.0 ==> KernelTooLarge(sigma)
  {
    var r := KernelRadius(sigma);
    if 0.0 < sigma <= 357913941.0 {
      assert (r as real) < 1073741824.0;
    }
    if 357913941.0 < sigma <= 715827882.0 {
      assert (r as real) > 1073741823.0 && (r as real) < 2147483647.0;
    }
  }

  /** `GaussianKernel1D(sigma)` with the weight of offset i, exp of
      -(i * i) / (2 sigma^2), passed in as `weight`: [1.0] when sigma <= 0, a
      `length_error` when the size overflows, otherwise the 2r+1 weights for
      offsets -r .. r divided by their total. Only the weights of those
      offsets need be positive. */
  function GaussianKernel1D(sigma: real, weight: int -> real): (r: Result<seq<real>>)
    requires forall i :: -KernelRadius(sigma) <= i <= KernelRadius(sigma) ==> weight(i) > 0.0
    ensures r.Err? <==> KernelTooLarge(sigma)
    ensures r.Err? ==> r.error == LengthError
    ensures sigma <= 0.0 ==> r == Ok([1.0])
    ensures r.Ok? && sigma > 0.0 ==> |r.value| == 2 * KernelRadius(sigma) + 1
    ensures r.Ok? && sigma > 0.0 ==> forall i :: 0 <= i < |r.value| ==>
      r.value[i] > 0.0 && r.value[i] * Sum(RawWeights(KernelRadius(sigma), weight)) == weight(i - KernelRadius(sigma))
    ensures r.Ok? ==> Sum(r.value) == 1.0
  {
    if sigma <= 0.0 then
      assert Sum([1.0]) == Sum([]) + 1.0;
      Ok([1.0])
    else if KernelTooLarge(sigma) then
      Err(LengthError)
    else
      Ok(Normalize(RawWeights(KernelRadius(sigma), weight)))
  }
}
