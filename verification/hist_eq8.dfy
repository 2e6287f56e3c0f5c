/** `HistEqFilter` of the 8-bit filters: histogram equalisation of the gray
    levels. The 256-bucket histogram of the levels gives a cumulative
    distribution; each pixel's level is remapped by where it sits in that
    distribution, and the output is gray. */
module HistEq {
  import opened Errors
  import opened LittleEndian
  import Grid
  import Raster
  import ByteImage
  import Utils

  type Pixel = Raster.Pixel<byte>

  const LEVELS: nat := 256

  /** The gray levels in row-major order: the `lum` vector. */
  function Levels(image: ByteImage.Image): (lum: seq<byte>)
    requires ByteImage.Valid(image)
    ensures |lum| == image.width * image.height
  {
    seq(|image.data|, i requires 0 <= i < |image.data| => Utils.GrayLevel(image.data[i]))
  }

  /** The loop over rows and columns visits pixel (x, y) as entry y*width + x. */
  lemma LevelsOrder(image: ByteImage.Image, x: nat, y: nat)
    requires ByteImage.Valid(image) && x < image.width && y < image.height
    ensures Grid.Index(x, y, image.width) < |Levels(image)|
    ensures Levels(image)[Grid.Index(x, y, image.width)] == Utils.GrayLevel(ByteImage.At(image, x, y))
  {
    Grid.IndexInBounds(x, y, image.width, image.height);
  }

  /** How many entries of `lum` equal `v`. */
  function Occurrences(lum: seq<byte>, v: nat): (c: nat)
    ensures c <= |lum|
  {
    if |lum| == 0 then 0
    else Occurrences(lum[..|lum| - 1], v) + (if lum[|lum| - 1] == v then 1 else 0)
  }

  /** How many entries of `lum` are below `k`. */
  function Below(lum: seq<byte>, k: nat): (c: nat)
    ensures c <= |lum|
  {
    if |lum| == 0 then 0
    else Below(lum[..|lum| - 1], k) + (if lum[|lum| - 1] < k then 1 else 0)
  }

  /** `hist`: bucket v counts the pixels of level v. */
  function Histogram(lum: seq<byte>): (hist: seq<nat>)
    ensures |hist| == LEVELS
    ensures forall v :: 0 <= v < LEVELS ==> hist[v] == Occurrences(lum, v)
  {
    seq(LEVELS, v requires 0 <= v < LEVELS => Occurrences(lum, v))
  }

  /** hist[0] + ... + hist[k-1], accumulated left to right. */
  function SumTo(hist: seq<nat>, k: nat): nat
    requires k <= |hist|
  {
    if k == 0 then 0 else SumTo(hist, k - 1) + hist[k - 1]
  }

  /** `cdf`: entry i is the running total after bucket i. */
  function Cdf(hist: seq<nat>): (cdf: seq<nat>)
    requires |hist| == LEVELS
    ensures |cdf| == LEVELS
    ensures forall i :: 0 <= i < LEVELS ==> cdf[i] == SumTo(hist, i + 1)
  {
    seq(LEVELS, i requires 0 <= i < LEVELS => SumTo(hist, i + 1))
  }

  /** Below(k+1) adds the entries equal to k to Below(k). */
  lemma {:induction false} BelowStep(lum: seq<byte>, k: nat)
    ensures Below(lum, k + 1) == Below(lum, k) + Occurrences(lum, k)
  {
    if |lum| > 0 {
      BelowStep(lum[..|lum| - 1], k);
    }
  }

  /** The first k buckets count the entries below k. */
  lemma {:induction false} SumToBelow(lum: seq<byte>, k: nat)
    requires k <= LEVELS
    ensures SumTo(Histogram(lum), k) == Below(lum, k)
  {
    if k > 0 {
      SumToBelow(lum, k - 1);
      BelowStep(lum, k - 1);
    } else {
      BelowNone(lum, 0);
    }
  }

  /** No entry lies below a bound that every entry reaches. */
  lemma {:induction false} BelowNone(lum: seq<byte>, k: nat)
    requires forall j :: 0 <= j < |lum| ==> lum[j] >= k
    ensures Below(lum, k) == 0
  {
    if |lum| > 0 {
      BelowNone(lum[..|lum| - 1], k);
    }
  }

  /** Every entry lies below a bound that every entry stays under. */
  lemma {:induction false} BelowAll(lum: seq<byte>, k: nat)
    requires forall j :: 0 <= j < |lum| ==> lum[j] < k
    ensures Below(lum, k) == |lum|
  {
    if |lum| > 0 {
      BelowAll(lum[..|lum| - 1], k);
    }
  }

  /** An entry below k is counted by Below(k). */
  lemma {:induction false} BelowPositive(lum: seq<byte>, j: nat, k: nat)
    requires j < |lum| && lum[j] < k
    ensures Below(lum, k) >= 1
  {
    if j < |lum| - 1 {
      BelowPositive(lum[..|lum| - 1], j, k);
    }
  }

  /** Cumulative counts never decrease. */
  lemma {:induction false} SumToMonotone(hist: seq<nat>, i: nat, j: nat)
    requires i <= j <= |hist|
    ensures SumTo(hist, i) <= SumTo(hist, j)
  {
    if i < j {
      SumToMonotone(hist, i, j - 1);
    }
  }

  /** A zero cumulative count means every bucket before it is empty. */
  lemma {:induction false} SumToZero(hist: seq<nat>, k: nat, v: nat)
    requires k <= |hist| && SumTo(hist, k) == 0 && v < k
    ensures hist[v] == 0
  {
    if v < k - 1 {
      SumToZero(hist, k - 1, v);
    }
  }

  /** The histogram accounts for every pixel, the distribution never
      decreases, and its last entry is the pixel count. */
  lemma CdfShape(lum: seq<byte>)
    ensures SumTo(Histogram(lum), LEVELS) == |lum|
    ensures forall i, j :: 0 <= i <= j < LEVELS ==> Cdf(Histogram(lum))[i] <= Cdf(Histogram(lum))[j]
    ensures Cdf(Histogram(lum))[LEVELS - 1] == |lum|
  {
    var hist := Histogram(lum);
    SumToBelow(lum, LEVELS);
    BelowAll(lum, LEVELS);
    forall i, j | 0 <= i <= j < LEVELS ensures Cdf(hist)[i] <= Cdf(hist)[j] {
      SumToMonotone(hist, i + 1, j + 1);
    }
  }

  /** Entry i of the distribution counts the pixels of level at most i. */
  lemma CdfCountsAtMost(lum: seq<byte>, i: nat)
    requires i < LEVELS
    ensures Cdf(Histogram(lum))[i] == Below(lum, i + 1)
  {
    SumToBelow(lum, i + 1);
  }

  /** The first non-empty bucket at or after `i`, as the `break` loop finds it. */
  function FirstOccupied(hist: seq<nat>, i: nat): (r: Option<nat>)
    requires |hist| == LEVELS && i <= LEVELS
    ensures r.Some? ==> i <= r.value < LEVELS && hist[r.value] != 0
    ensures r.Some? ==> forall k :: i <= k < r.value ==> hist[k] == 0
    ensures r.None? ==> forall k :: i <= k < LEVELS ==> hist[k] == 0
    decreases LEVELS - i
  {
    if i == LEVELS then None
    else if hist[i] != 0 then Some(i)
    else FirstOccupied(hist, i + 1)
  }

  /** `cdf_min`: the distribution at the smallest occupied level, 0 when
      there are no pixels. */
  function CdfMin(hist: seq<nat>): nat
    requires |hist| == LEVELS
  {
    match FirstOccupied(hist, 0)
    case Some(j) => SumTo(hist, j + 1)
    case None => 0
  }

  /** The smallest level present is the first occupied bucket, and `cdf_min`
      counts the pixels of that level, so it is at least 1. */
  lemma CdfMinAtSmallest(lum: seq<byte>, k: nat)
    requires k < |lum| && forall j :: 0 <= j < |lum| ==> lum[k] <= lum[j]
    ensures FirstOccupied(Histogram(lum), 0) == Some(lum[k] as nat)
    ensures CdfMin(Histogram(lum)) == Cdf(Histogram(lum))[lum[k]]
    ensures CdfMin(Histogram(lum)) >= 1
  {
    var hist := Histogram(lum);
    var t := lum[k] as nat;
    BelowNone(lum, t);
    SumToBelow(lum, t);
    BelowPositive(lum, k, t + 1);
    BelowStep(lum, t);
    assert hist[t] != 0;
    forall v | 0 <= v < t ensures hist[v] == 0 {
      SumToZero(hist, t, v);
    }
    SumToBelow(lum, t + 1);
  }

  /** Every level present is at or after the first occupied bucket, so its
      distribution value is at least `cdf_min`. */
  lemma CdfAtLeastMin(lum: seq<byte>, k: nat)
    requires k < |lum|
    ensures Cdf(Histogram(lum))[lum[k]] >= CdfMin(Histogram(lum))
  {
    var hist := Histogram(lum);
    var t := lum[k] as nat;
    BelowPositive(lum, k, t + 1);
    BelowStep(lum, t);
    BelowOccurrence(lum, k);
    assert hist[t] != 0;
    match FirstOccupied(hist, 0)
    case Some(j) =>
      assert j <= t;
      SumToMonotone(hist, j + 1, t + 1);
    case None =>
  }

  /** A level that occurs has a non-empty bucket. */
  lemma {:induction false} BelowOccurrence(lum: seq<byte>, k: nat)
    requires k < |lum|
    ensures Occurrences(lum, lum[k]) >= 1
  {
    if k < |lum| - 1 {
      BelowOccurrence(lum[..|lum| - 1], k);
    }
  }

  /** `lround(255 a / b)` over exact reals, for 0 <= a <= b: the nearest
      integer to 255 a / b, halves rounded up. */
  function Round255(a: nat, b: nat): (m: nat)
    requires 0 < b && a <= b
    ensures m <= 255
    ensures 2 * b * m <= 510 * a + b < 2 * b * m + 2 * b
  {
    var m := (510 * a + b) / (2 * b);
    DivBounds(510 * a + b, 2 * b);
    MulBelow(2 * b, m, 256);
    m
  }

  lemma DivBounds(q: nat, d: nat)
    requires d > 0
    ensures d * (q / d) <= q < d * (q / d) + d
  {
  }

  /** d m < d k with d > 0 gives m < k. */
  lemma MulBelow(d: nat, m: nat, k: nat)
    requires d > 0 && d * m < d * k
    ensures m < k
  {
    if m >= k {
      MulAtLeast(d, m, k);
    }
  }

  lemma MulAtLeast(d: nat, m: nat, k: nat)
    requires m >= k
    ensures d * m >= d * k
  {
    assert d * m == d * k + d * (m - k);
  }

  /** Rounding the larger of two ratios never gives the smaller result. */
  lemma Round255Monotone(a1: nat, a2: nat, b: nat)
    requires 0 < b && a1 <= a2 <= b
    ensures Round255(a1, b) <= Round255(a2, b)
  {
    var m1, m2 := Round255(a1, b), Round255(a2, b);
    MulBelow(2 * b, m1, m2 + 1);
  }

  /** The largest ratio, 255 b / b, rounds to 255. */
  lemma Round255Full(b: nat)
    requires 0 < b
    ensures Round255(b, b) == 255
  {
    var m := Round255(b, b);
    if m < 255 {
      MulAtLeast(2 * b, 254, m);
    }
  }

  /** The equalised level of a pixel of level v. */
  function Remap(hist: seq<nat>, n: nat, v: byte): (m: byte)
    requires |hist| == LEVELS && n > CdfMin(hist)
    requires CdfMin(hist) <= Cdf(hist)[v] <= n
  {
    Utils.ClampU8(Round255(Cdf(hist)[v] - CdfMin(hist), n - CdfMin(hist)))
  }

  /** The remap is what the equalisation filter needs: gray levels without
      pixels (`n == cdf_min`, a uniform or empty image) divide 0 by 0, which
      the source does not guard; only images with at least two levels or
      no pixels at all are covered. */
  predicate Remappable(image: ByteImage.Image)
    requires ByteImage.Valid(image)
  {
    var lum := Levels(image);
    |lum| == 0 || |lum| > CdfMin(Histogram(lum))
  }

  /** An entry at or above k is not counted by Below(k). */
  lemma {:induction false} BelowMissing(lum: seq<byte>, j: nat, k: nat)
    requires j < |lum| && lum[j] >= k
    ensures Below(lum, k) < |lum|
  {
    if j < |lum| - 1 {
      BelowMissing(lum[..|lum| - 1], j, k);
    }
  }

  /** With lum[k] the smallest level, the remap is defined exactly when some
      pixel has another level. */
  lemma RemappableIffTwoLevels(lum: seq<byte>, k: nat)
    requires k < |lum| && forall j :: 0 <= j < |lum| ==> lum[k] <= lum[j]
    ensures |lum| > CdfMin(Histogram(lum)) <==> exists j :: 0 <= j < |lum| && lum[j] != lum[k]
  {
    CdfMinAtSmallest(lum, k);
    CdfCountsAtMost(lum, lum[k]);
    if j :| 0 <= j < |lum| && lum[j] != lum[k] {
      BelowMissing(lum, j, lum[k] as nat + 1);
    } else {
      BelowAll(lum, lum[k] as nat + 1);
    }
  }

  /** The equalised level of entry k of `lum`. */
  function RemapEntry(lum: seq<byte>, k: nat): (m: byte)
    requires k < |lum| && |lum| > CdfMin(Histogram(lum))
  {
    CdfAtLeastMin(lum, k);
    CdfShape(lum);
    Remap(Histogram(lum), |lum|, lum[k])
  }

  /** `HistEqFilter::Apply`: same size, every pixel gray at its equalised level. */
  function Apply(image: ByteImage.Image): (out: ByteImage.Image)
    requires ByteImage.Valid(image) && Remappable(image)
    ensures ByteImage.Valid(out) && out.width == image.width && out.height == image.height
    ensures forall x: nat, y: nat :: x < image.width && y < image.height ==>
      ByteImage.At(out, x, y) == Equalised(image, x, y)
  {
    ByteImage.Build(image.width, image.height, (x: nat, y: nat) requires x < image.width && y < image.height =>
      Equalised(image, x, y))
  }

  /** The output pixel for (x, y): gray, at the equalised level of the
      pixel's entry in `lum`. */
  function Equalised(image: ByteImage.Image, x: nat, y: nat): (p: Pixel)
    requires ByteImage.Valid(image) && Remappable(image) && x < image.width && y < image.height
    ensures Grid.Index(x, y, image.width) < |Levels(image)|
    ensures p.r == p.g == p.b == RemapEntry(Levels(image), Grid.Index(x, y, image.width))
  {
    Grid.IndexInBounds(x, y, image.width, image.height);
    var m := RemapEntry(Levels(image), Grid.Index(x, y, image.width));
    Raster.Pixel(m, m, m)
  }

  /** Pixels of the smallest level map to 0. */
  lemma SmallestMapsToZero(lum: seq<byte>, k: nat)
    requires k < |lum| && |lum| > CdfMin(Histogram(lum))
    requires forall j :: 0 <= j < |lum| ==> lum[k] <= lum[j]
    ensures RemapEntry(lum, k) == 0
  {
    CdfMinAtSmallest(lum, k);
  }

  /** Pixels of the largest level map to 255. */
  lemma LargestMapsTo255(lum: seq<byte>, k: nat)
    requires k < |lum| && |lum| > CdfMin(Histogram(lum))
    requires forall j :: 0 <= j < |lum| ==> lum[j] <= lum[k]
    ensures RemapEntry(lum, k) == 255
  {
    CdfCountsAtMost(lum, lum[k]);
    BelowAll(lum, lum[k] as nat + 1);
    CdfAtLeastMin(lum, k);
    Round255Full(|lum| - CdfMin(Histogram(lum)));
  }

  /** A lower level never maps higher. */
  lemma RemapMonotone(lum: seq<byte>, i: nat, j: nat)
    requires i < |lum| && j < |lum| && |lum| > CdfMin(Histogram(lum))
    requires lum[i] <= lum[j]
    ensures RemapEntry(lum, i) <= RemapEntry(lum, j)
  {
    var hist := Histogram(lum);
    CdfShape(lum);
    CdfAtLeastMin(lum, i);
    CdfAtLeastMin(lum, j);
    Round255Monotone(Cdf(hist)[lum[i]] - CdfMin(hist), Cdf(hist)[lum[j]] - CdfMin(hist), |lum| - CdfMin(hist));
  }
}
