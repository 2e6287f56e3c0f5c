/** `ConvolutionFilter` of src/filter_factory.cpp and the two filters built
    on it: sharpen (a fixed kernel) and edge detection (grayscale, then the
    Laplacian kernel, then a threshold on the red channel). */
module Convolution {
  import opened Errors
  import Raster
  import Utils
  import opened FloatHelpers
  import FloatFilters

  type Kernel = seq<seq<real>>

  /** Every row has the width of the first. */
  predicate Rectangular(k: Kernel)
    requires |k| > 0
  {
    forall i :: 0 <= i < |k| ==> |k[i]| == |k[0]|
  }

  /** What the constructor accepts: non-empty, rectangular, odd by odd. */
  predicate WellFormed(k: Kernel) {
    && |k| > 0 && |k[0]| > 0
    && Rectangular(k)
    && |k| % 2 == 1 && |k[0]| % 2 == 1
  }

  datatype ConvolutionFilter = ConvolutionFilter(kernel: Kernel)

  /** `ConvolutionFilter(kernel)`: the first failing check decides the error. */
  function MakeConvolution(kernel: Kernel): (r: Result<ConvolutionFilter>)
    ensures r.Ok? <==> WellFormed(kernel)
    ensures r.Ok? ==> r.value.kernel == kernel
    ensures (|kernel| == 0 || |kernel[0]| == 0) ==> r == Err(EmptyKernel)
    ensures |kernel| > 0 && |kernel[0]| > 0 && !Rectangular(kernel) ==> r == Err(RaggedKernel)
    ensures |kernel| > 0 && |kernel[0]| > 0 && Rectangular(kernel) && !WellFormed(kernel) ==> r == Err(EvenKernel)
  {
    if |kernel| == 0 || |kernel[0]| == 0 then Err(EmptyKernel)
    else if exists i :: 0 <= i < |kernel| && |kernel[i]| != |kernel[0]| then Err(RaggedKernel)
    else if |kernel| % 2 == 0 || |kernel[0]| % 2 == 0 then Err(EvenKernel)
    else Ok(ConvolutionFilter(kernel))
  }

  // ---------------------------------------------------------------------
  // Sums in loop order

  /** The rows laid end to end: the order of the two nested loops. */
  function Flatten(rows: seq<seq<real>>): (s: seq<real>) {
    if |rows| == 0 then [] else Flatten(rows[..|rows| - 1]) + rows[|rows| - 1]
  }

  lemma {:induction false} SumConcat(a: seq<real>, b: seq<real>)
    ensures Utils.Sum(a + b) == Utils.Sum(a) + Utils.Sum(b)
  {
    if |b| > 0 {
      assert (a + b)[..|a + b| - 1] == a + b[..|b| - 1];
      SumConcat(a, b[..|b| - 1]);
    } else {
      assert a + b == a;
    }
  }

  /** The sum of each row's sum. */
  function RowSums(rows: seq<seq<real>>): (s: seq<real>)
    ensures |s| == |rows| && forall i :: 0 <= i < |rows| ==> s[i] == Utils.Sum(rows[i])
  {
    seq(|rows|, i requires 0 <= i < |rows| => Utils.Sum(rows[i]))
  }

  /** One running sum over all rows equals the sum of the row sums. */
  lemma {:induction false} SumFlatten(rows: seq<seq<real>>)
    ensures Utils.Sum(Flatten(rows)) == Utils.Sum(RowSums(rows))
  {
    if |rows| > 0 {
      var n := |rows| - 1;
      SumFlatten(rows[..n]);
      SumConcat(Flatten(rows[..n]), rows[n]);
      assert RowSums(rows)[..n] == RowSums(rows[..n]);
    }
  }

  /** A sum whose terms are all zero but term i is term i. */
  lemma {:induction false} SumSingle(s: seq<real>, i: nat)
    requires i < |s| && forall j :: 0 <= j < |s| && j != i ==> s[j] == 0.0
    ensures Utils.Sum(s) == s[i]
  {
    if |s| - 1 > i {
      SumSingle(s[..|s| - 1], i);
    } else if |s| > 1 {
      SumZero(s[..|s| - 1]);
    }
  }

  lemma {:induction false} SumZero(s: seq<real>)
    requires forall j :: 0 <= j < |s| ==> s[j] == 0.0
    ensures Utils.Sum(s) == 0.0
  {
    if |s| > 0 {
      SumZero(s[..|s| - 1]);
    }
  }

  /** Every term multiplied by a. */
  function Scaled(s: seq<real>, a: real): (r: seq<real>)
    ensures |r| == |s| && forall i :: 0 <= i < |s| ==> r[i] == a * s[i]
  {
    seq(|s|, i requires 0 <= i < |s| => a * s[i])
  }

  /** Every row multiplied by a. */
  function ScaledRows(k: seq<seq<real>>, a: real): (r: seq<seq<real>>)
    ensures |r| == |k| && forall i :: 0 <= i < |k| ==> r[i] == Scaled(k[i], a)
  {
    seq(|k|, i requires 0 <= i < |k| => Scaled(k[i], a))
  }

  lemma ScaledConcat(s: seq<real>, t: seq<real>, a: real)
    ensures Scaled(s + t, a) == Scaled(s, a) + Scaled(t, a)
  {
    var l, r := Scaled(s + t, a), Scaled(s, a) + Scaled(t, a);
    forall i | 0 <= i < |l| ensures l[i] == r[i] {
      if i < |s| {
        assert (s + t)[i] == s[i];
      } else {
        assert (s + t)[i] == t[i - |s|];
      }
    }
  }

  /** Multiplying every term by a multiplies the sum by a. */
  lemma {:induction false} SumScaled(s: seq<real>, a: real)
    ensures Utils.Sum(Scaled(s, a)) == a * Utils.Sum(s)
  {
    if |s| > 0 {
      var n := |s| - 1;
      var l, r := Scaled(s, a)[..n], Scaled(s[..n], a);
      forall i | 0 <= i < n ensures l[i] == r[i] {
        assert s[..n][i] == s[i];
      }
      assert l == r;
      SumScaled(s[..n], a);
    }
  }

  /** Scaling every row scales the rows laid end to end. */
  lemma {:induction false} FlattenScaled(k: seq<seq<real>>, a: real)
    ensures Flatten(ScaledRows(k, a)) == Scaled(Flatten(k), a)
  {
    if |k| > 0 {
      var n := |k| - 1;
      assert ScaledRows(k, a)[..n] == ScaledRows(k[..n], a);
      FlattenScaled(k[..n], a);
      ScaledConcat(Flatten(k[..n]), k[n], a);
    }
  }

  /** Scaling every weight scales the weights laid end to end. */
  lemma SumFlattenScaled(k: seq<seq<real>>, a: real)
    ensures Utils.Sum(Flatten(ScaledRows(k, a))) == Utils.Sum(Scaled(Flatten(k), a))
  {
    FlattenScaled(k, a);
  }

  /** Scaling every weight by a scales the total by a. */
  lemma SumScaledRows(k: seq<seq<real>>, a: real)
    ensures Utils.Sum(Flatten(ScaledRows(k, a))) == a * Utils.Sum(Flatten(k))
  {
    var f := Flatten(k);
    SumFlattenScaled(k, a);
    SumScaled(f, a);
    assert Utils.Sum(Flatten(ScaledRows(k, a))) == Utils.Sum(Scaled(f, a));
  }

  /** A matrix that is zero except at row ri, column ci sums to that entry. */
  lemma MatrixSingle(t: seq<seq<real>>, ri: nat, ci: nat)
    requires ri < |t| && ci < |t[ri]|
    requires forall i, j :: 0 <= i < |t| && 0 <= j < |t[i]| && (i != ri || j != ci) ==> t[i][j] == 0.0
    ensures Utils.Sum(Flatten(t)) == t[ri][ci]
  {
    forall i | 0 <= i < |t| && i != ri ensures RowSums(t)[i] == 0.0 {
      SumZero(t[i]);
    }
    SumSingle(t[ri], ci);
    SumSingle(RowSums(t), ri);
    SumFlatten(t);
  }

  // ---------------------------------------------------------------------
  // Apply

  /** p * w for the sample at kernel row i, column j: the pixel at offset
      (j - rx, i - ry), edges replicated. */
  function Term(k: Kernel, src: Image, x: nat, y: nat, c: Channel, i: nat, j: nat): real
    requires WellFormed(k) && Raster.Valid(src) && src.width > 0 && src.height > 0
    requires i < |k| && j < |k[0]|
  {
    ChannelOf(Neighbour(src, x, y, j - |k[0]| / 2, i - |k| / 2), c) * k[i][j]
  }

  /** The products of kernel row i, in the inner loop's order. */
  function TermRow(k: Kernel, src: Image, x: nat, y: nat, c: Channel, i: nat): (row: seq<real>)
    requires WellFormed(k) && Raster.Valid(src) && src.width > 0 && src.height > 0 && i < |k|
  {
    seq(|k[0]|, j requires 0 <= j < |k[0]| => Term(k, src, x, y, c, i, j))
  }

  /** The products laid out like the kernel. */
  function Terms(k: Kernel, src: Image, x: nat, y: nat, c: Channel): (t: seq<seq<real>>)
    requires WellFormed(k) && Raster.Valid(src) && src.width > 0 && src.height > 0
  {
    seq(|k|, i requires 0 <= i < |k| => TermRow(k, src, x, y, c, i))
  }

  /** `acc` after both loops: the running sum of the products in loop order. */
  function Acc(k: Kernel, src: Image, x: nat, y: nat, c: Channel): real
    requires WellFormed(k) && Raster.Valid(src) && src.width > 0 && src.height > 0
  {
    Utils.Sum(Flatten(Terms(k, src, x, y, c)))
  }

  /** The output pixel: the three sums clamped into [0, 1]. */
  function ConvolvedPixel(k: Kernel, src: Image, x: nat, y: nat): (p: Pixel)
    requires WellFormed(k) && Raster.Valid(src) && src.width > 0 && src.height > 0
    ensures InUnit(p)
  {
    ClampPixel01(Raster.Pixel(Acc(k, src, x, y, Red), Acc(k, src, x, y, Green), Acc(k, src, x, y, Blue)))
  }

  /** `ConvolutionFilter::Apply`: same size, every pixel the clamped
      weighted sum over its neighbourhood. */
  function Convolve(f: ConvolutionFilter, src: Image): (dst: Image)
    requires WellFormed(f.kernel) && Raster.Valid(src)
    ensures Raster.Valid(dst) && dst.width == src.width && dst.height == src.height
    ensures UnitImage(dst)
    ensures forall x: nat, y: nat :: x < src.width && y < src.height ==>
      PixelAt(dst, x, y) == ConvolvedPixel(f.kernel, src, x, y)
  {
    var dst := Raster.Build(src.width, src.height, (x: nat, y: nat) requires x < src.width && y < src.height =>
      ConvolvedPixel(f.kernel, src, x, y));
    UnitImageFromPixels(dst);
    dst
  }

  // ---------------------------------------------------------------------
  // Identity and uniform images

  /** 1 at the centre and 0 elsewhere. */
  predicate IsIdentityKernel(k: Kernel)
    requires WellFormed(k)
  {
    forall i, j :: 0 <= i < |k| && 0 <= j < |k[0]| ==>
      k[i][j] == (if i == |k| / 2 && j == |k[0]| / 2 then 1.0 else 0.0)
  }

  /** With the identity kernel the sum is the pixel's own channel. */
  lemma AccIdentity(k: Kernel, src: Image, x: nat, y: nat, c: Channel)
    requires WellFormed(k) && IsIdentityKernel(k)
    requires Raster.Valid(src) && x < src.width && y < src.height
    ensures Acc(k, src, x, y, c) == ChannelOf(PixelAt(src, x, y), c)
  {
    var t := Terms(k, src, x, y, c);
    var ry, rx := |k| / 2, |k[0]| / 2;
    assert t[ry][rx] == ChannelOf(PixelAt(src, x, y), c);
    MatrixSingle(t, ry, rx);
  }

  /** A kernel that is 1 at the centre and 0 elsewhere leaves a [0, 1]
      image unchanged. */
  lemma IdentityKernelUnchanged(f: ConvolutionFilter, src: Image)
    requires WellFormed(f.kernel) && IsIdentityKernel(f.kernel)
    requires Raster.Valid(src) && UnitImage(src)
    ensures Convolve(f, src) == src
  {
    var dst := Convolve(f, src);
    forall x: nat, y: nat | x < src.width && y < src.height
      ensures Raster.At(dst, x, y) == Raster.At(src, x, y)
    {
      IdentityPixel(f.kernel, src, x, y);
    }
    Raster.Extensionality(dst, src);
  }

  /** With the identity kernel a pixel in [0, 1] is its own output. */
  lemma IdentityPixel(k: Kernel, src: Image, x: nat, y: nat)
    requires WellFormed(k) && IsIdentityKernel(k)
    requires Raster.Valid(src) && UnitImage(src) && x < src.width && y < src.height
    ensures ConvolvedPixel(k, src, x, y) == PixelAt(src, x, y)
  {
    AccIdentity(k, src, x, y, Red);
    AccIdentity(k, src, x, y, Green);
    AccIdentity(k, src, x, y, Blue);
    PixelAtInUnit(src, x, y);
  }

  /** On a uniform image each product is the channel times the weight. */
  lemma TermsUniform(k: Kernel, src: Image, q: Pixel, x: nat, y: nat, c: Channel)
    requires WellFormed(k) && Raster.Valid(src) && src.width > 0 && src.height > 0 && Uniform(src, q)
    ensures Terms(k, src, x, y, c) == ScaledRows(k, ChannelOf(q, c))
  {
    var t, s := Terms(k, src, x, y, c), ScaledRows(k, ChannelOf(q, c));
    forall i | 0 <= i < |k| ensures t[i] == s[i] {
      forall j | 0 <= j < |k[0]| ensures t[i][j] == s[i][j] {
        NeighbourOfUniform(src, q, x, y, j - |k[0]| / 2, i - |k| / 2);
      }
    }
  }

  /** On a uniform image the sum is the channel times the weight sum. */
  lemma AccUniform(k: Kernel, src: Image, q: Pixel, x: nat, y: nat, c: Channel)
    requires WellFormed(k) && Raster.Valid(src) && src.width > 0 && src.height > 0 && Uniform(src, q)
    ensures Acc(k, src, x, y, c) == ChannelOf(q, c) * Utils.Sum(Flatten(k))
  {
    SumScaledRows(k, ChannelOf(q, c));
    AccScaledRows(k, src, q, x, y, c);
  }

  /** On a uniform image the sum runs over the weights scaled by the channel. */
  lemma AccScaledRows(k: Kernel, src: Image, q: Pixel, x: nat, y: nat, c: Channel)
    requires WellFormed(k) && Raster.Valid(src) && src.width > 0 && src.height > 0 && Uniform(src, q)
    ensures Acc(k, src, x, y, c) == Utils.Sum(Flatten(ScaledRows(k, ChannelOf(q, c))))
  {
    TermsUniform(k, src, q, x, y, c);
  }

  /** Weights summing to 1 reproduce a uniform image's channel. */
  lemma AccUnitWeight(k: Kernel, src: Image, q: Pixel, x: nat, y: nat, c: Channel)
    requires WellFormed(k) && Raster.Valid(src) && src.width > 0 && src.height > 0 && Uniform(src, q)
    requires Utils.Sum(Flatten(k)) == 1.0
    ensures Acc(k, src, x, y, c) == ChannelOf(q, c)
  {
    AccUniform(k, src, q, x, y, c);
    Utils.MulUnit(ChannelOf(q, c), Utils.Sum(Flatten(k)));
  }

  /** Weights summing to 0 give a zero sum on a uniform image. */
  lemma AccZeroWeight(k: Kernel, src: Image, q: Pixel, x: nat, y: nat, c: Channel)
    requires WellFormed(k) && Raster.Valid(src) && src.width > 0 && src.height > 0 && Uniform(src, q)
    requires Utils.Sum(Flatten(k)) == 0.0
    ensures Acc(k, src, x, y, c) == 0.0
  {
    AccUniform(k, src, q, x, y, c);
    Utils.MulZero(ChannelOf(q, c), Utils.Sum(Flatten(k)));
  }

  /** Weights summing to 1 reproduce a uniform image's pixel, clamped. */
  lemma UniformUnitWeight(k: Kernel, src: Image, q: Pixel, x: nat, y: nat)
    requires WellFormed(k) && Raster.Valid(src) && src.width > 0 && src.height > 0 && Uniform(src, q)
    requires Utils.Sum(Flatten(k)) == 1.0
    ensures ConvolvedPixel(k, src, x, y) == ClampPixel01(q)
  {
    AccUnitWeight(k, src, q, x, y, Red);
    AccUnitWeight(k, src, q, x, y, Green);
    AccUnitWeight(k, src, q, x, y, Blue);
  }

  /** Weights summing to 0 turn a uniform image black. */
  lemma UniformZeroWeight(k: Kernel, src: Image, q: Pixel, x: nat, y: nat)
    requires WellFormed(k) && Raster.Valid(src) && src.width > 0 && src.height > 0 && Uniform(src, q)
    requires Utils.Sum(Flatten(k)) == 0.0
    ensures ConvolvedPixel(k, src, x, y) == Raster.Pixel(0.0, 0.0, 0.0)
  {
    AccZeroWeight(k, src, q, x, y, Red);
    AccZeroWeight(k, src, q, x, y, Green);
    AccZeroWeight(k, src, q, x, y, Blue);
  }

  // ---------------------------------------------------------------------
  // Sharpen and edge detection

  /** The kernel of `SharpenFilter`. */
  const SharpenKernel: Kernel := [[0.0, -1.0, 0.0], [-1.0, 5.0, -1.0], [0.0, -1.0, 0.0]]

  /** The Laplacian kernel of `EdgeFilter`. */
  const LaplacianKernel: Kernel := [[0.0, -1.0, 0.0], [-1.0, 4.0, -1.0], [0.0, -1.0, 0.0]]

  /** Both fixed kernels pass the constructor's checks. */
  lemma FixedKernelsAccepted()
    ensures MakeConvolution(SharpenKernel) == Ok(ConvolutionFilter(SharpenKernel))
    ensures MakeConvolution(LaplacianKernel) == Ok(ConvolutionFilter(LaplacianKernel))
  {
  }

  lemma Sum3(a: real, b: real, c: real)
    ensures Utils.Sum([a, b, c]) == a + b + c
  {
    assert [a, b, c][..2] == [a, b];
    assert [a, b][..1] == [a];
    assert [a][..0] == [];
    assert Utils.Sum([a]) == a;
    assert Utils.Sum([a, b]) == a + b;
  }

  /** The weights of a 3 by 3 kernel, row by row. */
  lemma WeightSum3(k: Kernel)
    requires |k| == 3 && forall i :: 0 <= i < 3 ==> |k[i]| == 3
    ensures Utils.Sum(Flatten(k)) == k[0][0] + k[0][1] + k[0][2] + k[1][0] + k[1][1] + k[1][2] + k[2][0] + k[2][1] + k[2][2]
  {
    SumFlatten(k);
    assert k[0] == [k[0][0], k[0][1], k[0][2]];
    assert k[1] == [k[1][0], k[1][1], k[1][2]];
    assert k[2] == [k[2][0], k[2][1], k[2][2]];
    Sum3(k[0][0], k[0][1], k[0][2]);
    Sum3(k[1][0], k[1][1], k[1][2]);
    Sum3(k[2][0], k[2][1], k[2][2]);
    assert RowSums(k) == [Utils.Sum(k[0]), Utils.Sum(k[1]), Utils.Sum(k[2])];
    Sum3(Utils.Sum(k[0]), Utils.Sum(k[1]), Utils.Sum(k[2]));
  }

  /** Sharpen's weights sum to 1 and the Laplacian's to 0. */
  lemma FixedKernelWeights()
    ensures Utils.Sum(Flatten(SharpenKernel)) == 1.0
    ensures Utils.Sum(Flatten(LaplacianKernel)) == 0.0
  {
    WeightSum3(SharpenKernel);
    WeightSum3(LaplacianKernel);
  }

  /** `SharpenFilter`: convolution with the sharpen kernel. */
  function Sharpen(src: Image): (dst: Image)
    requires Raster.Valid(src)
    ensures Raster.Valid(dst) && dst.width == src.width && dst.height == src.height
    ensures UnitImage(dst)
  {
    FixedKernelsAccepted();
    Convolve(ConvolutionFilter(SharpenKernel), src)
  }

  /** Sharpening a uniform [0, 1] image changes nothing. */
  lemma SharpenUniform(src: Image, q: Pixel)
    requires Raster.Valid(src) && Uniform(src, q) && InUnit(q)
    ensures Sharpen(src) == src
  {
    FixedKernelsAccepted();
    FixedKernelWeights();
    var dst := Sharpen(src);
    forall x: nat, y: nat | x < src.width && y < src.height
      ensures Raster.At(dst, x, y) == Raster.At(src, x, y)
    {
      UniformUnitWeight(SharpenKernel, src, q, x, y);
      UniformAt(src, q, x, y);
    }
    Raster.Extensionality(dst, src);
  }

  const White: Pixel := Raster.Pixel(1.0, 1.0, 1.0)
  const Black: Pixel := Raster.Pixel(0.0, 0.0, 0.0)

  /** `EdgeFilter(threshold)`: the factory's edge filter checks nothing. */
  datatype EdgeFilter = EdgeFilter(threshold: real)

  /** The Laplacian of the clamped grayscale image. */
  function Edged(src: Image): (edged: Image)
    requires Raster.Valid(src)
    ensures Raster.Valid(edged) && edged.width == src.width && edged.height == src.height
  {
    FixedKernelsAccepted();
    Convolve(ConvolutionFilter(LaplacianKernel), FloatFilters.Grayscale(src))
  }

  /** `EdgeFilter::Apply`: white where the red channel of the Laplacian of
      the grayscale exceeds the threshold, black elsewhere. */
  function Edge(f: EdgeFilter, src: Image): (dst: Image)
    requires Raster.Valid(src)
    ensures Raster.Valid(dst) && dst.width == src.width && dst.height == src.height
    ensures forall x: nat, y: nat :: x < src.width && y < src.height ==>
      PixelAt(dst, x, y) == (if PixelAt(Edged(src), x, y).r > f.threshold then White else Black)
  {
    var edged := Edged(src);
    Raster.Build(src.width, src.height, (x: nat, y: nat) requires x < src.width && y < src.height =>
      if PixelAt(edged, x, y).r > f.threshold then White else Black)
  }

  /** Every output pixel is white or black. */
  lemma EdgeBinary(f: EdgeFilter, src: Image, x: nat, y: nat)
    requires Raster.Valid(src) && x < src.width && y < src.height
    ensures PixelAt(Edge(f, src), x, y) == White || PixelAt(Edge(f, src), x, y) == Black
  {
  }

  /** The grayscale of a uniform image is uniform. */
  lemma GrayscaleUniform(src: Image, q: Pixel)
    requires Raster.Valid(src) && Uniform(src, q)
    ensures var v := Clamp01(Luma(q)); Uniform(FloatFilters.Grayscale(src), Raster.Pixel(v, v, v))
  {
    var gray := FloatFilters.Grayscale(src);
    var v := Clamp01(Luma(q));
    forall x: nat, y: nat | x < src.width && y < src.height
      ensures PixelAt(gray, x, y) == Raster.Pixel(v, v, v)
    {
      UniformAt(src, q, x, y);
    }
    UniformFromPixels(gray, Raster.Pixel(v, v, v));
  }

  /** A uniform image has a zero Laplacian, so every threshold t >= 0 turns
      it all black. */
  lemma EdgeUniformBlack(f: EdgeFilter, src: Image, q: Pixel, x: nat, y: nat)
    requires Raster.Valid(src) && Uniform(src, q) && f.threshold >= 0.0
    requires x < src.width && y < src.height
    ensures PixelAt(Edge(f, src), x, y) == Black
  {
    FixedKernelsAccepted();
    FixedKernelWeights();
    var v := Clamp01(Luma(q));
    GrayscaleUniform(src, q);
    UniformZeroWeight(LaplacianKernel, FloatFilters.Grayscale(src), Raster.Pixel(v, v, v), x, y);
  }
}
