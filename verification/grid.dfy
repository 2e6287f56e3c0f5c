/** Row-major flat indexing, shared by both image containers: the pixel at
    column x of row y lives at flat position y * width + x. */
module Grid {

  function Index(x: nat, y: nat, width: nat): nat {
    y * width + x
  }

  /** The smaller of two sizes. */
  function Min(a: int, b: int): (m: int)
    ensures m <= a && m <= b && (m == a || m == b)
  {
    if a < b then a else b
  }

  /** An in-range coordinate pair addresses an element of a width*height buffer. */
  lemma IndexInBounds(x: nat, y: nat, width: nat, height: nat)
    requires x < width && y < height
    ensures Index(x, y, width) < width * height
  {
    calc {
      y * width + x;
    <  (y + 1) * width;
    <= { assert y + 1 <= height; } height * width;
    }
  }

  /** Column and row are recovered from the flat index by `%` and `/`. */
  lemma IndexSplit(x: nat, y: nat, width: nat)
    requires x < width
    ensures Index(x, y, width) % width == x
    ensures Index(x, y, width) / width == y
  {
    var i := Index(x, y, width);
    var q, r := i / width, i % width;
    assert i == q * width + r;
    if y > q {
      assert y * width - q * width == (y - q) * width;
      MulAtLeast(y - q, width);
    } else if y < q {
      assert q * width - y * width == (q - y) * width;
      MulAtLeast(q - y, width);
    }
  }

  lemma MulAtLeast(k: int, width: nat)
    requires k >= 1
    ensures k * width >= width
  {
  }

  /** Row-major indexing is injective on in-range coordinates. */
  lemma IndexInjective(x1: nat, y1: nat, x2: nat, y2: nat, width: nat)
    requires x1 < width && x2 < width
    requires Index(x1, y1, width) == Index(x2, y2, width)
    ensures x1 == x2 && y1 == y2
  {
    IndexSplit(x1, y1, width);
    IndexSplit(x2, y2, width);
  }

  /** Every flat position of a width*height buffer is some in-range pair. */
  lemma IndexSurjective(i: nat, width: nat, height: nat)
    requires i < width * height
    ensures width > 0 && i % width < width && i / width < height
    ensures Index(i % width, i / width, width) == i
  {
    assert width != 0;
    var q := i / width;
    assert q * width <= i < height * width;
    if q >= height {
      MulMonotone(height, q, width);
    }
  }

  lemma MulMonotone(a: nat, b: nat, width: nat)
    requires a <= b
    ensures a * width <= b * width
  {
  }

  /** The row-major buffer holding f(x, y) at column x, row y. */
  function Tabulate<P>(width: nat, height: nat, f: (nat, nat) --> P): (s: seq<P>)
    requires forall x: nat, y: nat :: x < width && y < height ==> f.requires(x, y)
    ensures |s| == width * height
    ensures forall x: nat, y: nat :: x < width && y < height ==>
      Index(x, y, width) < |s| && s[Index(x, y, width)] == f(x, y)
  {
    var s := seq(width * height, i requires 0 <= i < width * height =>
      IndexSurjective(i, width, height); f(i % width, i / width));
    assert forall x: nat, y: nat :: x < width && y < height ==>
      Index(x, y, width) < |s| && s[Index(x, y, width)] == f(x, y) by {
      forall x: nat, y: nat | x < width && y < height
        ensures Index(x, y, width) < |s| && s[Index(x, y, width)] == f(x, y)
      {
        IndexInBounds(x, y, width, height);
        IndexSplit(x, y, width);
      }
    }
    s
  }

  /** Two width*height buffers that agree at every in-range pair are equal. */
  lemma Extensional<P>(s: seq<P>, t: seq<P>, width: nat, height: nat)
    requires |s| == width * height && |t| == width * height
    requires forall x: nat, y: nat :: x < width && y < height ==>
      Index(x, y, width) < |s| && s[Index(x, y, width)] == t[Index(x, y, width)]
    ensures s == t
  {
    forall i | 0 <= i < |s| ensures s[i] == t[i] {
      IndexSurjective(i, width, height);
      var x: nat, y: nat := i % width, i / width;
      assert s[Index(x, y, width)] == t[Index(x, y, width)];
    }
  }

  /** A width*height buffer that holds v at every in-range pair holds only v. */
  lemma Everywhere<P>(s: seq<P>, width: nat, height: nat, v: P)
    requires |s| == width * height
    requires forall x: nat, y: nat :: x < width && y < height ==>
      Index(x, y, width) < |s| && s[Index(x, y, width)] == v
    ensures forall i :: 0 <= i < |s| ==> s[i] == v
  {
    Extensional(s, seq(|s|, _ => v), width, height);
  }
}
