/** The accumulated luminance difference of two rasters of equal dimensions,
    as the sums that the loops of `load_image` compute, and its properties. */
module Metric {
  import opened Luma
  import opened Rasters

  /** The absolute luma difference at pixel (x, y). */
  function PixelDelta(a: Raster, b: Raster, x: nat, y: nat): (d: nat)
    requires SameDimensions(a, b) && x < a.width && y < a.height
    ensures d <= 255
  {
    Abs(Luminance(PixelAt(a, x, y)) - Luminance(PixelAt(b, x, y)))
  }

  /** The sum over y < n of the differences in column x (the inner loop). */
  function ColumnDiff(a: Raster, b: Raster, x: nat, n: nat): nat
    requires SameDimensions(a, b) && x < a.width && n <= a.height
  {
    if n == 0 then 0 else ColumnDiff(a, b, x, n - 1) + PixelDelta(a, b, x, n - 1)
  }

  /** The sum over the columns x < m of their first n differences (the outer loop). */
  function GridDiff(a: Raster, b: Raster, m: nat, n: nat): nat
    requires SameDimensions(a, b) && m <= a.width && n <= a.height
  {
    if m == 0 then 0 else GridDiff(a, b, m - 1, n) + ColumnDiff(a, b, m - 1, n)
  }

  /** The whole-image difference: every pixel, columns outermost. */
  function TotalDiff(a: Raster, b: Raster): nat
    requires SameDimensions(a, b)
  {
    GridDiff(a, b, a.width, a.height)
  }

  /** Distributing a per-pixel amount over one more column. */
  lemma GrowByColumn(d: nat, m: nat, n: nat)
    requires m > 0
    ensures d * ((m - 1) * n) + d * n == d * (m * n)
  {
    assert (m - 1) * n + n == m * n;
  }

  // ---------------------------------------------------------------------------
  // Bound

  lemma {:induction false} ColumnDiffBound(a: Raster, b: Raster, x: nat, n: nat)
    requires SameDimensions(a, b) && x < a.width && n <= a.height
    ensures ColumnDiff(a, b, x, n) <= 255 * n
  {
    if n > 0 {
      ColumnDiffBound(a, b, x, n - 1);
    }
  }

  lemma {:induction false} GridDiffBound(a: Raster, b: Raster, m: nat, n: nat)
    requires SameDimensions(a, b) && m <= a.width && n <= a.height
    ensures GridDiff(a, b, m, n) <= 255 * (m * n)
  {
    if m > 0 {
      GridDiffBound(a, b, m - 1, n);
      ColumnDiffBound(a, b, m - 1, n);
      GrowByColumn(255, m, n);
    }
  }

  /** Each pixel adds at most 255, so the total is at most 255 * width * height. */
  lemma DiffBound(a: Raster, b: Raster)
    requires SameDimensions(a, b)
    ensures TotalDiff(a, b) <= 255 * (a.width * a.height)
  {
    GridDiffBound(a, b, a.width, a.height);
  }

  // ---------------------------------------------------------------------------
  // Identity

  lemma {:induction false} ColumnDiffSelf(a: Raster, x: nat, n: nat)
    requires x < a.width && n <= a.height
    ensures ColumnDiff(a, a, x, n) == 0
  {
    if n > 0 {
      ColumnDiffSelf(a, x, n - 1);
    }
  }

  lemma {:induction false} GridDiffSelf(a: Raster, m: nat, n: nat)
    requires m <= a.width && n <= a.height
    ensures GridDiff(a, a, m, n) == 0
  {
    if m > 0 {
      GridDiffSelf(a, m - 1, n);
      ColumnDiffSelf(a, m - 1, n);
    }
  }

  /** A raster compared with itself differs by nothing. */
  lemma DiffSelf(a: Raster)
    ensures TotalDiff(a, a) == 0
  {
    GridDiffSelf(a, a.width, a.height);
  }

  // ---------------------------------------------------------------------------
  // Symmetry

  lemma {:induction false} ColumnDiffSymmetric(a: Raster, b: Raster, x: nat, n: nat)
    requires SameDimensions(a, b) && x < a.width && n <= a.height
    ensures ColumnDiff(a, b, x, n) == ColumnDiff(b, a, x, n)
  {
    if n > 0 {
      ColumnDiffSymmetric(a, b, x, n - 1);
    }
  }

  lemma {:induction false} GridDiffSymmetric(a: Raster, b: Raster, m: nat, n: nat)
    requires SameDimensions(a, b) && m <= a.width && n <= a.height
    ensures GridDiff(a, b, m, n) == GridDiff(b, a, m, n)
  {
    if m > 0 {
      GridDiffSymmetric(a, b, m - 1, n);
      ColumnDiffSymmetric(a, b, m - 1, n);
    }
  }

  /** The difference does not depend on which raster is the reference. */
  lemma DiffSymmetric(a: Raster, b: Raster)
    requires SameDimensions(a, b)
    ensures TotalDiff(a, b) == TotalDiff(b, a)
  {
    GridDiffSymmetric(a, b, a.width, a.height);
  }

  // ---------------------------------------------------------------------------
  // Zero exactly when every pixel has the same luma

  ghost predicate SameLumaBelow(a: Raster, b: Raster, m: nat, n: nat)
    requires SameDimensions(a, b) && m <= a.width && n <= a.height
  {
    forall x: nat, y: nat :: x < m && y < n ==>
      Luminance(PixelAt(a, x, y)) == Luminance(PixelAt(b, x, y))
  }

  lemma {:induction false} ColumnDiffZero(a: Raster, b: Raster, x: nat, n: nat)
    requires SameDimensions(a, b) && x < a.width && n <= a.height
    ensures ColumnDiff(a, b, x, n) == 0 <==>
      forall y: nat :: y < n ==> PixelDelta(a, b, x, y) == 0
  {
    if n > 0 {
      ColumnDiffZero(a, b, x, n - 1);
    }
  }

  lemma {:induction false} GridDiffZero(a: Raster, b: Raster, m: nat, n: nat)
    requires SameDimensions(a, b) && m <= a.width && n <= a.height
    ensures GridDiff(a, b, m, n) == 0 <==> SameLumaBelow(a, b, m, n)
  {
    if m > 0 {
      GridDiffZero(a, b, m - 1, n);
      ColumnDiffZero(a, b, m - 1, n);
      if GridDiff(a, b, m, n) == 0 {
        forall x: nat, y: nat | x < m && y < n
          ensures Luminance(PixelAt(a, x, y)) == Luminance(PixelAt(b, x, y))
        {
          if x < m - 1 {
            assert SameLumaBelow(a, b, m - 1, n);
          } else {
            assert PixelDelta(a, b, x, y) == 0;
          }
        }
      }
      if SameLumaBelow(a, b, m, n) {
        assert SameLumaBelow(a, b, m - 1, n);
        var x := m - 1;
        forall y: nat | y < n ensures PixelDelta(a, b, x, y) == 0 {
          assert Luminance(PixelAt(a, x, y)) == Luminance(PixelAt(b, x, y));
        }
      }
    }
  }

  /** The total is zero if and only if the two rasters have the same luma at
      every pixel (in particular, identical rasters give zero). */
  lemma DiffZeroIff(a: Raster, b: Raster)
    requires SameDimensions(a, b)
    ensures TotalDiff(a, b) == 0 <==>
      forall x: nat, y: nat :: x < a.width && y < a.height ==>
        Luminance(PixelAt(a, x, y)) == Luminance(PixelAt(b, x, y))
  {
    GridDiffZero(a, b, a.width, a.height);
  }

  // ---------------------------------------------------------------------------
  // Triangle inequality

  lemma {:induction false} ColumnDiffTriangle(a: Raster, b: Raster, c: Raster, x: nat, n: nat)
    requires SameDimensions(a, b) && SameDimensions(b, c) && x < a.width && n <= a.height
    ensures ColumnDiff(a, c, x, n) <= ColumnDiff(a, b, x, n) + ColumnDiff(b, c, x, n)
  {
    if n > 0 {
      ColumnDiffTriangle(a, b, c, x, n - 1);
    }
  }

  lemma {:induction false} GridDiffTriangle(a: Raster, b: Raster, c: Raster, m: nat, n: nat)
    requires SameDimensions(a, b) && SameDimensions(b, c) && m <= a.width && n <= a.height
    ensures GridDiff(a, c, m, n) <= GridDiff(a, b, m, n) + GridDiff(b, c, m, n)
  {
    if m > 0 {
      GridDiffTriangle(a, b, c, m - 1, n);
      ColumnDiffTriangle(a, b, c, m - 1, n);
    }
  }

  /** The difference through an intermediate raster is never shorter. */
  lemma DiffTriangle(a: Raster, b: Raster, c: Raster)
    requires SameDimensions(a, b) && SameDimensions(b, c)
    ensures TotalDiff(a, c) <= TotalDiff(a, b) + TotalDiff(b, c)
  {
    GridDiffTriangle(a, b, c, a.width, a.height);
  }

  // ---------------------------------------------------------------------------
  // Uniform per-pixel difference

  lemma {:induction false} ColumnDiffUniform(a: Raster, b: Raster, x: nat, n: nat, d: nat)
    requires SameDimensions(a, b) && x < a.width && n <= a.height
    requires forall y: nat :: y < n ==> PixelDelta(a, b, x, y) == d
    ensures ColumnDiff(a, b, x, n) == d * n
  {
    if n > 0 {
      ColumnDiffUniform(a, b, x, n - 1, d);
      assert d * (n - 1) + d == d * n;
    }
  }

  lemma {:induction false} GridDiffUniform(a: Raster, b: Raster, m: nat, n: nat, d: nat)
    requires SameDimensions(a, b) && m <= a.width && n <= a.height
    requires forall x: nat, y: nat :: x < m && y < n ==> PixelDelta(a, b, x, y) == d
    ensures GridDiff(a, b, m, n) == d * (m * n)
  {
    if m > 0 {
      GridDiffUniform(a, b, m - 1, n, d);
      ColumnDiffUniform(a, b, m - 1, n, d);
      GrowByColumn(d, m, n);
    }
  }

  /** When every pixel differs by the same d, the total is d * width * height. */
  lemma DiffUniform(a: Raster, b: Raster, d: nat)
    requires SameDimensions(a, b)
    requires forall x: nat, y: nat :: x < a.width && y < a.height ==> PixelDelta(a, b, x, y) == d
    ensures TotalDiff(a, b) == d * (a.width * a.height)
  {
    GridDiffUniform(a, b, a.width, a.height, d);
  }

  // ---------------------------------------------------------------------------
  // Traversal order: columns outermost versus the buffer's own order

  /** The absolute luma difference of the i-th pixel triples of the two buffers. */
  function TripleDelta(a: Raster, b: Raster, i: nat): nat
    requires SameDimensions(a, b) && i < a.width * a.height
  {
    Abs(Luminance(TripleAt(a, i)) - Luminance(TripleAt(b, i)))
  }

  /** The sum over the first k triples of both buffers, zipped in buffer order. */
  function FlatDiff(a: Raster, b: Raster, k: nat): nat
    requires SameDimensions(a, b) && k <= a.width * a.height
  {
    if k == 0 then 0 else FlatDiff(a, b, k - 1) + TripleDelta(a, b, k - 1)
  }

  /** The sum over x < m of the differences in row y. */
  function RowDiff(a: Raster, b: Raster, y: nat, m: nat): nat
    requires SameDimensions(a, b) && y < a.height && m <= a.width
  {
    if m == 0 then 0 else RowDiff(a, b, y, m - 1) + PixelDelta(a, b, m - 1, y)
  }

  /** The sum over the first n full rows. */
  function RowMajorDiff(a: Raster, b: Raster, n: nat): nat
    requires SameDimensions(a, b) && n <= a.height
  {
    if n == 0 then 0 else RowMajorDiff(a, b, n - 1) + RowDiff(a, b, n - 1, a.width)
  }

  lemma {:induction false} GridDiffNoRows(a: Raster, b: Raster, m: nat)
    requires SameDimensions(a, b) && m <= a.width
    ensures GridDiff(a, b, m, 0) == 0
  {
    if m > 0 {
      GridDiffNoRows(a, b, m - 1);
    }
  }

  lemma {:induction false} GridDiffAddRow(a: Raster, b: Raster, m: nat, n: nat)
    requires SameDimensions(a, b) && m <= a.width && n < a.height
    ensures GridDiff(a, b, m, n + 1) == GridDiff(a, b, m, n) + RowDiff(a, b, n, m)
  {
    if m > 0 {
      GridDiffAddRow(a, b, m - 1, n);
    }
  }

  lemma {:induction false} GridDiffIsRowMajor(a: Raster, b: Raster, n: nat)
    requires SameDimensions(a, b) && n <= a.height
    ensures GridDiff(a, b, a.width, n) == RowMajorDiff(a, b, n)
  {
    if n == 0 {
      GridDiffNoRows(a, b, a.width);
    } else {
      GridDiffIsRowMajor(a, b, n - 1);
      GridDiffAddRow(a, b, a.width, n - 1);
    }
  }

  /** Row n of a w-column raster with h rows ends within the buffer. */
  lemma RowFits(w: nat, h: nat, n: nat)
    requires n < h
    ensures n * w + w <= w * h
  {
    assert n * w + w == (n + 1) * w;
    assert (n + 1) * w <= h * w;
  }

  lemma PixelDeltaIsTripleDelta(a: Raster, b: Raster, x: nat, y: nat)
    requires SameDimensions(a, b) && x < a.width && y < a.height
    ensures y * a.width + x < a.width * a.height
    ensures PixelDelta(a, b, x, y) == TripleDelta(a, b, y * a.width + x)
  {
    PixelIndexInRange(a.width, a.height, x, y);
  }

  /** The sum of the m triple differences starting at triple k. */
  function SegmentDiff(a: Raster, b: Raster, k: nat, m: nat): nat
    requires SameDimensions(a, b) && k + m <= a.width * a.height
  {
    if m == 0 then 0 else SegmentDiff(a, b, k, m - 1) + TripleDelta(a, b, k + m - 1)
  }

  lemma {:induction false} FlatDiffSplit(a: Raster, b: Raster, k: nat, m: nat)
    requires SameDimensions(a, b) && k + m <= a.width * a.height
    ensures FlatDiff(a, b, k + m) == FlatDiff(a, b, k) + SegmentDiff(a, b, k, m)
  {
    if m > 0 {
      FlatDiffSplit(a, b, k, m - 1);
    }
  }

  lemma {:induction false} RowIsSegment(a: Raster, b: Raster, n: nat, m: nat, k: nat)
    requires SameDimensions(a, b) && n < a.height && m <= a.width
    requires k == n * a.width && k + a.width <= a.width * a.height
    ensures RowDiff(a, b, n, m) == SegmentDiff(a, b, k, m)
  {
    if m > 0 {
      RowIsSegment(a, b, n, m - 1, k);
      PixelDeltaIsTripleDelta(a, b, m - 1, n);
    }
  }

  lemma FlatDiffAddRow(a: Raster, b: Raster, n: nat)
    requires SameDimensions(a, b) && n < a.height
    ensures n * a.width + a.width <= a.width * a.height
    ensures FlatDiff(a, b, n * a.width + a.width) == FlatDiff(a, b, n * a.width) + RowDiff(a, b, n, a.width)
  {
    RowFits(a.width, a.height, n);
    FlatDiffSplit(a, b, n * a.width, a.width);
    RowIsSegment(a, b, n, a.width, n * a.width);
  }

  lemma {:induction false} RowMajorIsFlat(a: Raster, b: Raster, n: nat)
    requires SameDimensions(a, b) && n <= a.height
    ensures a.width * n <= a.width * a.height
    ensures RowMajorDiff(a, b, n) == FlatDiff(a, b, a.width * n)
  {
    if n > 0 {
      RowMajorIsFlat(a, b, n - 1);
      FlatDiffAddRow(a, b, n - 1);
      assert (n - 1) * a.width + a.width == a.width * n;
      assert (n - 1) * a.width == a.width * (n - 1);
    }
  }

  /** Visiting the pixels column by column, as the source's loops do, gives the
      same total as zipping the two buffers triple by triple in memory order:
      every pixel is counted exactly once. */
  lemma DiffInBufferOrder(a: Raster, b: Raster)
    requires SameDimensions(a, b)
    ensures TotalDiff(a, b) == FlatDiff(a, b, a.width * a.height)
  {
    GridDiffIsRowMajor(a, b, a.height);
    RowMajorIsFlat(a, b, a.height);
  }
}
