/** `median_depth_xyz` (hazmat node): the depth samples of a region of the
    aligned depth frame, their median, the anchor pixel of the region, and the
    back-projected point. Also `removeInfAndZeroValues`, which the node
    defines but never calls. */
module DepthSampling {
  import opened Numeric
  import opened MedianSelect
  import opened Backprojection

  /** Every row of the frame has the same number of columns. */
  predicate IsRectangular(g: seq<seq<real>>)
  {
    forall i :: 0 <= i < |g| ==> |g[i]| == |g[0]|
  }

  /** A `32FC1` depth frame, row by row, in raw depth units. */
  type DepthImage = g: seq<seq<real>> | IsRectangular(g) witness []

  function Rows(g: DepthImage): nat { |g| }

  function Cols(g: DepthImage): nat { if |g| == 0 then 0 else |g[0]| }

  /** `cv::Mat::empty()`: the frame has no pixel. */
  predicate IsEmpty(g: DepthImage) { Rows(g) == 0 || Cols(g) == 0 }

  /** `depth_frame.at<float>(row, col)` reads inside the frame. */
  predicate InImage(g: DepthImage, row: int, col: int)
  {
    0 <= row < Rows(g) && 0 <= col < Cols(g)
  }

  /** Raw depth units are millimetres: `d = 0.001 * depth`. */
  const DepthScale: real := 0.001

  function Sample(g: DepthImage, row: int, col: int): real
    requires InImage(g, row, col)
  {
    DepthScale * g[row][col]
  }

  /** `0.01 < d < 4.0` as C++ parses it, `(0.01 < d) < 4.0`: the bool becomes
      0 or 1, which is always below 4, so no sample is ever filtered out. */
  function RangeTestAsWritten(d: real): (keep: bool)
    ensures keep
  {
    (if 0.01 < d then 1.0 else 0.0) < 4.0
  }

  /** The integers `lo, lo + 1, ..., hi - 1`. */
  function Range(lo: int, hi: int): (r: seq<int>)
    ensures |r| == if lo < hi then hi - lo else 0
    ensures forall k :: 0 <= k < |r| ==> r[k] == lo + k
    decreases hi - lo
  {
    if lo >= hi then [] else [lo] + Range(lo + 1, hi)
  }

  /** `for (int x : vec_x)`: each float of the list truncated to an int. */
  function Truncs(xs: seq<real>): (r: seq<int>)
    ensures |r| == |xs| && forall i :: 0 <= i < |xs| ==> r[i] == Trunc(xs[i])
  {
    seq(|xs|, i requires 0 <= i < |xs| => Trunc(xs[i]))
  }

  /** Every (column, row) pair the loops visit lies inside the frame. */
  predicate GridInImage(g: DepthImage, cols: seq<int>, rows: seq<int>)
  {
    forall a, b :: 0 <= a < |cols| && 0 <= b < |rows| ==> InImage(g, rows[b], cols[a])
  }

  /** The samples of one column, in the order of `rows`. */
  function ColumnSamples(g: DepthImage, col: int, rows: seq<int>): (s: seq<real>)
    requires forall b :: 0 <= b < |rows| ==> InImage(g, rows[b], col)
    ensures |s| == |rows| && forall b :: 0 <= b < |rows| ==> s[b] == Sample(g, rows[b], col)
  {
    seq(|rows|, b requires 0 <= b < |rows| => Sample(g, rows[b], col))
  }

  /** The samples the two nested loops collect: the outer loop over the
      columns, the inner one over the rows. */
  function GridSamples(g: DepthImage, cols: seq<int>, rows: seq<int>): seq<real>
    requires GridInImage(g, cols, rows)
  {
    if |cols| == 0 then []
    else
      assert GridInImage(g, cols[..|cols| - 1], rows);
      GridSamples(g, cols[..|cols| - 1], rows) + ColumnSamples(g, cols[|cols| - 1], rows)
  }

  /** The loops yield one sample per (column, row) pair. */
  lemma {:induction false} GridSamplesCount(g: DepthImage, cols: seq<int>, rows: seq<int>)
    requires GridInImage(g, cols, rows)
    ensures |GridSamples(g, cols, rows)| == |cols| * |rows|
  {
    if |cols| > 0 {
      var n := |cols| - 1;
      assert GridInImage(g, cols[..n], rows);
      GridSamplesCount(g, cols[..n], rows);
      assert |cols| * |rows| == n * |rows| + |rows|;
    }
  }

  /** The sample of column `a` and row `b` sits at position `a * |rows| + b`. */
  lemma {:induction false} GridSampleAt(g: DepthImage, cols: seq<int>, rows: seq<int>, a: nat, b: nat)
    requires GridInImage(g, cols, rows)
    requires a < |cols| && b < |rows|
    ensures |GridSamples(g, cols, rows)| == |cols| * |rows|
    ensures a * |rows| + b < |cols| * |rows|
    ensures GridSamples(g, cols, rows)[a * |rows| + b] == Sample(g, rows[b], cols[a])
  {
    var n, front := |cols| - 1, cols[..|cols| - 1];
    assert GridInImage(g, front, rows);
    GridSamplesCount(g, cols, rows);
    GridSamplesCount(g, front, rows);
    LayoutIndex(a, b, |cols|, |rows|);
    var s := GridSamples(g, cols, rows);
    assert s == GridSamples(g, front, rows) + ColumnSamples(g, cols[n], rows);
    if a < n {
      GridSampleAt(g, front, rows, a, b);
      assert front[a] == cols[a];
    } else {
      assert s[a * |rows| + b] == ColumnSamples(g, cols[n], rows)[b];
    }
  }

  lemma LayoutIndex(a: nat, b: nat, n: nat, m: nat)
    requires a < n && b < m
    ensures a * m + b < n * m
  {
    var c := n - a - 1;
    assert n * m == (a + 1 + c) * m == a * m + m + c * m;
    assert c * m >= 0;
  }

  /** Box mode visits the integer columns `[int(vx0), vx1)` and rows
      `[int(vy0), vy1)`, so it yields `max(0, ...) * max(0, ...)` samples. */
  lemma BoxSampleCount(g: DepthImage, vx0: real, vx1: real, vy0: real, vy1: real)
    requires GridInImage(g, Range(Trunc(vx0), Ceil(vx1)), Range(Trunc(vy0), Ceil(vy1)))
    ensures |GridSamples(g, Range(Trunc(vx0), Ceil(vx1)), Range(Trunc(vy0), Ceil(vy1)))|
            == Max0(Ceil(vx1) - Trunc(vx0)) * Max0(Ceil(vy1) - Trunc(vy0))
  {
    GridSamplesCount(g, Range(Trunc(vx0), Ceil(vx1)), Range(Trunc(vy0), Ceil(vy1)));
  }

  function Max0(n: int): nat { if n < 0 then 0 else n }

  /** The box-mode loops, as written:
      `for (int i = vec_x[0]; i < vec_x[1]; i++) for (int j = vec_y[0]; j < vec_y[1]; j++)`.
      The inner loop is `CollectBoxColumn`. */
  method CollectBoxSamples(g: DepthImage, vx0: real, vx1: real, vy0: real, vy1: real)
    returns (values: seq<real>)
    requires GridInImage(g, Range(Trunc(vx0), Ceil(vx1)), Range(Trunc(vy0), Ceil(vy1)))
    ensures values == GridSamples(g, Range(Trunc(vx0), Ceil(vx1)), Range(Trunc(vy0), Ceil(vy1)))
  {
    var x0 := Trunc(vx0);
    ghost var cols, rows := Range(x0, Ceil(vx1)), Range(Trunc(vy0), Ceil(vy1));
    values := [];
    var i := x0;
    while (i as real) < vx1
      invariant x0 <= i && (i <= Ceil(vx1) || i == x0)
      invariant i - x0 <= |cols|
      invariant GridInImage(g, cols[..i - x0], rows)
      invariant values == GridSamples(g, cols[..i - x0], rows)
      decreases Ceil(vx1) - i
    {
      ghost var a := i - x0;
      assert a < |cols| && cols[a] == i;
      assert forall b :: 0 <= b < |rows| ==> InImage(g, rows[b], cols[a]);
      var column := CollectBoxColumn(g, i, vy0, vy1);
      values := values + column;
      assert cols[..a + 1][..a] == cols[..a];
      i := i + 1;
    }
    assert cols[..i - x0] == cols;
  }

  /** The inner box-mode loop over the rows `[int(vy0), vy1)` of column `i`. */
  method CollectBoxColumn(g: DepthImage, i: int, vy0: real, vy1: real) returns (values: seq<real>)
    requires forall b :: 0 <= b < |Range(Trunc(vy0), Ceil(vy1))| ==>
               InImage(g, Range(Trunc(vy0), Ceil(vy1))[b], i)
    ensures values == ColumnSamples(g, i, Range(Trunc(vy0), Ceil(vy1)))
  {
    var y0 := Trunc(vy0);
    ghost var rows := Range(y0, Ceil(vy1));
    values := [];
    var j := y0;
    while (j as real) < vy1
      invariant y0 <= j && (j <= Ceil(vy1) || j == y0)
      invariant values == ColumnSamples(g, i, rows)[..j - y0]
      decreases Ceil(vy1) - j
    {
      assert rows[j - y0] == j;
      var d := DepthScale * g[j][i];
      if RangeTestAsWritten(d) {
        values := values + [d];
      }
      assert ColumnSamples(g, i, rows)[..j + 1 - y0]
             == ColumnSamples(g, i, rows)[..j - y0] + [Sample(g, j, i)];
      j := j + 1;
    }
    assert ColumnSamples(g, i, rows)[..j - y0] == ColumnSamples(g, i, rows);
  }

  /** The point-set loops, as written: `for (int x : vec_x) for (int y : vec_y)`.
      The inner loop is `CollectPointSetColumn`. */
  method CollectPointSetSamples(g: DepthImage, vx: seq<real>, vy: seq<real>)
    returns (values: seq<real>)
    requires GridInImage(g, Truncs(vx), Truncs(vy))
    ensures values == GridSamples(g, Truncs(vx), Truncs(vy))
  {
    ghost var cols, rows := Truncs(vx), Truncs(vy);
    values := [];
    var a := 0;
    while a < |vx|
      invariant 0 <= a <= |vx|
      invariant GridInImage(g, cols[..a], rows)
      invariant values == GridSamples(g, cols[..a], rows)
    {
      var x := Trunc(vx[a]);
      assert forall b :: 0 <= b < |rows| ==> InImage(g, rows[b], cols[a]);
      var column := CollectPointSetColumn(g, x, vy);
      values := values + column;
      assert cols[..a + 1][..a] == cols[..a];
      a := a + 1;
    }
    assert cols[..a] == cols;
  }

  /** The inner point-set loop over the rows `int(y)` of column `x`. */
  method CollectPointSetColumn(g: DepthImage, x: int, vy: seq<real>) returns (values: seq<real>)
    requires forall b :: 0 <= b < |Truncs(vy)| ==> InImage(g, Truncs(vy)[b], x)
    ensures values == ColumnSamples(g, x, Truncs(vy))
  {
    ghost var rows := Truncs(vy);
    values := [];
    var b := 0;
    while b < |vy|
      invariant 0 <= b <= |vy|
      invariant values == ColumnSamples(g, x, rows)[..b]
    {
      var y := Trunc(vy[b]);
      assert y == rows[b];
      var d := DepthScale * g[y][x];
      if RangeTestAsWritten(d) {
        values := values + [d];
      }
      assert ColumnSamples(g, x, rows)[..b + 1] == ColumnSamples(g, x, rows)[..b] + [Sample(g, y, x)];
      b := b + 1;
    }
    assert ColumnSamples(g, x, rows)[..b] == ColumnSamples(g, x, rows);
  }

  /** `std::accumulate(v.begin(), v.end(), 0.0f)`. */
  function Sum(xs: seq<real>): real
  {
    if xs == [] then 0.0 else Sum(xs[..|xs| - 1]) + xs[|xs| - 1]
  }

  /** `std::accumulate(...) / v.size()`: the anchor pixel coordinate. */
  function Mean(xs: seq<real>): real
    requires |xs| > 0
  {
    Sum(xs) / |xs| as real
  }

  /** A sum of `n` values, each within `[lo, hi]`, lies within
      `[n * lo, n * hi]`. */
  lemma {:induction false} SumBounds(xs: seq<real>, lo: real, hi: real)
    requires forall i :: 0 <= i < |xs| ==> lo <= xs[i] <= hi
    ensures |xs| as real * lo <= Sum(xs) <= |xs| as real * hi
  {
    if xs != [] {
      SumBounds(xs[..|xs| - 1], lo, hi);
    }
  }

  lemma MeanBounds(xs: seq<real>, lo: real, hi: real)
    requires |xs| > 0
    requires forall i :: 0 <= i < |xs| ==> lo <= xs[i] <= hi
    ensures lo <= Mean(xs) <= hi
  {
    SumBounds(xs, lo, hi);
    var n := |xs| as real;
    assert Mean(xs) * n == Sum(xs);
  }

  /** The anchor of a two-element list is its midpoint. */
  lemma MeanOfPair(a: real, b: real)
    ensures Mean([a, b]) == (a + b) / 2.0
  {
    assert [a, b][..1] == [a];
    assert [a][..0] == [];
    assert Sum([a]) == a;
    assert Sum([a, b]) == a + b;
    assert |[a, b]| as real == 2.0;
  }

  /** The outcome of `median_depth_xyz`: reading outside the frame, reading
      `vec_y[1]` of a shorter list, or taking the median of no sample is
      undefined behaviour in the C++; otherwise the back-projected point. */
  datatype DepthResult = Undefined | Located(p: Point3)

  /** Box mode is chosen by `vec_x.size() == 2`. */
  predicate BoxMode(vx: seq<real>) { |vx| == 2 }

  /** The columns and rows the loops of the chosen mode visit. */
  function VisitedColumns(vx: seq<real>): seq<int>
  {
    if BoxMode(vx) then Range(Trunc(vx[0]), Ceil(vx[1])) else Truncs(vx)
  }

  function VisitedRows(vx: seq<real>, vy: seq<real>): seq<int>
    requires BoxMode(vx) ==> |vy| >= 2
  {
    if BoxMode(vx) then Range(Trunc(vy[0]), Ceil(vy[1])) else Truncs(vy)
  }

  /** What `median_depth_xyz` computes: the median of the samples, anchored at
      the mean of each list, back-projected with the node's intrinsics. */
  function MedianDepthSpec(g: DepthImage, vx: seq<real>, vy: seq<real>, k: Intrinsics): DepthResult
  {
    if BoxMode(vx) && |vy| < 2 then Undefined
    else
      var cols, rows := VisitedColumns(vx), VisitedRows(vx, vy);
      if !GridInImage(g, cols, rows) then Undefined
      else
        var s := GridSamples(g, cols, rows);
        if |s| == 0 then Undefined
        else
          assert |vx| > 0 && |vy| > 0 by { NonEmptyLists(g, vx, vy); }
          Located(PixelToPoint(Mean(vx), Mean(vy), Median(s), k))
  }

  /** A sample exists only when both lists are non-empty. */
  lemma NonEmptyLists(g: DepthImage, vx: seq<real>, vy: seq<real>)
    requires BoxMode(vx) ==> |vy| >= 2
    requires GridInImage(g, VisitedColumns(vx), VisitedRows(vx, vy))
    requires |GridSamples(g, VisitedColumns(vx), VisitedRows(vx, vy))| > 0
    ensures |vx| > 0 && |vy| > 0
  {
    GridSamplesCount(g, VisitedColumns(vx), VisitedRows(vx, vy));
  }

  /** For a box region (the only kind the hazmat node passes) inside the
      frame, the located point lies on the ray through the centre of the box,
      at the median of the region's depths. */
  lemma BoxRegionLocated(g: DepthImage, x0: real, x1: real, y0: real, y1: real, k: Intrinsics)
    requires GridInImage(g, Range(Trunc(x0), Ceil(x1)), Range(Trunc(y0), Ceil(y1)))
    requires |GridSamples(g, Range(Trunc(x0), Ceil(x1)), Range(Trunc(y0), Ceil(y1)))| > 0
    ensures MedianDepthSpec(g, [x0, x1], [y0, y1], k)
            == Located(PixelToPoint((x0 + x1) / 2.0, (y0 + y1) / 2.0,
                 Median(GridSamples(g, Range(Trunc(x0), Ceil(x1)), Range(Trunc(y0), Ceil(y1)))), k))
  {
    MeanOfPair(x0, x1);
    MeanOfPair(y0, y1);
  }

  /** `median_depth_xyz`, with `findMedian` run on a copy of the samples. */
  method MedianDepthXYZ(g: DepthImage, vx: seq<real>, vy: seq<real>, k: Intrinsics)
    returns (r: DepthResult)
    ensures r == MedianDepthSpec(g, vx, vy, k)
  {
    if BoxMode(vx) && |vy| < 2 {
      return Undefined;
    }
    var cols, rows := VisitedColumns(vx), VisitedRows(vx, vy);
    if !GridInImage(g, cols, rows) {
      return Undefined;
    }
    var depthValues;
    if BoxMode(vx) {
      depthValues := CollectBoxSamples(g, vx[0], vx[1], vy[0], vy[1]);
    } else {
      depthValues := CollectPointSetSamples(g, vx, vy);
    }
    if |depthValues| == 0 {
      return Undefined;
    }
    NonEmptyLists(g, vx, vy);
    var a := new real[|depthValues|](i requires 0 <= i < |depthValues| => depthValues[i]);
    assert a[..] == depthValues;
    var medianDepth := FindMedian(a);
    var pixelX, pixelY := Mean(vx), Mean(vy);
    r := Located(PixelToPoint(pixelX, pixelY, medianDepth, k));
  }

  /** The predicate of `removeInfAndZeroValues`: `f == +inf || f == 0.0f`.
      NaN compares unequal to both, and `-inf` is not `+inf`. */
  predicate Removed(e: Ext)
  {
    e == PosInf || e == Fin(0.0)
  }

  /** The elements that `std::remove_if` keeps, in their original order. */
  function Kept(s: seq<Ext>): seq<Ext>
  {
    if s == [] then []
    else Kept(s[..|s| - 1]) + (if Removed(s[|s| - 1]) then [] else [s[|s| - 1]])
  }

  /** An element survives exactly when it occurs and is neither `+inf` nor
      `0.0`; in particular `-inf` and NaN survive. */
  lemma {:induction false} KeptMembers(s: seq<Ext>, e: Ext)
    ensures e in Kept(s) <==> e in s && !Removed(e)
    ensures |Kept(s)| <= |s|
  {
    if s != [] {
      KeptMembers(s[..|s| - 1], e);
      assert s == s[..|s| - 1] + [s[|s| - 1]];
    }
  }

  /** A sequence with nothing to remove is left as it is. */
  lemma {:induction false} KeptUnchanged(s: seq<Ext>)
    requires forall i :: 0 <= i < |s| ==> !Removed(s[i])
    ensures Kept(s) == s
  {
    if s != [] {
      KeptUnchanged(s[..|s| - 1]);
    }
  }

  /** `vec.erase(std::remove_if(...), vec.end())` on the first `a.Length`
      elements: the survivors are compacted to the front in their original
      order, and their count is the new size of the vector. */
  method RemoveInfAndZeroValues(a: array<Ext>) returns (n: nat)
    modifies a
    ensures n <= a.Length
    ensures a[..n] == Kept(old(a[..]))
  {
    ghost var orig := a[..];
    n := 0;
    var i := 0;
    while i < a.Length
      invariant n <= i <= a.Length
      invariant a[..n] == Kept(orig[..i])
      invariant a[i..] == orig[i..]
    {
      ghost var before := a[..];
      assert orig[..i + 1][..i] == orig[..i];
      ghost var next := Kept(orig[..i]) + (if Removed(orig[i]) then [] else [orig[i]]);
      assert Kept(orig[..i + 1]) == next;
      assert a[i] == orig[i] by {
        assert a[i..][0] == orig[i..][0];
      }
      if !Removed(a[i]) {
        a[n] := a[i];
        assert a[..n + 1] == before[..n] + [before[i]];
        n := n + 1;
      }
      assert a[..n] == next;
      assert a[i + 1..] == before[i + 1..];
      assert before[i + 1..] == before[i..][1..];
      i := i + 1;
    }
    assert orig[..i] == orig;
  }
}
