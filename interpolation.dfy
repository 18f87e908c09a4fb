/** Interpolation of tabulated data (class `Interpolation` of analysis.cs):
    piecewise linear and bilinear on a grid, and the Lagrange, Newton and
    barycentric forms of the interpolating polynomial. Where the source
    divides by zero (repeated nodes, a barycentric query at a node) the double
    it returns is NaN or infinite, written `None` here. */
module Interpolating {
  import opened Common

  datatype Method = Linear | Lagrange | Newton | Barycentric

  /** The form the complex overload of `Compute` runs: it has no piecewise-linear
      case, and `Linear`, its default, falls through to Lagrange. */
  function ComplexAlgorithm(m: Method): (r: Method)
    ensures r != Linear
    ensures m != Linear ==> r == m
    ensures m == Linear ==> r == Lagrange
  {
    match m
    case Newton => Newton
    case Barycentric => Barycentric
    case _ => Lagrange
  }

  // ----- piecewise linear and bilinear -----

  /** `v` lies in cell `[x[i], x[i + 1])`. */
  predicate InCell(x: seq<real>, i: nat, v: real)
    requires i + 1 < |x|
  {
    x[i] <= v < x[i + 1]
  }

  /** The number of cells the loops visit, `x.Length - 1` (none for an empty grid). */
  function Cells(x: seq<real>): nat {
    if |x| == 0 then 0 else |x| - 1
  }

  /** The last of the first `k` cells that contains `v`: the loops overwrite
      their result at every matching cell, so the last match wins. */
  function LastCell(x: seq<real>, v: real, k: nat): (c: Option<nat>)
    requires k <= Cells(x)
    ensures c.Some? ==> c.value < k && InCell(x, c.value, v)
    ensures c.Some? ==> forall p: nat :: c.value < p < k ==> !InCell(x, p, v)
    ensures c.None? <==> forall p: nat :: p < k ==> !InCell(x, p, v)
  {
    if k == 0 then None
    else if InCell(x, k - 1, v) then Some(k - 1)
    else LastCell(x, v, k - 1)
  }

  /** The straight line through `(x[i], y[i])` and `(x[i + 1], y[i + 1])` at `v`. */
  function Segment(x: seq<real>, y: seq<real>, v: real, i: nat): real
    requires i + 1 < |x| && i + 1 < |y| && x[i] < x[i + 1]
  {
    Line(x[i], x[i + 1], y[i], y[i + 1], v)
  }

  function Line(x0: real, x1: real, y0: real, y1: real, v: real): real
    requires x0 < x1
  {
    y0 + (v - x0) * (y1 - y0) / (x1 - x0)
  }

  lemma LineAtStart(x0: real, x1: real, y0: real, y1: real)
    requires x0 < x1
    ensures Line(x0, x1, y0, y1, x0) == y0
  {
    assert (x0 - x0) * (y1 - y0) == 0.0;
  }

  lemma LineBetween(x0: real, x1: real, y0: real, y1: real, v: real)
    requires x0 <= v < x1
    ensures y0 <= y1 ==> y0 <= Line(x0, x1, y0, y1, v) <= y1
    ensures y1 <= y0 ==> y1 <= Line(x0, x1, y0, y1, v) <= y0
  {
    var t := (v - x0) / (x1 - x0);
    FractionInUnit(v - x0, x1 - x0);
    var d := y1 - y0;
    ScaleFraction(v - x0, d, x1 - x0);
    assert Line(x0, x1, y0, y1, v) == y0 + t * d;
    if d >= 0.0 {
      assert 0.0 <= t * d <= d;
    } else {
      assert d <= t * d <= 0.0;
    }
  }

  /** Every cell among the first `k` that holds `v` has both its values in
      `y`: the loop reads `y[i]` and `y[i + 1]` only at a matching cell. */
  predicate CoveredUpTo(x: seq<real>, y: seq<real>, v: real, k: nat)
    requires k <= Cells(x)
  {
    forall p: nat :: p < k && InCell(x, p, v) ==> p + 1 < |y|
  }

  function LinearUpTo(x: seq<real>, y: seq<real>, v: real, k: nat): real
    requires k <= Cells(x) && CoveredUpTo(x, y, v, k)
  {
    match LastCell(x, v, k)
    case None => 0.0
    case Some(i) => Segment(x, y, v, i)
  }

  /** What `linear` returns: the segment of the last cell containing `v`, and
      0 when no cell contains it. */
  function PiecewiseLinear(x: seq<real>, y: seq<real>, v: real): real
    requires CoveredUpTo(x, y, v, Cells(x))
  {
    LinearUpTo(x, y, v, Cells(x))
  }

  /** `linear`: one pass over the cells, overwriting `yval` at each match. A
      matching cell whose right end lies past `y` makes the read throw. */
  method InterpolateLinear(x: seq<real>, y: seq<real>, xl: real) returns (r: Result<real>)
    ensures r.Err? <==> !CoveredUpTo(x, y, xl, Cells(x))
    ensures r.Err? ==> r.error == IndexOutOfRange
    ensures r.Ok? ==> r.value == PiecewiseLinear(x, y, xl)
  {
    var yval := 0.0;
    var length := |x| - 1;
    var i := 0;
    while i < length
      invariant 0 <= i <= Cells(x)
      invariant CoveredUpTo(x, y, xl, i)
      invariant yval == LinearUpTo(x, y, xl, i)
    {
      if xl >= x[i] && xl < x[i + 1] {
        if i + 1 >= |y| {
          assert !CoveredUpTo(x, y, xl, Cells(x)) by {
            assert InCell(x, i, xl);
          }
          return Err(IndexOutOfRange);
        }
        yval := y[i] + (xl - x[i]) * (y[i + 1] - y[i]) / (x[i + 1] - x[i]);
      }
      i := i + 1;
    }
    return Ok(yval);
  }

  /** Strictly increasing nodes. */
  predicate Increasing(x: seq<real>) {
    forall a, b :: 0 <= a < b < |x| ==> x[a] < x[b]
  }

  /** On an increasing grid, a point lies in at most one cell. */
  lemma OnlyCell(x: seq<real>, v: real, i: nat, k: nat)
    requires Increasing(x) && i < k <= Cells(x) && InCell(x, i, v)
    ensures LastCell(x, v, k) == Some(i)
  {
  }

  /** On an increasing grid, linear interpolation at every node but the last
      returns the tabulated value. */
  lemma LinearAtNode(x: seq<real>, y: seq<real>, k: nat)
    requires |x| <= |y| && Increasing(x) && k + 1 < |x|
    ensures PiecewiseLinear(x, y, x[k]) == y[k]
  {
    OnlyCell(x, x[k], k, Cells(x));
    LineAtStart(x[k], x[k + 1], y[k], y[k + 1]);
  }

  /** Outside `[x[0], x[last])` no cell matches and the result is 0, at the
      last node itself included. */
  lemma LinearOutside(x: seq<real>, y: seq<real>, v: real)
    requires |x| <= |y| && Increasing(x) && |x| >= 1
    requires v < x[0] || v >= x[|x| - 1]
    ensures PiecewiseLinear(x, y, v) == 0.0
  {
    forall p: nat | p < Cells(x)
      ensures !InCell(x, p, v)
    {
      if v >= x[|x| - 1] && p + 1 < |x| - 1 {
        assert x[p + 1] < x[|x| - 1];
      }
      if v < x[0] && 0 < p {
        assert x[0] < x[p];
      }
    }
  }

  /** Inside a cell the linear interpolant lies between the two tabulated
      values at its ends. */
  lemma LinearBetween(x: seq<real>, y: seq<real>, v: real)
    requires CoveredUpTo(x, y, v, Cells(x))
    ensures match LastCell(x, v, Cells(x))
      case None => PiecewiseLinear(x, y, v) == 0.0
      case Some(i) =>
        var r := PiecewiseLinear(x, y, v);
        (y[i] <= y[i + 1] ==> y[i] <= r <= y[i + 1]) && (y[i + 1] <= y[i] ==> y[i + 1] <= r <= y[i])
  {
    match LastCell(x, v, Cells(x))
    case None =>
    case Some(i) =>
      LineBetween(x[i], x[i + 1], y[i], y[i + 1], v);
  }

  lemma FractionInUnit(a: real, w: real)
    requires 0.0 <= a < w
    ensures 0.0 <= a / w < 1.0
  {
    assert a / w * w == a;
  }

  lemma ScaleFraction(a: real, d: real, w: real)
    requires w != 0.0
    ensures a * d / w == (a / w) * d
  {
  }

  /** A two-dimensional array: every row has the length of the first. */
  predicate Rectangular(z: Matrix) {
    forall i :: 0 <= i < |z| ==> |z[i]| == |z[0]|
  }

  /** The second dimension of `z`. */
  function Columns(z: Matrix): nat {
    if |z| == 0 then 0 else |z[0]|
  }

  /** The four corners of cell `(i, j)` lie inside `z`. */
  predicate CellFits(z: Matrix, i: nat, j: nat) {
    i + 1 < |z| && j + 1 < Columns(z)
  }

  /** The bilinear patch of cell `(i, j)` at `(xv, yv)`, as the source writes it. */
  function Patch(x: seq<real>, y: seq<real>, z: Matrix, xv: real, yv: real, i: nat, j: nat): real
    requires Rectangular(z) && CellFits(z, i, j) && i + 1 < |x| && j + 1 < |y|
    requires x[i] < x[i + 1] && y[j] < y[j + 1]
  {
    Blend(z[i][j], z[i + 1][j], z[i][j + 1], z[i + 1][j + 1], x[i], x[i + 1], y[j], y[j + 1], xv, yv)
  }

  /** The four corner values weighted by the areas of the opposite sub-rectangles. */
  function Blend(z00: real, z10: real, z01: real, z11: real, x0: real, x1: real, y0: real, y1: real, xv: real, yv: real): real
    requires x0 < x1 && y0 < y1
  {
    var dx := x1 - x0;
    var dy := y1 - y0;
    Weighted(z00, x1 - xv, y1 - yv, dx, dy) + Weighted(z10, xv - x0, y1 - yv, dx, dy)
    + Weighted(z01, x1 - xv, yv - y0, dx, dy) + Weighted(z11, xv - x0, yv - y0, dx, dy)
  }

  /** One term of the blend: `z * a * b / dx / dy`. */
  function Weighted(z: real, a: real, b: real, dx: real, dy: real): real
    requires dx != 0.0 && dy != 0.0
  {
    z * a * b / dx / dy
  }

  /** At its lower-left corner the blend is the corner value. */
  lemma BlendAtCorner(z00: real, z10: real, z01: real, z11: real, x0: real, x1: real, y0: real, y1: real)
    requires x0 < x1 && y0 < y1
    ensures Blend(z00, z10, z01, z11, x0, x1, y0, y1, x0, y0) == z00
  {
    var dx, dy := x1 - x0, y1 - y0;
    CancelTwice(z00, dx, dy);
    assert Weighted(z10, 0.0, dy, dx, dy) == 0.0;
    assert Weighted(z01, dx, 0.0, dx, dy) == 0.0;
    assert Weighted(z11, 0.0, 0.0, dx, dy) == 0.0;
  }

  lemma CancelTwice(z: real, p: real, q: real)
    requires p != 0.0 && q != 0.0
    ensures Weighted(z, p, q, p, q) == z
  {
    assert z * p * q / p == z * q;
  }

  function Pick(x: seq<real>, y: seq<real>, z: Matrix, xv: real, yv: real, ci: Option<nat>, cj: Option<nat>): real
    requires Rectangular(z)
    requires ci.Some? ==> ci.value + 1 < |x| && x[ci.value] < x[ci.value + 1]
    requires cj.Some? ==> cj.value + 1 < |y| && y[cj.value] < y[cj.value + 1]
    requires ci.Some? && cj.Some? ==> CellFits(z, ci.value, cj.value)
  {
    if ci.Some? && cj.Some? then Patch(x, y, z, xv, yv, ci.value, cj.value) else 0.0
  }

  /** The cells holding `(xv, yv)` are the `x`-cells holding `xv` paired with
      the `y`-cells holding `yv`; the last of them has the largest indices, so
      every one of them fits in `z` exactly when the last one does. */
  predicate GridFits(x: seq<real>, y: seq<real>, z: Matrix, xv: real, yv: real) {
    var ci := LastCell(x, xv, Cells(x));
    var cj := LastCell(y, yv, Cells(y));
    ci.Some? && cj.Some? ==> CellFits(z, ci.value, cj.value)
  }

  /** What `bilinear` returns: the patch of the last cell (row-major) holding
      `(xv, yv)`, which is the last `x`-cell paired with the last `y`-cell, and
      0 when there is none. */
  function Bilinear(x: seq<real>, y: seq<real>, z: Matrix, xv: real, yv: real): real
    requires Rectangular(z) && GridFits(x, y, z, xv, yv)
  {
    Pick(x, y, z, xv, yv, LastCell(x, xv, Cells(x)), LastCell(y, yv, Cells(y)))
  }

  /** `bilinear`: a pass over every cell, overwriting `zval` at each match. The
      first matching cell that reaches past `z` makes the read throw. */
  method InterpolateBilinear(x: seq<real>, y: seq<real>, z: Matrix, xval: real, yval: real) returns (r: Result<real>)
    requires Rectangular(z)
    ensures r.Err? <==> !GridFits(x, y, z, xval, yval)
    ensures r.Err? ==> r.error == IndexOutOfRange
    ensures r.Ok? ==> r.value == Bilinear(x, y, z, xval, yval)
  {
    var zval := 0.0;
    var xlength := |x| - 1;
    var cj := LastCell(y, yval, Cells(y));
    var i := 0;
    while i < xlength
      invariant 0 <= i <= Cells(x)
      invariant forall p: nat :: p < i && InCell(x, p, xval) && cj.Some? ==> CellFits(z, p, cj.value)
      invariant zval == Pick(x, y, z, xval, yval, LastCell(x, xval, i), cj)
    {
      var row := BilinearRow(x, y, z, xval, yval, i, zval);
      if row.Err? {
        assert InCell(x, i, xval);
        return Err(IndexOutOfRange);
      }
      zval := row.value;
      i := i + 1;
    }
    return Ok(zval);
  }

  /** The inner loop of `bilinear` over the `y`-cells of `x`-cell `i`. */
  method BilinearRow(x: seq<real>, y: seq<real>, z: Matrix, xval: real, yval: real, i: nat, zval0: real) returns (r: Result<real>)
    requires Rectangular(z) && i + 1 < |x|
    ensures var cj := LastCell(y, yval, Cells(y));
      r.Err? <==> InCell(x, i, xval) && cj.Some? && !CellFits(z, i, cj.value)
    ensures var cj := LastCell(y, yval, Cells(y));
      r.Ok? ==> r.value == if InCell(x, i, xval) && cj.Some? then Patch(x, y, z, xval, yval, i, cj.value) else zval0
  {
    var zval := zval0;
    var ylength := |y| - 1;
    var j := 0;
    while j < ylength
      invariant 0 <= j <= Cells(y)
      invariant forall q: nat :: q < j && InCell(x, i, xval) && InCell(y, q, yval) ==> CellFits(z, i, q)
      invariant zval == if InCell(x, i, xval) && LastCell(y, yval, j).Some?
        then Patch(x, y, z, xval, yval, i, LastCell(y, yval, j).value)
        else zval0
    {
      if xval >= x[i] && xval < x[i + 1] && yval >= y[j] && yval < y[j + 1] {
        if !CellFits(z, i, j) {
          assert InCell(y, j, yval);
          return Err(IndexOutOfRange);
        }
        zval := CellPatch(x, y, z, xval, yval, i, j);
      }
      j := j + 1;
    }
    return Ok(zval);
  }

  /** The four-term formula of `bilinear` for a cell holding the point. */
  method CellPatch(x: seq<real>, y: seq<real>, z: Matrix, xval: real, yval: real, i: nat, j: nat) returns (zval: real)
    requires Rectangular(z) && CellFits(z, i, j) && i + 1 < |x| && j + 1 < |y|
    requires InCell(x, i, xval) && InCell(y, j, yval)
    ensures zval == Patch(x, y, z, xval, yval, i, j)
  {
    zval := z[i][j] * (x[i + 1] - xval) * (y[j + 1] - yval) / (x[i + 1] - x[i]) / (y[j + 1] - y[j]) +
      z[i + 1][j] * (xval - x[i]) * (y[j + 1] - yval) / (x[i + 1] - x[i]) / (y[j + 1] - y[j]) +
      z[i][j + 1] * (x[i + 1] - xval) * (yval - y[j]) / (x[i + 1] - x[i]) / (y[j + 1] - y[j]) +
      z[i + 1][j + 1] * (xval - x[i]) * (yval - y[j]) / (x[i + 1] - x[i]) / (y[j + 1] - y[j]);
  }

  /** On increasing grids, bilinear interpolation at a grid node (the last row
      and column excepted) returns the tabulated value. */
  lemma BilinearAtNode(x: seq<real>, y: seq<real>, z: Matrix, i: nat, j: nat)
    requires IsMatrix(z, |x|, |y|) && Increasing(x) && Increasing(y)
    requires i + 1 < |x| && j + 1 < |y|
    ensures Bilinear(x, y, z, x[i], y[j]) == z[i][j]
  {
    OnlyCell(x, x[i], i, Cells(x));
    OnlyCell(y, y[j], j, Cells(y));
    BlendAtCorner(z[i][j], z[i + 1][j], z[i][j + 1], z[i + 1][j + 1], x[i], x[i + 1], y[j], y[j + 1]);
  }

  /** Outside the grid, bilinear interpolation returns 0. */
  lemma BilinearOutside(x: seq<real>, y: seq<real>, z: Matrix, xv: real, yv: real)
    requires IsMatrix(z, |x|, |y|) && Increasing(x) && Increasing(y) && |x| >= 1 && |y| >= 1
    requires xv < x[0] || xv >= x[|x| - 1] || yv < y[0] || yv >= y[|y| - 1]
    ensures Bilinear(x, y, z, xv, yv) == 0.0
  {
    if xv < x[0] || xv >= x[|x| - 1] {
      LinearOutside(x, x, xv);
    } else {
      LinearOutside(y, y, yv);
    }
  }

  // ----- Lagrange -----

  /** No two of the first `k` nodes coincide with any other node. */
  predicate RowsDistinct(x: seq<real>, k: nat)
    requires k <= |x|
  {
    forall a, b :: 0 <= a < k && 0 <= b < |x| && a != b ==> x[a] != x[b]
  }

  /** Pairwise distinct nodes. */
  predicate Distinct(x: seq<real>) {
    RowsDistinct(x, |x|)
  }

  /** Node `i` differs from every other node among the first `j`. */
  predicate RowDistinct(x: seq<real>, i: nat, j: nat)
    requires i < |x|
  {
    forall m :: 0 <= m < j && m < |x| && m != i ==> x[i] != x[m]
  }

  /** `Products` after the inner loop has passed the first `j` nodes:
      `y[i]` times the factors `(v - x[m]) / (x[i] - x[m])`, `m < j`, `m != i`. */
  function LagrangeTerm(x: seq<real>, y: seq<real>, v: real, i: nat, j: nat): real
    requires i < |x| <= |y| && j <= |x| && RowDistinct(x, i, j)
  {
    if j == 0 then y[i]
    else if i == j - 1 then LagrangeTerm(x, y, v, i, j - 1)
    else LagrangeTerm(x, y, v, i, j - 1) * ((v - x[j - 1]) / (x[i] - x[j - 1]))
  }

  /** The sum of the first `k` Lagrange terms. */
  function LagrangeSum(x: seq<real>, y: seq<real>, v: real, k: nat): real
    requires k <= |x| <= |y| && RowsDistinct(x, k)
  {
    if k == 0 then 0.0 else LagrangeSum(x, y, v, k - 1) + LagrangeTerm(x, y, v, k - 1, |x|)
  }

  /** `lagra`. Reading `y[0]` fails on an empty `y`, and `y[i]` on a `y`
      shorter than `x`; a repeated node makes a factor divide by zero, and the
      NaN or infinity reaches the sum. */
  method InterpolateLagrange(x: seq<real>, y: seq<real>, xval: real) returns (r: Result<Option<real>>)
    ensures r.Err? <==> |y| == 0 || |y| < |x|
    ensures r.Err? ==> r.error == IndexOutOfRange
    ensures r.Ok? ==> (r.value.None? <==> !Distinct(x))
    ensures r.Ok? && r.value.Some? ==> Distinct(x) && r.value.value == LagrangeSum(x, y, xval, |x|)
  {
    // The source throws at the first read of a missing `y[i]`; a division by
    // zero before it does not throw, so checking the lengths first gives the
    // same outcome.
    if |y| == 0 || |y| < |x| {
      return Err(IndexOutOfRange);
    }
    var yval := 0.0;
    var products := y[0];
    var length := |x|;
    for i := 0 to length
      invariant RowsDistinct(x, i)
      invariant yval == LagrangeSum(x, y, xval, i)
    {
      var ok;
      ok, products := LagrangeRow(x, y, xval, i);
      if !ok {
        return Ok(None);
      }
      yval := yval + products;
    }
    return Ok(Some(yval));
  }

  /** The inner loop of `lagra` for term `i`; a repeated node stops it. */
  method LagrangeRow(x: seq<real>, y: seq<real>, xval: real, i: nat) returns (ok: bool, products: real)
    requires i < |x| <= |y|
    ensures ok <==> RowDistinct(x, i, |x|)
    ensures ok ==> products == LagrangeTerm(x, y, xval, i, |x|)
  {
    products := y[i];
    for j := 0 to |x|
      invariant RowDistinct(x, i, j)
      invariant products == LagrangeTerm(x, y, xval, i, j)
    {
      if i != j {
        if x[i] - x[j] == 0.0 {
          return false, products;
        }
        products := products * ((xval - x[j]) / (x[i] - x[j]));
      }
    }
    return true, products;
  }

  /** At node `x[k]` every other term has the factor `(x[k] - x[k]) / ...`. */
  lemma {:induction false} LagrangeTermVanishes(x: seq<real>, y: seq<real>, i: nat, k: nat, j: nat)
    requires i < |x| <= |y| && j <= |x| && RowDistinct(x, i, j)
    requires k < j && k != i
    ensures LagrangeTerm(x, y, x[k], i, j) == 0.0
  {
    if j - 1 == k {
      assert (x[k] - x[k]) / (x[i] - x[k]) == 0.0;
    } else {
      LagrangeTermVanishes(x, y, i, k, j - 1);
    }
  }

  /** At its own node every factor of a term is 1. */
  lemma {:induction false} LagrangeTermAtOwnNode(x: seq<real>, y: seq<real>, i: nat, j: nat)
    requires i < |x| <= |y| && j <= |x| && RowDistinct(x, i, j)
    ensures LagrangeTerm(x, y, x[i], i, j) == y[i]
  {
    if j > 0 {
      LagrangeTermAtOwnNode(x, y, i, j - 1);
      if i != j - 1 {
        assert (x[i] - x[j - 1]) / (x[i] - x[j - 1]) == 1.0;
      }
    }
  }

  lemma {:induction false} LagrangeSumAtNode(x: seq<real>, y: seq<real>, k: nat, m: nat)
    requires m <= |x| <= |y| && Distinct(x) && k < |x|
    ensures LagrangeSum(x, y, x[k], m) == if k < m then y[k] else 0.0
  {
    if m > 0 {
      LagrangeSumAtNode(x, y, k, m - 1);
      if m - 1 == k {
        LagrangeTermAtOwnNode(x, y, k, |x|);
      } else {
        LagrangeTermVanishes(x, y, m - 1, k, |x|);
      }
    }
  }

  /** With distinct nodes, the Lagrange polynomial at node `x[k]` is `y[k]`. */
  lemma LagrangeAtNode(x: seq<real>, y: seq<real>, k: nat)
    requires |x| <= |y| && Distinct(x) && k < |x|
    ensures LagrangeSum(x, y, x[k], |x|) == y[k]
  {
    LagrangeSumAtNode(x, y, k, |x|);
  }

  // ----- Newton -----

  /** No two nodes at most `g` positions apart coincide. */
  predicate GapDistinct(x: seq<real>, g: nat) {
    forall a, b :: 0 <= a < b < |x| && b - a <= g ==> x[a] != x[b]
  }

  /** `a / b`. The model divides only by nonzero values (a zero divisor ends
      the computation with `None` first); 0 for `b == 0` keeps it total. */
  function Quotient(a: real, b: real): real {
    if b == 0.0 then 0.0 else a / b
  }

  /** The divided difference `f[x_lo, ..., x_hi]`, with the sign convention of
      the source: `(f[lo..hi-1] - f[lo+1..hi]) / (x[lo] - x[hi])`. */
  function DividedDifference(x: seq<real>, y: seq<real>, lo: nat, hi: nat): real
    requires lo <= hi < |x| <= |y|
    decreases hi - lo
  {
    if lo == hi then y[lo]
    else Quotient(DividedDifference(x, y, lo, hi - 1) - DividedDifference(x, y, lo + 1, hi), x[lo] - x[hi])
  }

  /** The first index of the difference held in `tarray[p]` after `i` passes. */
  function Lo(p: nat, i: nat): nat {
    if p < i then 0 else p - i
  }

  /** The coefficients of the Newton form: `f[x_0..x_j]` for every `j`. */
  function NewtonTable(x: seq<real>, y: seq<real>): (t: seq<real>)
    requires |x| <= |y| && Distinct(x)
    ensures |t| == |x|
  {
    seq(|x|, j requires 0 <= j < |x| => DividedDifference(x, y, 0, j))
  }

  /** `c + d * rest`, one step of Horner's scheme. */
  function HornerStep(c: real, d: real, rest: real): real {
    c + d * rest
  }

  /** Nested evaluation `t[i] + (v - x[i]) (t[i+1] + (v - x[i+1]) (...))`. */
  function Horner(x: seq<real>, t: seq<real>, v: real, i: nat): real
    requires i < |t| <= |x|
    decreases |t| - i
  {
    if i == |t| - 1 then t[i] else HornerStep(t[i], v - x[i], Horner(x, t, v, i + 1))
  }

  /** What `newto` returns for distinct nodes. */
  function NewtonForm(x: seq<real>, y: seq<real>, v: real): real
    requires 1 <= |x| <= |y| && Distinct(x)
  {
    Horner(x, NewtonTable(x, y), v, 0)
  }

  /** The in-place passes of `newto`: pass `i` rewrites `tarray[j]`, `j` from
      the top down to `i + 1`, into a difference one node wider. A zero
      divisor (a repeated node) stops the model, since from there on the
      source computes with a NaN or an infinity. */
  method DividedDifferences(x: seq<real>, y: seq<real>, t: array<real>) returns (ok: bool)
    requires 1 <= |x| <= |y| && t.Length == |x|
    requires forall p :: 0 <= p < |x| ==> t[p] == y[p]
    modifies t
    ensures ok <==> Distinct(x)
    ensures ok ==> forall p :: 0 <= p < |x| ==> t[p] == DividedDifference(x, y, 0, p)
  {
    var length := |x|;
    for i := 0 to length - 1
      invariant GapDistinct(x, i)
      invariant forall p :: 0 <= p < length ==> t[p] == DividedDifference(x, y, Lo(p, i), p)
    {
      ok := DifferencePass(x, y, t, i);
      if !ok {
        return;
      }
    }
    return true;
  }

  /** Pass `i` of the differences: `j` runs down from the top to `i + 1`, and
      `tarray[j]` becomes the difference over `x[j - 1 - i..j]`. */
  method DifferencePass(x: seq<real>, y: seq<real>, t: array<real>, i: nat) returns (ok: bool)
    requires |x| <= |y| && t.Length == |x| && i + 1 < |x|
    requires forall p :: 0 <= p < |x| ==> t[p] == DividedDifference(x, y, Lo(p, i), p)
    modifies t
    ensures ok <==> forall p :: i < p < |x| ==> x[p - 1 - i] != x[p]
    ensures ok ==> forall p :: 0 <= p < |x| ==> t[p] == DividedDifference(x, y, Lo(p, i + 1), p)
  {
    var length := |x|;
    var j := length - 1;
    while j > i
      invariant i <= j <= length - 1
      invariant forall p :: j < p < length ==> x[p - 1 - i] != x[p]
      invariant forall p :: j < p < length ==> t[p] == DividedDifference(x, y, Lo(p, i + 1), p)
      invariant forall p :: 0 <= p <= j ==> t[p] == DividedDifference(x, y, Lo(p, i), p)
    {
      if x[j - 1 - i] - x[j] == 0.0 {
        return false;
      }
      t[j] := (t[j - 1] - t[j]) / (x[j - 1 - i] - x[j]);
      assert t[j] == DividedDifference(x, y, j - 1 - i, j);
      j := j - 1;
    }
    forall p | 0 <= p <= i
      ensures Lo(p, i + 1) == Lo(p, i)
    {
    }
    return true;
  }

  /** `newto`: copy `y`, build the differences in place, evaluate by Horner's
      scheme from the top coefficient down. `tarray[length - 1]` fails for no
      nodes; a repeated node yields NaN or an infinity. */
  method InterpolateNewton(x: seq<real>, y: seq<real>, xval: real) returns (r: Result<Option<real>>)
    ensures r.Err? <==> |x| == 0 || |y| < |x|
    ensures r.Err? ==> r.error == IndexOutOfRange
    ensures r.Ok? ==> (r.value.None? <==> !Distinct(x))
    ensures r.Ok? && r.value.Some? ==> Distinct(x) && r.value.value == NewtonForm(x, y, xval)
  {
    var length := |x|;
    var tarray := new real[length];
    for i := 0 to length
      invariant i <= |y|
      invariant forall p :: 0 <= p < i ==> tarray[p] == y[p]
    {
      if i >= |y| {
        return Err(IndexOutOfRange);
      }
      tarray[i] := y[i];
    }
    if length == 0 {
      return Err(IndexOutOfRange);
    }
    var ok := DividedDifferences(x, y, tarray);
    if !ok {
      return Ok(None);
    }
    assert tarray[..] == NewtonTable(x, y);
    var yval := EvaluateHorner(x, tarray, xval);
    return Ok(Some(yval));
  }

  /** The closing loop of `newto`: Horner's scheme from the top coefficient down. */
  method EvaluateHorner(x: seq<real>, t: array<real>, xval: real) returns (yval: real)
    requires 1 <= t.Length <= |x|
    ensures yval == Horner(x, t[..], xval, 0)
  {
    var length := t.Length;
    yval := t[length - 1];
    var i := length - 2;
    while i >= 0
      invariant -1 <= i <= length - 2
      invariant yval == Horner(x, t[..], xval, i + 1)
    {
      yval := t[i] + (xval - x[i]) * yval;
      assert yval == HornerStep(t[..][i], xval - x[i], Horner(x, t[..], xval, i + 1));
      i := i - 1;
    }
  }

  /** `prod_{m < k} (v - x[m])`, the Newton basis polynomial of degree `k`. */
  function NewtonBasis(x: seq<real>, v: real, k: nat): real
    requires k <= |x|
  {
    if k == 0 then 1.0 else NewtonBasis(x, v, k - 1) * (v - x[k - 1])
  }

  /** `sum_{j < k} t[j] prod_{m < j} (v - x[m])`, the Newton form written out. */
  function NewtonSum(x: seq<real>, t: seq<real>, v: real, k: nat): real
    requires k <= |t| <= |x|
  {
    if k == 0 then 0.0 else NewtonSum(x, t, v, k - 1) + t[k - 1] * NewtonBasis(x, v, k - 1)
  }

  lemma Regroup(c: real, d: real, h: real, b: real, b1: real, ns: real, ns1: real)
    requires b1 == b * d && ns1 == ns + c * b
    ensures HornerStep(c, d, h) * b + ns == h * b1 + ns1
  {
  }

  lemma {:induction false} HornerTail(x: seq<real>, t: seq<real>, v: real, i: nat)
    requires i < |t| <= |x|
    ensures Horner(x, t, v, i) * NewtonBasis(x, v, i) + NewtonSum(x, t, v, i) == NewtonSum(x, t, v, |t|)
    decreases |t| - i
  {
    if i < |t| - 1 {
      HornerTail(x, t, v, i + 1);
      Regroup(t[i], v - x[i], Horner(x, t, v, i + 1), NewtonBasis(x, v, i), NewtonBasis(x, v, i + 1),
              NewtonSum(x, t, v, i), NewtonSum(x, t, v, i + 1));
    }
  }

  /** Horner's scheme evaluates the Newton form: the nested value equals
      `sum_j t[j] prod_{m < j} (v - x[m])`. */
  lemma HornerIsNewtonSum(x: seq<real>, t: seq<real>, v: real)
    requires 1 <= |t| <= |x|
    ensures Horner(x, t, v, 0) == NewtonSum(x, t, v, |t|)
  {
    HornerTail(x, t, v, 0);
  }

  /** At the first node the Newton form returns the first value. */
  lemma NewtonAtFirstNode(x: seq<real>, y: seq<real>)
    requires 1 <= |x| <= |y| && Distinct(x)
    ensures NewtonForm(x, y, x[0]) == y[0]
  {
    var t := NewtonTable(x, y);
    if |x| > 1 {
      assert Horner(x, t, x[0], 0) == HornerStep(t[0], 0.0, Horner(x, t, x[0], 1));
    }
  }

  /** For constant data every divided difference over two or more nodes is 0. */
  lemma {:induction false} DifferencesOfConstant(x: seq<real>, y: seq<real>, c: real, lo: nat, hi: nat)
    requires lo <= hi < |x| <= |y|
    requires forall p :: 0 <= p < |y| ==> y[p] == c
    ensures DividedDifference(x, y, lo, hi) == if lo == hi then c else 0.0
    decreases hi - lo
  {
    if lo < hi {
      DifferencesOfConstant(x, y, c, lo, hi - 1);
      DifferencesOfConstant(x, y, c, lo + 1, hi);
    }
  }

  lemma {:induction false} HornerOfZeros(x: seq<real>, t: seq<real>, v: real, i: nat)
    requires 1 <= i < |t| <= |x|
    requires forall p :: 1 <= p < |t| ==> t[p] == 0.0
    ensures Horner(x, t, v, i) == 0.0
    decreases |t| - i
  {
    if i < |t| - 1 {
      HornerOfZeros(x, t, v, i + 1);
    }
  }

  /** The Newton form reproduces constant data everywhere. */
  lemma NewtonReproducesConstants(x: seq<real>, y: seq<real>, c: real, v: real)
    requires 1 <= |x| <= |y| && Distinct(x)
    requires forall p :: 0 <= p < |y| ==> y[p] == c
    ensures NewtonForm(x, y, v) == c
  {
    var t := NewtonTable(x, y);
    forall p | 0 <= p < |t|
      ensures t[p] == if p == 0 then c else 0.0
    {
      DifferencesOfConstant(x, y, c, 0, p);
    }
    if |t| > 1 {
      HornerOfZeros(x, t, v, 1);
    }
  }

  // ----- barycentric -----

  /** `product` after the inner loop of `baryc` has passed the first `j` nodes:
      `prod_{m < j, m != i} (x[i] - x[m])`. */
  function NodeProduct(x: seq<real>, i: nat, j: nat): (r: real)
    requires i < |x| && j <= |x|
    ensures RowDistinct(x, i, j) ==> r != 0.0
  {
    if j == 0 then 1.0
    else if j - 1 == i then NodeProduct(x, i, j - 1)
    else NodeProduct(x, i, j - 1) * (x[i] - x[j - 1])
  }

  /** Some node other than `i` lies among the first `j`: only then does the
      inner loop assign `weights[i]`. */
  predicate OtherBefore(i: nat, j: nat) {
    j >= 2 || (j == 1 && i != 0)
  }

  /** The barycentric weight `1 / prod_{m != i} (x[i] - x[m])`; with a single
      node `weights[0]` is never assigned and keeps the default 0. */
  function Weight(x: seq<real>, i: nat): real
    requires i < |x| && RowDistinct(x, i, |x|)
  {
    if |x| < 2 then 0.0 else 1.0 / NodeProduct(x, i, |x|)
  }

  /** `v` is none of the first `k` nodes. */
  predicate NodeFreeUpTo(x: seq<real>, v: real, k: nat)
    requires k <= |x|
  {
    forall m :: 0 <= m < k ==> v != x[m]
  }

  /** `deltaX` for node `i`: `weights[i] / (v - x[i])`. */
  function BaryTerm(x: seq<real>, v: real, i: nat): real
    requires i < |x| && Distinct(x) && v != x[i]
  {
    Weight(x, i) / (v - x[i])
  }

  /** `bc1` after `k` nodes. */
  function Numerator(x: seq<real>, y: seq<real>, v: real, k: nat): real
    requires k <= |x| <= |y| && Distinct(x) && NodeFreeUpTo(x, v, k)
  {
    if k == 0 then 0.0 else Numerator(x, y, v, k - 1) + y[k - 1] * BaryTerm(x, v, k - 1)
  }

  /** `bc2` after `k` nodes. */
  function Denominator(x: seq<real>, v: real, k: nat): real
    requires k <= |x| && Distinct(x) && NodeFreeUpTo(x, v, k)
  {
    if k == 0 then 0.0 else Denominator(x, v, k - 1) + BaryTerm(x, v, k - 1)
  }

  /** What `baryc` returns: `bc1 / bc2`, or `None` where the source divides by
      zero (a repeated node, a query at a node, a zero `bc2`). */
  function BarycentricForm(x: seq<real>, y: seq<real>, v: real): Option<real>
    requires |x| <= |y|
  {
    if !Distinct(x) || !NodeFreeUpTo(x, v, |x|) then None
    else
      var d := Denominator(x, v, |x|);
      if d == 0.0 then None else Some(Numerator(x, y, v, |x|) / d)
  }

  /** The first loop of `baryc`: one pass of the inner loop per node. */
  method Weights(x: seq<real>, weights: array<real>) returns (ok: bool)
    requires weights.Length == |x|
    requires forall p :: 0 <= p < |x| ==> weights[p] == 0.0
    modifies weights
    ensures ok <==> Distinct(x)
    ensures ok ==> forall p :: 0 <= p < |x| ==> weights[p] == Weight(x, p)
  {
    var length := |x|;
    for i := 0 to length
      invariant RowsDistinct(x, i)
      invariant forall p :: 0 <= p < i ==> weights[p] == Weight(x, p)
      invariant forall p :: i <= p < length ==> weights[p] == 0.0
    {
      ok := WeightRow(x, i, weights);
      if !ok {
        return false;
      }
    }
    return true;
  }

  /** The inner loop of `baryc` for node `i`: `product` accumulates over the
      other nodes and `weights[i]` is reassigned `1 / product` after each
      factor; a repeated node stops it. */
  method WeightRow(x: seq<real>, i: nat, weights: array<real>) returns (ok: bool)
    requires i < |x| == weights.Length && weights[i] == 0.0
    modifies weights
    ensures ok <==> RowDistinct(x, i, |x|)
    ensures ok ==> weights[i] == Weight(x, i)
    ensures forall p :: 0 <= p < |x| && p != i ==> weights[p] == old(weights[p])
  {
    var length := |x|;
    var product := 1.0;
    for j := 0 to length
      invariant RowDistinct(x, i, j)
      invariant product == NodeProduct(x, i, j)
      invariant weights[i] == if OtherBefore(i, j) then 1.0 / product else 0.0
      invariant forall p :: 0 <= p < length && p != i ==> weights[p] == old(weights[p])
    {
      if i != j {
        if x[i] - x[j] == 0.0 {
          return false;
        }
        product := product * (x[i] - x[j]);
        weights[i] := 1.0 / product;
      }
    }
    return true;
  }

  /** `baryc`. The second loop reads `y[i]` for every node, so a `y` shorter
      than `x` makes it throw. */
  method InterpolateBarycentric(x: seq<real>, y: seq<real>, xval: real) returns (r: Result<Option<real>>)
    ensures r.Err? <==> |y| < |x|
    ensures r.Err? ==> r.error == IndexOutOfRange
    ensures r.Ok? ==> r.value == BarycentricForm(x, y, xval)
  {
    // The weights loop reads no `y` and a division by zero does not throw, so
    // checking the lengths first gives the source's outcome.
    if |y| < |x| {
      return Err(IndexOutOfRange);
    }
    var length := |x|;
    var weights := new real[length](_ => 0.0);
    var ok := Weights(x, weights);
    if !ok {
      return Ok(None);
    }
    var bc1, bc2 := 0.0, 0.0;
    for i := 0 to length
      invariant NodeFreeUpTo(x, xval, i)
      invariant bc1 == Numerator(x, y, xval, i) && bc2 == Denominator(x, xval, i)
    {
      if xval - x[i] == 0.0 {
        return Ok(None);
      }
      var deltaX := weights[i] / (xval - x[i]);
      bc1 := bc1 + y[i] * deltaX;
      bc2 := bc2 + deltaX;
    }
    if bc2 == 0.0 {
      return Ok(None);
    }
    return Ok(Some(bc1 / bc2));
  }

  lemma {:induction false} DenominatorOfOneNode(x: seq<real>, v: real, k: nat)
    requires |x| == 1 && k <= 1 && NodeFreeUpTo(x, v, k)
    ensures Denominator(x, v, k) == 0.0
  {
    if k == 1 {
      DenominatorOfOneNode(x, v, 0);
      assert Weight(x, 0) == 0.0;
    }
  }

  /** With fewer than two nodes `baryc` always returns NaN: no weight is ever
      assigned, so `bc2` is 0 (or the query sits on the only node). */
  lemma BarycentricNeedsTwoNodes(x: seq<real>, y: seq<real>, v: real)
    requires |x| <= |y| && |x| < 2
    ensures BarycentricForm(x, y, v) == None
  {
    if |x| == 1 && Distinct(x) && NodeFreeUpTo(x, v, 1) {
      DenominatorOfOneNode(x, v, 1);
    }
  }

  lemma {:induction false} NumeratorOfConstant(x: seq<real>, y: seq<real>, c: real, v: real, k: nat)
    requires k <= |x| <= |y| && Distinct(x) && NodeFreeUpTo(x, v, k)
    requires forall p :: 0 <= p < |y| ==> y[p] == c
    ensures Numerator(x, y, v, k) == c * Denominator(x, v, k)
  {
    if k > 0 {
      NumeratorOfConstant(x, y, c, v, k - 1);
    }
  }

  /** The barycentric form reproduces constant data wherever it is defined. */
  lemma BarycentricReproducesConstants(x: seq<real>, y: seq<real>, c: real, v: real)
    requires |x| <= |y|
    requires forall p :: 0 <= p < |y| ==> y[p] == c
    ensures BarycentricForm(x, y, v).Some? ==> BarycentricForm(x, y, v).value == c
  {
    if BarycentricForm(x, y, v).Some? {
      NumeratorOfConstant(x, y, c, v, |x|);
    }
  }

  class Interpolation {
    /** The method the one-dimensional `Compute` uses (`MethodType`). */
    var kind: Method

    /** The source's default is `Lagrange`. */
    constructor (kind: Method)
      ensures this.kind == kind
    {
      this.kind := kind;
    }

    method SetMethodType(m: Method)
      modifies this
      ensures kind == m
    {
      kind := m;
    }

    /** `Compute(x, y, z, xl, yl)`: always bilinear. */
    method ComputeGrid(x: seq<real>, y: seq<real>, z: Matrix, xl: real, yl: real) returns (r: Result<real>)
      requires Rectangular(z)
      ensures r.Err? <==> !GridFits(x, y, z, xl, yl)
      ensures r.Ok? ==> r.value == Bilinear(x, y, z, xl, yl)
    {
      r := InterpolateBilinear(x, y, z, xl, yl);
    }

    /** `Compute(x, y, xl)`: dispatch on the method, linear by default. */
    method Compute(x: seq<real>, y: seq<real>, xl: real) returns (r: Result<Option<real>>)
      ensures kind == Linear ==> (r.Err? <==> !CoveredUpTo(x, y, xl, Cells(x)))
      ensures kind == Linear && r.Ok? ==> r.value == Some(PiecewiseLinear(x, y, xl))
      ensures kind == Lagrange ==> (r.Err? <==> |y| == 0 || |y| < |x|) && (r.Ok? ==> (r.value.None? <==> !Distinct(x)))
      ensures kind == Lagrange && r.Ok? && r.value.Some? ==> Distinct(x) && r.value.value == LagrangeSum(x, y, xl, |x|)
      ensures kind == Newton ==> (r.Err? <==> |x| == 0 || |y| < |x|) && (r.Ok? ==> (r.value.None? <==> !Distinct(x)))
      ensures kind == Newton && r.Ok? && r.value.Some? ==> Distinct(x) && r.value.value == NewtonForm(x, y, xl)
      ensures kind == Barycentric ==> (r.Err? <==> |y| < |x|) && (r.Ok? ==> r.value == BarycentricForm(x, y, xl))
      ensures r.Err? ==> r.error == IndexOutOfRange
    {
      match kind
      case Lagrange =>
        r := InterpolateLagrange(x, y, xl);
      case Newton =>
        r := InterpolateNewton(x, y, xl);
      case Barycentric =>
        r := InterpolateBarycentric(x, y, xl);
      case Linear =>
        var v := InterpolateLinear(x, y, xl);
        r := if v.Ok? then Ok(Some(v.value)) else Err(v.error);
    }
  }
}
