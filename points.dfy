/** The point helpers of `Points` (Imaging/Points.cs) over .NET's 32-bit
    `Point` and `Rectangle`. Every `int` addition and subtraction wraps
    around, as unchecked C# arithmetic does. */
module ImagingPoints {
  import opened Common

  datatype Point = Point(x: Int32, y: Int32)

  datatype Rectangle = Rectangle(x: Int32, y: Int32, width: Int32, height: Int32)

  /** A positive factor of magnitude at least 1 scales away from zero. */
  lemma MulBounds(d: int, m: int)
    requires m >= 1
    ensures d >= 1 ==> d * m >= m && d * m >= d
    ensures d <= -1 ==> d * m <= -m
  {
    if d >= 1 {
      assert d * m - m == (d - 1) * m;
      assert d * m - d == d * (m - 1);
    } else if d <= -1 {
      assert d * m + m == (d + 1) * m;
    }
  }

  /** The quotient and remainder are the only ones with a remainder in `[0, m)`. */
  lemma DivModUnique(a: int, m: int, q: int, r: int)
    requires m >= 1 && 0 <= r < m && a == q * m + r
    ensures a / m == q && a % m == r
  {
    var q0, r0 := a / m, a % m;
    assert a == q0 * m + r0;
    var d := q - q0;
    assert d * m == r0 - r;
    MulBounds(d, m);
  }

  /** Wrapping is reduction modulo 2^32 into `[IntMin, IntMax]`, in range too. */
  lemma {:induction false} WrapIsMod(v: int)
    ensures Wrap32(v) == (v - IntMin) % Modulus + IntMin
    decreases if v < IntMin then IntMin - v else if v > IntMax then v - IntMax else 0
  {
    var q, r := (v - IntMin) / Modulus, (v - IntMin) % Modulus;
    if v < IntMin {
      WrapIsMod(v + Modulus);
      DivModUnique(v + Modulus - IntMin, Modulus, q + 1, r);
    } else if v > IntMax {
      WrapIsMod(v - Modulus);
      DivModUnique(v - Modulus - IntMin, Modulus, q - 1, r);
    } else {
      DivModUnique(v - IntMin, Modulus, 0, v - IntMin);
    }
  }

  /** Wrapping changes a value by a multiple of 2^32. */
  lemma WrapCongruent(v: int)
    ensures Wrap32(v) - v == -((v - IntMin) / Modulus) * Modulus
  {
    WrapIsMod(v);
  }

  /** Adding a multiple of 2^32 does not change the wrapped value. */
  lemma WrapShift(v: int, k: int)
    ensures Wrap32(v + k * Modulus) == Wrap32(v)
  {
    var q := (v - IntMin) / Modulus;
    var s := (v - IntMin) % Modulus;
    assert v + k * Modulus - IntMin == (q + k) * Modulus + s;
    DivModUnique(v + k * Modulus - IntMin, Modulus, q + k, s);
    WrapIsMod(v);
    WrapIsMod(v + k * Modulus);
  }

  lemma WrapOfInt32(v: Int32)
    ensures Wrap32(v) == v
  {
  }

  /** Wrapping an intermediate result first changes nothing. */
  lemma WrapThenAdd(a: int, b: int)
    ensures Wrap32(Wrap32(a) + b) == Wrap32(a + b)
  {
    WrapCongruent(a);
    var k := -((a - IntMin) / Modulus);
    assert Wrap32(a) + b == a + b + k * Modulus;
    WrapShift(a + b, k);
  }

  function AddPoint(p: Point, q: Point): Point {
    Point(Wrap32(p.x + q.x), Wrap32(p.y + q.y))
  }

  function SubPoint(p: Point, q: Point): Point {
    Point(Wrap32(p.x - q.x), Wrap32(p.y - q.y))
  }

  /** Subtracting the shift undoes it, wrap-around and all. */
  lemma SubUndoesAdd(p: Point, q: Point)
    ensures SubPoint(AddPoint(p, q), q) == p
  {
    WrapThenAdd(p.x + q.x, -(q.x as int));
    WrapThenAdd(p.y + q.y, -(q.y as int));
    WrapOfInt32(p.x);
    WrapOfInt32(p.y);
  }

  /** `Add(points, point)`: a fresh array, each point shifted by `point`. */
  method Add(points: array<Point>, point: Point) returns (output: array<Point>)
    ensures fresh(output) && output.Length == points.Length
    ensures forall i :: 0 <= i < points.Length ==> output[i] == AddPoint(points[i], point)
  {
    var count := points.Length;
    output := new Point[count](_ => Point(0, 0));
    for i := 0 to count
      invariant forall q :: 0 <= q < i ==> output[q] == AddPoint(points[q], point)
    {
      output[i] := Point(Wrap32(points[i].x + point.x), Wrap32(points[i].y + point.y));
    }
  }

  /** `Sub(points, point)`: a fresh array, each point shifted by `-point`. */
  method Sub(points: array<Point>, point: Point) returns (output: array<Point>)
    ensures fresh(output) && output.Length == points.Length
    ensures forall i :: 0 <= i < points.Length ==> output[i] == SubPoint(points[i], point)
  {
    var count := points.Length;
    output := new Point[count](_ => Point(0, 0));
    for i := 0 to count
      invariant forall q :: 0 <= q < i ==> output[q] == SubPoint(points[q], point)
    {
      output[i] := Point(Wrap32(points[i].x - point.x), Wrap32(points[i].y - point.y));
    }
  }

  /** `Sub(Add(points, point), point)` gives back the points. */
  method ShiftRoundTrip(points: array<Point>, point: Point) returns (back: array<Point>)
    ensures back.Length == points.Length
    ensures forall i :: 0 <= i < points.Length ==> back[i] == points[i]
  {
    var moved := Add(points, point);
    back := Sub(moved, point);
    forall i | 0 <= i < points.Length
      ensures back[i] == points[i]
    {
      SubUndoesAdd(points[i], point);
    }
  }

  function Xs(points: seq<Point>): (s: seq<Int32>)
    ensures |s| == |points| && forall i :: 0 <= i < |points| ==> s[i] == points[i].x
  {
    seq(|points|, i requires 0 <= i < |points| => points[i].x)
  }

  function Ys(points: seq<Point>): (s: seq<Int32>)
    ensures |s| == |points| && forall i :: 0 <= i < |points| ==> s[i] == points[i].y
  {
    seq(|points|, i requires 0 <= i < |points| => points[i].y)
  }

  /** The running minimum of the first `k` values, from the sentinel
      `int.MaxValue`. */
  function Lowest(s: seq<Int32>, k: nat): (r: Int32)
    requires k <= |s|
    ensures forall i :: 0 <= i < k ==> r <= s[i]
  {
    if k == 0 then IntMax
    else var m := Lowest(s, k - 1); if s[k - 1] < m then s[k - 1] else m
  }

  /** The running maximum of the first `k` values, from the sentinel
      `int.MinValue`. */
  function Highest(s: seq<Int32>, k: nat): (r: Int32)
    requires k <= |s|
    ensures forall i :: 0 <= i < k ==> r >= s[i]
  {
    if k == 0 then IntMin
    else var m := Highest(s, k - 1); if s[k - 1] > m then s[k - 1] else m
  }

  /** A nonempty minimum and maximum are values of the sequence. */
  lemma {:induction false} ExtremesAttained(s: seq<Int32>, k: nat)
    requires 1 <= k <= |s|
    ensures exists i :: 0 <= i < k && s[i] == Lowest(s, k)
    ensures exists i :: 0 <= i < k && s[i] == Highest(s, k)
  {
    if k == 1 {
      assert Lowest(s, 0) == IntMax && Highest(s, 0) == IntMin;
      assert s[0] == Lowest(s, 1) && s[0] == Highest(s, 1);
    } else {
      ExtremesAttained(s, k - 1);
      var i :| 0 <= i < k - 1 && s[i] == Lowest(s, k - 1);
      var j :| 0 <= j < k - 1 && s[j] == Highest(s, k - 1);
      var lo := if s[k - 1] < s[i] then k - 1 else i;
      var hi := if s[k - 1] > s[j] then k - 1 else j;
      assert s[lo] == Lowest(s, k) && s[hi] == Highest(s, k);
    }
  }

  /** The rectangle `GetRectangle` returns, from the four extremes. */
  function Bounding(points: seq<Point>): Rectangle {
    var xmin, ymin := Lowest(Xs(points), |points|), Lowest(Ys(points), |points|);
    var xmax, ymax := Highest(Xs(points), |points|), Highest(Ys(points), |points|);
    Rectangle(xmin, ymin, Wrap32(xmax - xmin), Wrap32(ymax - ymin))
  }

  /** `GetRectangle`: the loop keeping `xmin`, `ymin`, `xmax`, `ymax`. */
  method GetRectangle(points: seq<Point>) returns (r: Rectangle)
    ensures r == Bounding(points)
  {
    var length := |points|;
    var xmin: Int32, ymin: Int32, xmax: Int32, ymax: Int32 := IntMax, IntMax, IntMin, IntMin;
    for i := 0 to length
      invariant xmin == Lowest(Xs(points), i) && ymin == Lowest(Ys(points), i)
      invariant xmax == Highest(Xs(points), i) && ymax == Highest(Ys(points), i)
    {
      var x := points[i].x;
      var y := points[i].y;
      if x < xmin {
        xmin := x;
      }
      if y < ymin {
        ymin := y;
      }
      if x > xmax {
        xmax := x;
      }
      if y > ymax {
        ymax := y;
      }
    }
    r := Rectangle(xmin, ymin, Wrap32(xmax - xmin), Wrap32(ymax - ymin));
  }

  /** For nonempty input the corner is the componentwise minimum of the
      points and every point lies between it and the componentwise maximum,
      both of which are attained. */
  lemma BoundingContainsPoints(points: seq<Point>)
    requires |points| > 0
    ensures var r := Bounding(points); var n := |points|;
      var xmax, ymax := Highest(Xs(points), n), Highest(Ys(points), n);
      (exists i :: 0 <= i < n && points[i].x == r.x) &&
      (exists i :: 0 <= i < n && points[i].y == r.y) &&
      (exists i :: 0 <= i < n && points[i].x == xmax) &&
      (exists i :: 0 <= i < n && points[i].y == ymax) &&
      forall i :: 0 <= i < n ==> r.x <= points[i].x <= xmax && r.y <= points[i].y <= ymax
  {
    var xs, ys := Xs(points), Ys(points);
    var n := |points|;
    ExtremesAttained(xs, n);
    ExtremesAttained(ys, n);
    var a :| 0 <= a < n && xs[a] == Lowest(xs, n);
    var b :| 0 <= b < n && xs[b] == Highest(xs, n);
    var c :| 0 <= c < n && ys[c] == Lowest(ys, n);
    var d :| 0 <= d < n && ys[d] == Highest(ys, n);
    assert points[a].x == Bounding(points).x && points[c].y == Bounding(points).y;
    assert points[b].x == Highest(xs, n) && points[d].y == Highest(ys, n);
  }

  /** The far corner `X + Width`, `Y + Height`, in 32-bit arithmetic, is the
      componentwise maximum, whether or not the width and height overflowed;
      with no points it is `(int.MinValue, int.MinValue)`. */
  lemma FarCornerIsHighest(points: seq<Point>)
    ensures var r := Bounding(points);
      Wrap32(r.x as int + r.width) == Highest(Xs(points), |points|) &&
      Wrap32(r.y as int + r.height) == Highest(Ys(points), |points|)
  {
    var xs, ys := Xs(points), Ys(points);
    var n := |points|;
    var r := Bounding(points);
    FarCornerOf(r.x, r.width, Highest(xs, n));
    FarCornerOf(r.y, r.height, Highest(ys, n));
  }

  lemma FarCornerOf(lo: Int32, span: Int32, hi: Int32)
    requires span == Wrap32(hi as int - lo)
    ensures Wrap32(lo as int + span) == hi
  {
    FarCorner(lo, hi);
  }

  /** Adding the wrapped span to the low end gives back the high end. */
  lemma FarCorner(lo: Int32, hi: Int32)
    ensures Wrap32(lo + Wrap32(hi - lo)) == hi
  {
    WrapThenAdd(hi - lo, lo);
    WrapOfInt32(hi);
  }

  /** When the spans fit in 32 bits, every point lies in the rectangle with
      the far corner included. */
  lemma BoundingWithoutOverflow(points: seq<Point>)
    requires |points| > 0
    requires Highest(Xs(points), |points|) - Lowest(Xs(points), |points|) <= IntMax
    requires Highest(Ys(points), |points|) - Lowest(Ys(points), |points|) <= IntMax
    ensures var r := Bounding(points);
      r.width >= 0 && r.height >= 0 &&
      forall i :: 0 <= i < |points| ==>
        r.x <= points[i].x <= r.x + r.width && r.y <= points[i].y <= r.y + r.height
  {
    var xs, ys := Xs(points), Ys(points);
    var xmin, xmax := Lowest(xs, |points|), Highest(xs, |points|);
    var ymin, ymax := Lowest(ys, |points|), Highest(ys, |points|);
    assert xmin <= xs[0] <= xmax && ymin <= ys[0] <= ymax;
    WrapOfInt32(xmax - xmin);
    WrapOfInt32(ymax - ymin);
    var r := Bounding(points);
    assert r.x == xmin && r.y == ymin;
    assert r.width == xmax - xmin && r.height == ymax - ymin;
    forall i | 0 <= i < |points|
      ensures r.x <= points[i].x <= r.x + r.width && r.y <= points[i].y <= r.y + r.height
    {
      assert xs[i] == points[i].x && ys[i] == points[i].y;
    }
  }

  /** With no points the sentinels survive: the corner is
      `(int.MaxValue, int.MaxValue)`, and `int.MinValue - int.MaxValue`
      wraps to a width and height of 1. */
  lemma BoundingOfNothing()
    ensures Bounding([]) == Rectangle(IntMax, IntMax, 1, 1)
  {
    WrapShift(1, -1);
  }

  /** `GetSupportedPoint(left, right)`: the corner with the abscissa of
      `right` and the ordinate of `left`. */
  function GetSupportedPoint(left: Point, right: Point): (s: Point)
    ensures s.x == right.x && s.y == left.y
  {
    Point(right.x, left.y)
  }

  /** The supported point is a corner of the bounding rectangle of the two
      points, and swapping them gives the opposite corner. */
  lemma SupportedIsCorner(left: Point, right: Point)
    ensures var r := Bounding([left, right]); var s := GetSupportedPoint(left, right);
      r.x <= s.x && r.y <= s.y && (s.x == r.x || s.x == Highest(Xs([left, right]), 2)) &&
      (s.y == r.y || s.y == Highest(Ys([left, right]), 2))
    ensures var s := GetSupportedPoint(left, right); var t := GetSupportedPoint(right, left);
      s.x + t.x == left.x + right.x && s.y + t.y == left.y + right.y
  {
    var ps := [left, right];
    var xs, ys := Xs(ps), Ys(ps);
    assert xs[0] == left.x && xs[1] == right.x;
    assert ys[0] == left.y && ys[1] == right.y;
    assert Lowest(xs, 0) == IntMax && Highest(xs, 0) == IntMin;
    assert Lowest(ys, 0) == IntMax && Highest(ys, 0) == IntMin;
    assert Lowest(xs, 1) == left.x && Highest(xs, 1) == left.x;
    assert Lowest(ys, 1) == left.y && Highest(ys, 1) == left.y;
  }

  /** C#'s `/` on `int`: truncation toward zero. */
  function TruncDiv(a: int, b: int): (q: int)
    requires b > 0
    ensures a >= 0 ==> 0 <= q <= a
    ensures a < 0 ==> a <= q <= 0
  {
    if a >= 0 then DivShrinks(a, b); a / b
    else DivShrinks(-a, b); -((-a) / b)
  }

  lemma DivShrinks(a: int, b: int)
    requires a >= 0 && b > 0
    ensures 0 <= a / b <= a
  {
    var q, m := a / b, a % b;
    assert a == q * b + m && 0 <= m < b;
    MulBounds(q, b);
  }

  /** Truncation toward zero: the quotient carries the sign of `a`, and its
      magnitude is the floor of `|a| / b`, so `-7 / 2` is `-3`, not `-4`. */
  lemma TruncDivRounds(a: int, b: int)
    requires b > 0
    ensures var q := TruncDiv(a, b); var m := if a >= 0 then a else -a;
      var p := if a >= 0 then q else -q;
      p >= 0 && b * p <= m < b * p + b
    ensures TruncDiv(-a, b) == -TruncDiv(a, b)
  {
  }

  /** The exact sum of the first `k` values. */
  function SumTo(s: seq<Int32>, k: nat): int
    requires k <= |s|
  {
    if k == 0 then 0 else SumTo(s, k - 1) + s[k - 1]
  }

  /** The sum of the first `k` values as a 32-bit accumulator holds it,
      wrapping after every addition. */
  function WrappedSum(s: seq<Int32>, k: nat): Int32
    requires k <= |s|
  {
    if k == 0 then 0 else Wrap32(WrappedSum(s, k - 1) + s[k - 1])
  }

  /** Wrapping after every addition is wrapping the exact sum once. */
  lemma {:induction false} WrappedSumIsWrappedTotal(s: seq<Int32>, k: nat)
    requires k <= |s|
    ensures WrappedSum(s, k) == Wrap32(SumTo(s, k))
  {
    if k > 0 {
      WrappedSumIsWrappedTotal(s, k - 1);
      WrapThenAdd(SumTo(s, k - 1), s[k - 1]);
    }
  }

  /** `GetMeanPoint`: the componentwise sums, accumulated in 32 bits, divided
      by the count with truncation toward zero; no points is a division by
      zero. */
  method GetMeanPoint(points: seq<Point>) returns (r: Result<Point>)
    ensures |points| == 0 <==> r.Err?
    ensures r.Err? ==> r.error == DivideByZero
    ensures r.Ok? ==> var n := |points|;
      r.value == Point(TruncDiv(Wrap32(SumTo(Xs(points), n)), n), TruncDiv(Wrap32(SumTo(Ys(points), n)), n))
  {
    var length := |points|;
    var px: Int32, py: Int32 := 0, 0;
    for i := 0 to length
      invariant px == WrappedSum(Xs(points), i) && py == WrappedSum(Ys(points), i)
    {
      px := Wrap32(px + points[i].x);
      py := Wrap32(py + points[i].y);
    }
    if length == 0 {
      return Err(DivideByZero);
    }
    WrappedSumIsWrappedTotal(Xs(points), length);
    WrappedSumIsWrappedTotal(Ys(points), length);
    r := Ok(Point(TruncDiv(px, length), TruncDiv(py, length)));
  }

  lemma {:induction false} SumBetween(s: seq<Int32>, k: nat, lo: int, hi: int)
    requires k <= |s|
    requires forall i :: 0 <= i < k ==> lo <= s[i] <= hi
    ensures k * lo <= SumTo(s, k) <= k * hi
  {
    if k > 0 {
      SumBetween(s, k - 1, lo, hi);
      assert k * lo == (k - 1) * lo + lo && k * hi == (k - 1) * hi + hi;
    }
  }

  lemma MulCancel(n: int, a: int, b: int)
    requires n > 0 && n * a <= n * b
    ensures a <= b
  {
  }

  lemma FloorBetween(a: int, n: int, lo: int, hi: int)
    requires n > 0 && 0 <= a && n * lo <= a <= n * hi
    ensures lo <= a / n <= hi
  {
    var q, m := a / n, a % n;
    assert a == n * q + m && 0 <= m < n;
    MulCancel(n, q, hi);
    MulCancel(n, lo, q + 1);
  }

  lemma TruncDivBetween(a: int, n: int, lo: int, hi: int)
    requires n > 0 && n * lo <= a <= n * hi
    ensures lo <= TruncDiv(a, n) <= hi
  {
    if a >= 0 {
      FloorBetween(a, n, lo, hi);
    } else {
      assert n * (-hi) <= -a <= n * (-lo);
      FloorBetween(-a, n, -hi, -lo);
    }
  }

  /** The mean of one coordinate, when its sum does not overflow, lies
      between its smallest and its largest value. */
  lemma MeanBetween(s: seq<Int32>)
    requires |s| > 0 && IntMin <= SumTo(s, |s|) <= IntMax
    ensures Lowest(s, |s|) <= TruncDiv(Wrap32(SumTo(s, |s|)), |s|) <= Highest(s, |s|)
  {
    SumBetween(s, |s|, Lowest(s, |s|), Highest(s, |s|));
    WrapOfInt32(SumTo(s, |s|));
    TruncDivBetween(SumTo(s, |s|), |s|, Lowest(s, |s|), Highest(s, |s|));
  }

  /** When the sums do not overflow, the mean point lies between the
      smallest and the largest coordinates. */
  lemma MeanWithinBounds(points: seq<Point>)
    requires |points| > 0
    requires IntMin <= SumTo(Xs(points), |points|) <= IntMax
    requires IntMin <= SumTo(Ys(points), |points|) <= IntMax
    ensures var n := |points|; var xs, ys := Xs(points), Ys(points);
      Lowest(xs, n) <= TruncDiv(Wrap32(SumTo(xs, n)), n) <= Highest(xs, n) &&
      Lowest(ys, n) <= TruncDiv(Wrap32(SumTo(ys, n)), n) <= Highest(ys, n)
  {
    MeanBetween(Xs(points));
    MeanBetween(Ys(points));
  }
}
