/** Least-squares approximation (class `Approximation` and the helpers of
    `LeastSquaresOptions` in analysis.cs): polynomial, logarithmic,
    exponential and power fits, all reduced to a polynomial fit through the
    normal equations. The linear solver (`Matrice.Solve`), the variance
    (`Matrice.Var`) and the logarithm and exponential are parameters. */
module LeastSquares {
  import opened Common

  datatype Method = Polynomial | Logarithmic | Exponential | Power

  /** `c[0] + c[1] x + ... + c[k-1] x^(k-1)`: the first `k` coefficients,
      lowest degree first. */
  function PolySum(c: seq<real>, x: real, k: nat): real
    requires k <= |c|
  {
    if k == 0 then 0.0 else PolySum(c, x, k - 1) + c[k - 1] * Pow(x, k - 1)
  }

  /** The value of the polynomial with coefficients `c`, lowest degree first. */
  function PolyValue(c: seq<real>, x: real): real {
    PolySum(c, x, |c|)
  }

  /** `LeastSquaresOptions.Polynomial(x, c)`: `p` runs through the powers of
      `x` while `s` accumulates `c[i] * p`. */
  method EvaluatePolynomial(x: real, c: seq<real>) returns (s: real)
    ensures s == PolyValue(c, x)
  {
    var n := |c|;
    var p := 1.0;
    s := 0.0;
    for i := 0 to n
      invariant p == Pow(x, i)
      invariant s == PolySum(c, x, i)
    {
      s := s + c[i] * p;
      p := p * x;
    }
  }

  /** `c[0] + x (c[1] + x (c[2] + ...))`: the nested reading of a polynomial
      whose first coefficient is the constant term. */
  function Nested(c: seq<real>, x: real): real
    decreases |c|
  {
    if |c| == 0 then 0.0 else c[0] + x * Nested(c[1..], x)
  }

  lemma {:induction false} PolySumShift(c: seq<real>, x: real, k: nat)
    requires 1 <= k <= |c|
    ensures PolySum(c, x, k) == c[0] + x * PolySum(c[1..], x, k - 1)
  {
    if k > 1 {
      PolySumShift(c, x, k - 1);
      var t := c[1..];
      assert t[k - 2] == c[k - 1];
      assert Pow(x, k - 1) == x * Pow(x, k - 2);
      assert x * PolySum(t, x, k - 1) == x * PolySum(t, x, k - 2) + x * (t[k - 2] * Pow(x, k - 2));
    }
  }

  lemma {:induction false} PolyValueIsNested(c: seq<real>, x: real)
    ensures PolyValue(c, x) == Nested(c, x)
    decreases |c|
  {
    if |c| > 0 {
      PolySumShift(c, x, |c|);
      PolyValueIsNested(c[1..], x);
    }
  }

  /** The coefficients are read lowest degree first: the value is `c[0]` plus
      `x` times the polynomial of the remaining coefficients, so `c[0]` is the
      value at 0. */
  lemma LowestDegreeFirst(c: seq<real>, x: real)
    requires |c| >= 1
    ensures PolyValue(c, x) == c[0] + x * PolyValue(c[1..], x)
    ensures PolyValue(c, 0.0) == c[0]
  {
    PolySumShift(c, x, |c|);
    PolySumShift(c, 0.0, |c|);
  }

  /** The polynomial at every point of `xs`. */
  function PolyValues(c: seq<real>, xs: seq<real>): (ys: seq<real>)
    ensures |ys| == |xs|
    ensures forall i :: 0 <= i < |xs| ==> ys[i] == PolyValue(c, xs[i])
  {
    seq(|xs|, i requires 0 <= i < |xs| => PolyValue(c, xs[i]))
  }

  /** `LeastSquaresOptions.Polynomial(x[], c)`. */
  method EvaluateAll(xs: seq<real>, c: seq<real>) returns (ys: seq<real>)
    ensures ys == PolyValues(c, xs)
  {
    var n := |xs|;
    var y := new real[n];
    for i := 0 to n
      invariant forall p :: 0 <= p < i ==> y[p] == PolyValue(c, xs[p])
    {
      y[i] := EvaluatePolynomial(xs[i], c);
    }
    ys := y[..];
  }

  /** `sum_{t < n} v[t]^k`. */
  function PowerSum(v: seq<real>, k: nat, n: nat): real
    requires n <= |v|
  {
    if n == 0 then 0.0 else PowerSum(v, k, n - 1) + Pow(v[n - 1], k)
  }

  /** `sum_{t < n} a[t]^p b[t]^q`. */
  function CrossPowerSum(a: seq<real>, b: seq<real>, p: nat, q: nat, n: nat): real
    requires n <= |a| && n <= |b|
  {
    if n == 0 then 0.0 else CrossPowerSum(a, b, p, q, n - 1) + Pow(a[n - 1], p) * Pow(b[n - 1], q)
  }

  /** `SummaryPow(v, pow)`. */
  method SummaryPow(v: seq<real>, pow: nat) returns (sum: real)
    ensures sum == PowerSum(v, pow, |v|)
  {
    sum := 0.0;
    for i := 0 to |v|
      invariant sum == PowerSum(v, pow, i)
    {
      sum := sum + Pow(v[i], pow);
    }
  }

  /** `SummaryPow(x, y, powx, powy)`: it reads `b` at every index of `a`, so
      it throws when `b` is the shorter. */
  method SummaryCrossPow(a: seq<real>, b: seq<real>, p: nat, q: nat) returns (r: Result<real>)
    ensures r.Err? <==> |b| < |a|
    ensures r.Err? ==> r.error == IndexOutOfRange
    ensures r.Ok? ==> r.value == CrossPowerSum(a, b, p, q, |a|)
  {
    var sum := 0.0;
    for i := 0 to |a|
      invariant i <= |b|
      invariant sum == CrossPowerSum(a, b, p, q, i)
    {
      if i >= |b| {
        return Err(IndexOutOfRange);
      }
      sum := sum + Pow(a[i], p) * Pow(b[i], q);
    }
    r := Ok(sum);
  }

  /** The normal equations of the fit with `m` coefficients, as the augmented
      `m x (m + 1)` matrix: `[i][j] = sum x^(i+j)` and `[i][m] = sum y x^i`. */
  function NormalMatrix(x: seq<real>, y: seq<real>, m: nat): (A: Matrix)
    requires |y| <= |x|
    ensures IsMatrix(A, m, m + 1)
    ensures forall i, j :: 0 <= i < m && 0 <= j < m ==> A[i][j] == A[j][i]
  {
    seq(m, i requires 0 <= i < m =>
      seq(m + 1, j requires 0 <= j <= m =>
        if j < m then PowerSum(x, i + j, |x|) else CrossPowerSum(y, x, 1, i, |y|)))
  }

  /** The left block is a Hankel matrix: an entry depends only on `i + j`,
      so moving one step down and one step left keeps it. */
  lemma NormalMatrixHankel(x: seq<real>, y: seq<real>, m: nat, i: nat, j: nat)
    requires |y| <= |x| && i + 1 < m && 0 < j < m
    ensures NormalMatrix(x, y, m)[i][j] == NormalMatrix(x, y, m)[i + 1][j - 1]
  {
  }

  lemma {:induction false} PowerSumOfZeroth(v: seq<real>, n: nat)
    requires n <= |v|
    ensures PowerSum(v, 0, n) == n as real
  {
    if n > 0 {
      PowerSumOfZeroth(v, n - 1);
    }
  }

  lemma {:induction false} CrossPowerSumIsSum(y: seq<real>, x: seq<real>, n: nat)
    requires n <= |y| && n <= |x|
    ensures CrossPowerSum(y, x, 1, 0, n) == Sum(y[..n])
  {
    if n > 0 {
      CrossPowerSumIsSum(y, x, n - 1);
      assert y[..n][..n - 1] == y[..n - 1];
      assert Pow(y[n - 1], 1) == y[n - 1];
      assert Pow(x[n - 1], 0) == 1.0;
    }
  }

  /** The corner entries of the normal equations: the number of samples and
      the sum of the values. */
  lemma NormalMatrixCorners(x: seq<real>, y: seq<real>, m: nat)
    requires |y| <= |x| && m >= 1
    ensures NormalMatrix(x, y, m)[0][0] == |x| as real
    ensures NormalMatrix(x, y, m)[0][m] == Sum(y)
  {
    PowerSumOfZeroth(x, |x|);
    CrossPowerSumIsSum(y, x, |y|);
    assert y[..|y|] == y;
  }

  /** The size `Coefficients` gives the system: `iterations`, at least 1. */
  function SystemSize(iterations: Int32): Nat32 {
    if iterations < 1 then 1 else iterations
  }

  /** Row `i` of the normal equations, built by the inner loop; its last
      entry reads `x` at every index of `y`. */
  method NormalRow(x: seq<real>, y: seq<real>, m: nat, i: nat) returns (r: Result<seq<real>>)
    requires i < m
    ensures r.Err? <==> |x| < |y|
    ensures r.Err? ==> r.error == IndexOutOfRange
    ensures r.Ok? ==> r.value == NormalMatrix(x, y, m)[i]
  {
    var row := [];
    for j := 0 to m
      invariant |row| == j
      invariant forall q :: 0 <= q < j ==> row[q] == PowerSum(x, i + q, |x|)
    {
      var s := SummaryPow(x, j + i);
      row := row + [s];
    }
    var last := SummaryCrossPow(y, x, 1, i);
    if last.Err? {
      return Err(IndexOutOfRange);
    }
    r := Ok(row + [last.value]);
  }

  /** `LeastSquaresOptions.Coefficients`: the normal equations handed to
      `solve`. Allocating the `m x (m + 1)` matrix throws when the unchecked
      `m + 1` wraps negative (`m == IntMax`); after that the first row already
      throws when `y` is longer than `x`. */
  method Coefficients(x: seq<real>, y: seq<real>, iterations: Int32, solve: Matrix -> seq<real>) returns (r: Result<seq<real>>)
    ensures r == Err(Overflow) <==> SystemSize(iterations) == IntMax
    ensures r == Err(IndexOutOfRange) <==> SystemSize(iterations) < IntMax && |x| < |y|
    ensures r.Ok? <==> SystemSize(iterations) < IntMax && |y| <= |x|
    ensures r.Ok? ==> r.value == solve(NormalMatrix(x, y, SystemSize(iterations)))
  {
    var m := SystemSize(iterations);
    if Increment32(m) < 0 {
      return Err(Overflow);
    }
    var matrix: Matrix := [];
    for i := 0 to m
      invariant i > 0 ==> |y| <= |x|
      invariant |y| <= |x| ==> matrix == NormalMatrix(x, y, m)[..i]
    {
      var row := NormalRow(x, y, m, i);
      if row.Err? {
        return Err(IndexOutOfRange);
      }
      matrix := matrix + [row.value];
      assert NormalMatrix(x, y, m)[..i + 1] == NormalMatrix(x, y, m)[..i] + [row.value];
    }
    assert NormalMatrix(x, y, m)[..m] == NormalMatrix(x, y, m);
    r := Ok(solve(matrix));
  }

  /** `LeastSquaresOptions.Error`: the smaller variance over the larger. A
      zero divisor (both variances 0) gives NaN. */
  function FitError(va: real, vb: real): Option<real> {
    if va < vb then (if vb == 0.0 then None else Some(va / vb))
    else (if va == 0.0 then None else Some(vb / va))
  }

  lemma RatioBelowOne(a: real, b: real)
    requires 0.0 <= a < b
    ensures 0.0 <= a / b < 1.0 && (a / b) * b == a
  {
    var e := a / b;
    assert e * b == a;
  }

  /** The error does not depend on the order of its arguments, and for
      non-negative variances, not both 0, it is `min / max`, a value in
      `[0, 1]` that is 1 exactly when the variances agree. */
  lemma FitErrorIsRatio(va: real, vb: real)
    ensures FitError(va, vb) == FitError(vb, va)
    ensures va >= 0.0 && vb >= 0.0 && (va > 0.0 || vb > 0.0) ==>
      FitError(va, vb).Some? &&
      (var e := FitError(va, vb).value;
       0.0 <= e <= 1.0 && (e == 1.0 <==> va == vb) && e * (if va < vb then vb else va) == (if va < vb then va else vb))
  {
    if va == vb && va != 0.0 {
      assert va / vb == 1.0;
    }
    if va >= 0.0 && vb >= 0.0 && va < vb {
      RatioBelowOne(va, vb);
    }
    if va >= 0.0 && vb >= 0.0 && vb < va {
      RatioBelowOne(vb, va);
    }
  }

  /** The `m` a fit hands to `Coefficients`: `power + 1` in unchecked `int`
      arithmetic, or 2 for a power below 1. */
  function Degree(power: Int32): Int32 {
    if power < 1 then 2 else Increment32(power)
  }

  /** The number of coefficients a fit solves for. */
  function FitSize(power: Int32): nat {
    SystemSize(Degree(power))
  }

  /** A fit uses `power + 1` coefficients, or 2 for a power below 1; at
      `IntMax` the wrapped `m` falls below 1 and the fit is a constant. The
      system is too large to allocate exactly at `power == IntMax - 1`. */
  lemma FitSizeCases(power: Int32)
    ensures power < 1 ==> FitSize(power) == 2
    ensures 1 <= power < IntMax ==> FitSize(power) == power + 1
    ensures power == IntMax ==> FitSize(power) == 1
    ensures FitSize(power) == IntMax <==> power == IntMax - 1
  {
  }

  /** The outcome of one fit: the approximated values `ya` (returned), the
      coefficients `cf` and the error (the `ref` parameters). */
  datatype Fit = Fit(values: seq<real>, coefficients: seq<real>, error: Option<real>)

  function Map(f: real -> real, s: seq<real>): (r: seq<real>)
    ensures |r| == |s|
    ensures forall i :: 0 <= i < |s| ==> r[i] == f(s[i])
  {
    seq(|s|, i requires 0 <= i < |s| => f(s[i]))
  }

  /** `poly`: the polynomial fit of `y` against `x`. */
  function PolyFit(x: seq<real>, y: seq<real>, power: Int32, solve: Matrix -> seq<real>, variance: seq<real> -> real): Fit
    requires |y| <= |x|
  {
    var cf := solve(NormalMatrix(x, y, FitSize(power)));
    var ya := PolyValues(cf, x);
    Fit(ya, cf, FitError(variance(ya), variance(y)))
  }

  /** `logc`: the polynomial fit of `y` against `log x`. */
  function LogFit(x: seq<real>, y: seq<real>, power: Int32, solve: Matrix -> seq<real>, variance: seq<real> -> real,
                  log: real -> real): Fit
    requires |y| <= |x|
  {
    var xa := Map(log, x);
    var cf := solve(NormalMatrix(xa, y, FitSize(power)));
    var ya := PolyValues(cf, xa);
    Fit(ya, cf, FitError(variance(ya), variance(y)))
  }

  /** `expn`: the polynomial fit of `log y` against `x`, mapped back by `exp`. */
  function ExpFit(x: seq<real>, y: seq<real>, power: Int32, solve: Matrix -> seq<real>, variance: seq<real> -> real,
                  log: real -> real, exp: real -> real): Fit
    requires |x| <= |y|
  {
    var la := Map(log, y[..|x|]);
    var cf := solve(NormalMatrix(x, la, FitSize(power)));
    var ya := Map(exp, PolyValues(cf, x));
    Fit(ya, cf, FitError(variance(ya), variance(y)))
  }

  /** `powr`: the polynomial fit of `log y` against `log x`, mapped back by `exp`. */
  function PowerFit(x: seq<real>, y: seq<real>, power: Int32, solve: Matrix -> seq<real>, variance: seq<real> -> real,
                    log: real -> real, exp: real -> real): Fit
    requires |x| <= |y|
  {
    var xa := Map(log, x);
    var la := Map(log, y[..|x|]);
    var cf := solve(NormalMatrix(xa, la, FitSize(power)));
    var ya := Map(exp, PolyValues(cf, xa));
    Fit(ya, cf, FitError(variance(ya), variance(y)))
  }

  /** The logarithmic fit is the polynomial fit on the abscissas `log x`. */
  lemma LogFitIsPolyFitOfLog(x: seq<real>, y: seq<real>, power: Int32, solve: Matrix -> seq<real>,
                             variance: seq<real> -> real, log: real -> real)
    requires |y| <= |x|
    ensures LogFit(x, y, power, solve, variance, log) == PolyFit(Map(log, x), y, power, solve, variance)
  {
  }

  /** The power fit is the exponential fit on the abscissas `log x`. */
  lemma PowerFitIsExpFitOfLog(x: seq<real>, y: seq<real>, power: Int32, solve: Matrix -> seq<real>,
                              variance: seq<real> -> real, log: real -> real, exp: real -> real)
    requires |x| <= |y|
    ensures PowerFit(x, y, power, solve, variance, log, exp) == ExpFit(Map(log, x), y, power, solve, variance, log, exp)
  {
  }

  /** The exponential fit has the coefficients of the polynomial fit of
      `log y`, and its values are the exponentials of that fit's values. */
  lemma ExpFitIsPolyFitOfLog(x: seq<real>, y: seq<real>, power: Int32, solve: Matrix -> seq<real>,
                             variance: seq<real> -> real, log: real -> real, exp: real -> real)
    requires |x| <= |y|
    ensures var e := ExpFit(x, y, power, solve, variance, log, exp);
      var p := PolyFit(x, Map(log, y[..|x|]), power, solve, variance);
      e.coefficients == p.coefficients && e.values == Map(exp, p.values)
  {
  }

  /** `poly`: the system is allocated before anything is read, so an
      oversized system throws first; then it throws when `y` is longer than
      `x`. */
  method FitPolynomial(x: seq<real>, y: seq<real>, power: Int32, solve: Matrix -> seq<real>, variance: seq<real> -> real)
    returns (r: Result<Fit>)
    ensures r == Err(Overflow) <==> power == IntMax - 1
    ensures r == Err(IndexOutOfRange) <==> power != IntMax - 1 && |x| < |y|
    ensures r.Ok? <==> power != IntMax - 1 && |y| <= |x|
    ensures r.Ok? ==> r.value == PolyFit(x, y, power, solve, variance)
  {
    FitSizeCases(power);
    var m := Degree(power);
    var cf := Coefficients(x, y, m, solve);
    if cf.Err? {
      return Err(cf.error);
    }
    var ya := EvaluateAll(x, cf.value);
    r := Ok(Fit(ya, cf.value, FitError(variance(ya), variance(y))));
  }

  /** `logc`: the loop taking `xa[i] = log x[i]`, then the polynomial fit;
      the loop reads only `x`, so the errors are those of `poly`. */
  method FitLogarithmic(x: seq<real>, y: seq<real>, power: Int32, solve: Matrix -> seq<real>, variance: seq<real> -> real,
                        log: real -> real) returns (r: Result<Fit>)
    ensures r == Err(Overflow) <==> power == IntMax - 1
    ensures r == Err(IndexOutOfRange) <==> power != IntMax - 1 && |x| < |y|
    ensures r.Ok? <==> power != IntMax - 1 && |y| <= |x|
    ensures r.Ok? ==> r.value == LogFit(x, y, power, solve, variance, log)
  {
    FitSizeCases(power);
    var n := |x|;
    var m := Degree(power);
    var xa := new real[n];
    for i := 0 to n
      invariant forall p :: 0 <= p < i ==> xa[p] == log(x[p])
    {
      xa[i] := log(x[i]);
    }
    assert xa[..] == Map(log, x);
    var cf := Coefficients(xa[..], y, m, solve);
    if cf.Err? {
      return Err(cf.error);
    }
    var ya := EvaluateAll(xa[..], cf.value);
    r := Ok(Fit(ya, cf.value, FitError(variance(ya), variance(y))));
  }

  /** `expn`: `ya[i] = log y[i]`, the fit, then `ya[i] = exp p[i]` in place;
      the first loop throws when `x` is longer than `y`, before the system is
      allocated. */
  method FitExponential(x: seq<real>, y: seq<real>, power: Int32, solve: Matrix -> seq<real>, variance: seq<real> -> real,
                        log: real -> real, exp: real -> real) returns (r: Result<Fit>)
    ensures r == Err(IndexOutOfRange) <==> |y| < |x|
    ensures r == Err(Overflow) <==> |x| <= |y| && power == IntMax - 1
    ensures r.Ok? <==> |x| <= |y| && power != IntMax - 1
    ensures r.Ok? ==> r.value == ExpFit(x, y, power, solve, variance, log, exp)
  {
    FitSizeCases(power);
    var m := Degree(power);
    var n := |x|;
    var ya := new real[n];
    for i := 0 to n
      invariant i <= |y|
      invariant forall q :: 0 <= q < i ==> ya[q] == log(y[q])
    {
      if i >= |y| {
        return Err(IndexOutOfRange);
      }
      ya[i] := log(y[i]);
    }
    assert ya[..] == Map(log, y[..|x|]);
    var cf := Coefficients(x, ya[..], m, solve);
    if cf.Err? {
      return Err(cf.error);
    }
    var p := EvaluateAll(x, cf.value);
    for i := 0 to n
      invariant forall q :: 0 <= q < i ==> ya[q] == exp(p[q])
    {
      ya[i] := exp(p[i]);
    }
    assert ya[..] == Map(exp, p);
    r := Ok(Fit(ya[..], cf.value, FitError(variance(ya[..]), variance(y))));
  }

  /** `powr`: `xa[i] = log x[i]`, `ya[i] = log y[i]`, the fit, then
      `ya[i] = exp p[i]` in place; the first loop throws when `x` is longer
      than `y`, before the system is allocated. */
  method FitPower(x: seq<real>, y: seq<real>, power: Int32, solve: Matrix -> seq<real>, variance: seq<real> -> real,
                  log: real -> real, exp: real -> real) returns (r: Result<Fit>)
    ensures r == Err(IndexOutOfRange) <==> |y| < |x|
    ensures r == Err(Overflow) <==> |x| <= |y| && power == IntMax - 1
    ensures r.Ok? <==> |x| <= |y| && power != IntMax - 1
    ensures r.Ok? ==> r.value == PowerFit(x, y, power, solve, variance, log, exp)
  {
    FitSizeCases(power);
    var m := Degree(power);
    var n := |x|;
    var xa := new real[n];
    var ya := new real[n];
    for i := 0 to n
      invariant i <= |y|
      invariant forall q :: 0 <= q < i ==> xa[q] == log(x[q]) && ya[q] == log(y[q])
    {
      if i >= |y| {
        return Err(IndexOutOfRange);
      }
      xa[i] := log(x[i]);
      ya[i] := log(y[i]);
    }
    assert xa[..] == Map(log, x);
    assert ya[..] == Map(log, y[..|x|]);
    var cf := Coefficients(xa[..], ya[..], m, solve);
    if cf.Err? {
      return Err(cf.error);
    }
    var p := EvaluateAll(xa[..], cf.value);
    for i := 0 to n
      invariant forall q :: 0 <= q < i ==> ya[q] == exp(p[q])
    {
      ya[i] := exp(p[i]);
    }
    assert ya[..] == Map(exp, p);
    r := Ok(Fit(ya[..], cf.value, FitError(variance(ya[..]), variance(y))));
  }

  /** The lengths each fit accepts: the polynomial and logarithmic fits read
      `x` at every index of `y`, the exponential and power fits read `y` at
      every index of `x`. */
  predicate Fits(kind: Method, x: seq<real>, y: seq<real>) {
    match kind
    case Polynomial => |y| <= |x|
    case Logarithmic => |y| <= |x|
    case Exponential => |x| <= |y|
    case Power => |x| <= |y|
  }

  /** The polynomial and logarithmic fits allocate the system before they
      read the shorter array; the exponential and power fits read it first. */
  predicate AllocatesFirst(kind: Method) {
    kind == Polynomial || kind == Logarithmic
  }

  /** The fit `Compute` performs with `kind`: the switch's default is the
      power fit. */
  function FitOf(kind: Method, x: seq<real>, y: seq<real>, power: Int32, solve: Matrix -> seq<real>,
                 variance: seq<real> -> real, log: real -> real, exp: real -> real): Fit
    requires Fits(kind, x, y)
  {
    match kind
    case Polynomial => PolyFit(x, y, power, solve, variance)
    case Logarithmic => LogFit(x, y, power, solve, variance, log)
    case Exponential => ExpFit(x, y, power, solve, variance, log, exp)
    case Power => PowerFit(x, y, power, solve, variance, log, exp)
  }

  class Approximation {
    /** The polynomial degree; the setter keeps it at least 1. */
    var power: Int32
    /** The fit `Compute` performs (`MethodType`). */
    var kind: Method

    constructor (power: Int32, kind: Method)
      requires power >= 1
      ensures this.power == power && this.kind == kind
    {
      this.power := power;
      this.kind := kind;
    }

    /** The source constructor assigns through the `Power` setter, so a power
        below 1 makes construction fail. */
    static method Create(power: Int32, kind: Method) returns (r: Result<Approximation>)
      ensures r.Err? <==> power < 1
      ensures r.Err? ==> r.error == InvalidArgument
      ensures r.Ok? ==> fresh(r.value) && r.value.power == power && r.value.kind == kind
    {
      if power < 1 {
        return Err(InvalidArgument);
      }
      var a := new Approximation(power, kind);
      r := Ok(a);
    }

    /** The `Power` setter: a value below 1 is rejected and nothing changes. */
    method SetPower(value: Int32) returns (r: Result<()>)
      modifies this
      ensures r.Err? <==> value < 1
      ensures value < 1 ==> power == old(power)
      ensures value >= 1 ==> power == value
      ensures kind == old(kind)
    {
      if value < 1 {
        return Err(InvalidArgument);
      }
      power := value;
      r := Ok(());
    }

    method SetMethodType(m: Method)
      modifies this
      ensures kind == m && power == old(power)
    {
      kind := m;
    }

    /** `Compute(x, y, ref cf, ref error)`: the switch over the fits; it
        throws when the lengths do not suit the chosen fit or the system is
        too large to allocate, whichever the fit meets first. */
    method Compute(x: seq<real>, y: seq<real>, solve: Matrix -> seq<real>, variance: seq<real> -> real,
                   log: real -> real, exp: real -> real) returns (r: Result<Fit>)
      ensures r == Err(Overflow) <==> power == IntMax - 1 && (AllocatesFirst(kind) || Fits(kind, x, y))
      ensures r == Err(IndexOutOfRange) <==> !Fits(kind, x, y) && (power != IntMax - 1 || !AllocatesFirst(kind))
      ensures r.Ok? <==> Fits(kind, x, y) && power != IntMax - 1
      ensures r.Ok? ==> r.value == FitOf(kind, x, y, power, solve, variance, log, exp)
    {
      match kind
      case Polynomial =>
        r := FitPolynomial(x, y, power, solve, variance);
      case Logarithmic =>
        r := FitLogarithmic(x, y, power, solve, variance, log);
      case Exponential =>
        r := FitExponential(x, y, power, solve, variance, log, exp);
      case Power =>
        r := FitPower(x, y, power, solve, variance, log, exp);
    }
  }
}
