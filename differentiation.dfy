/** Numerical differentiation (class `Differentation` of analysis.cs): the
    derivative of order `order` from `points + 1` forward samples
    `f(x), f(x + h), ..., f(x + points h)` (or `y[index..index + points]`),
    weighted by a row of the inverse of the table `deltas[j, k] = j^k / k!`.
    The matrix inversion is not part of this model: it is the parameter
    `invert`, of which only its shape is assumed. */
module NumericalDerivative {
  import opened Common

  /** `deltas[j, k] = j^k / k!`: the Taylor weight of the `k`-th derivative in
      the sample `f(x + j h)` when `h = 1`. */
  function DeltaEntry(j: nat, k: nat): real {
    Pow(j as real, k) / (Factorial(k) as real)
  }

  /** `DeltaEntry(j, 0), ..., DeltaEntry(j, m - 1)`. */
  function DeltaRow(j: nat, m: nat): (r: seq<real>)
    ensures |r| == m
  {
    if m == 0 then [] else DeltaRow(j, m - 1) + [DeltaEntry(j, m - 1)]
  }

  /** Rows `0..r` of the `n`-column table. */
  function DeltaRows(r: nat, n: nat): (d: Matrix)
    ensures |d| == r
  {
    if r == 0 then [] else DeltaRows(r - 1, n) + [DeltaRow(r - 1, n)]
  }

  /** The table built by `GetCoefficients` before its inversion. */
  function Deltas(n: nat): Matrix {
    DeltaRows(n, n)
  }

  lemma {:induction false} DeltaRowEntries(j: nat, m: nat)
    ensures forall k :: 0 <= k < m ==> DeltaRow(j, m)[k] == DeltaEntry(j, k)
  {
    if m > 0 {
      DeltaRowEntries(j, m - 1);
    }
  }

  lemma {:induction false} DeltaRowsEntries(r: nat, n: nat)
    ensures forall j :: 0 <= j < r ==> DeltaRows(r, n)[j] == DeltaRow(j, n)
  {
    if r > 0 {
      DeltaRowsEntries(r - 1, n);
    }
  }

  /** The table is `n x n` with entry `[j][k] = j^k / k!`. */
  lemma DeltasShape(n: nat)
    ensures IsMatrix(Deltas(n), n, n)
    ensures forall j, k :: 0 <= j < n && 0 <= k < n ==> Deltas(n)[j][k] == DeltaEntry(j, k)
  {
    DeltaRowsEntries(n, n);
    forall j | 0 <= j < n
      ensures DeltaRow(j, n) == Deltas(n)[j]
    {
    }
    forall j | 0 <= j < n
      ensures forall k :: 0 <= k < n ==> DeltaRow(j, n)[k] == DeltaEntry(j, k)
    {
      DeltaRowEntries(j, n);
    }
  }

  /** Row 0 is `1, 0, 0, ...` (the sample at `x` itself) and column 0 is all ones. */
  lemma DeltaBorders(j: nat, k: nat)
    ensures DeltaEntry(j, 0) == 1.0
    ensures DeltaEntry(0, k) == if k == 0 then 1.0 else 0.0
  {
    if k > 0 {
      assert Pow(0.0, k) == Pow(0.0, k - 1) * 0.0;
    }
  }

  /** Along a row, `(k + 1) deltas[j, k + 1] = j deltas[j, k]`: the recurrence
      that the running product `h *= delta` of the source implements. */
  lemma DeltaRecurrence(j: nat, k: nat)
    ensures ((k + 1) as real) * DeltaEntry(j, k + 1) == (j as real) * DeltaEntry(j, k)
  {
    var p := Pow(j as real, k);
    var q := Factorial(k) as real;
    assert Factorial(k + 1) as real == ((k + 1) as real) * q;
    assert Pow(j as real, k + 1) == p * (j as real);
    CancelFactor((k + 1) as real, p, j as real, q);
  }

  lemma CancelFactor(a: real, p: real, b: real, q: real)
    requires a > 0.0 && q > 0.0
    ensures a * (p * b / (a * q)) == b * (p / q)
  {
    assert p * b / (a * q) == (p * b / q) / a;
  }

  /** `GetCoefficients(n)`: the table filled row by row, each row by the
      running power `h = j^k`, then handed to `invert`. */
  method GetCoefficients(n: nat, invert: Matrix -> Matrix) returns (c: Matrix)
    ensures c == invert(Deltas(n))
  {
    var deltas: Matrix := [];
    for j := 0 to n
      invariant deltas == DeltaRows(j, n)
    {
      var h := 1.0;
      var delta := j as real;
      var row: seq<real> := [];
      for k := 0 to n
        invariant h == Pow(delta, k)
        invariant row == DeltaRow(j, k)
      {
        row := row + [h / (Factorial(k) as real)];
        h := h * delta;
      }
      deltas := deltas + [row];
    }
    c := invert(deltas);
  }

  /** `invert` maps `n x n` matrices to `n x n` matrices. */
  ghost predicate KeepsShape(invert: Matrix -> Matrix, n: nat) {
    forall m :: IsMatrix(m, n, n) ==> IsMatrix(invert(m), n, n)
  }

  /** `c[0] f(x) + c[1] f(x + h) + ... + c[k-1] f(x + (k-1) h)`. */
  function FunctionSum(c: seq<real>, f: real -> real, x: real, h: real, k: nat): real
    requires k <= |c|
  {
    if k == 0 then 0.0 else FunctionSum(c, f, x, h, k - 1) + c[k - 1] * f(x + ((k - 1) as real) * h)
  }

  /** `c[0] y[index] + ... + c[k-1] y[index + k - 1]`. */
  function ArraySum(c: seq<real>, y: seq<real>, index: nat, k: nat): real
    requires k <= |c| && index + k <= |y|
  {
    if k == 0 then 0.0 else ArraySum(c, y, index, k - 1) + c[k - 1] * y[index + k - 1]
  }

  /** The final division by `h^order`; a zero divisor gives a non-finite double. */
  function Scale(sum: real, h: real, order: nat): Option<real> {
    if Pow(h, order) == 0.0 then None else Some(sum / Pow(h, order))
  }

  /** `Compute(function, x, h, order)` of a differentiator with `points`
      interpolation points: an order is accepted exactly when it lies in
      `[0, points]`. The table size `points + 1` is unchecked `int`
      arithmetic: at `points == IntMax` it wraps negative and allocating the
      table throws. */
  function Derivative(points: Nat32, invert: Matrix -> Matrix, f: real -> real, x: real, h: real, order: int): (r: Result<Option<real>>)
    requires KeepsShape(invert, points + 1)
    ensures r == Err(InvalidArgument) <==> order < 0 || order > points
    ensures r == Err(Overflow) <==> 0 <= order <= points && points == IntMax
    ensures r.Ok? <==> 0 <= order <= points < IntMax
  {
    if order > points || order < 0 then Err(InvalidArgument)
    else
      var length := Increment32(points);
      if length < 0 then Err(Overflow)
      else
        var c := Coefficients(length, invert);
        Ok(Scale(FunctionSum(c[order], f, x, h, length), h, order))
  }

  /** `Compute(y, index, h, order)`: the same weights applied to
      `y[index..index + points]`. The order is checked first, then the table is
      allocated, then the loop reads `y[index + i]`, whose unchecked sum wraps
      negative past `IntMax`. */
  function DerivativeOfSamples(points: Nat32, invert: Matrix -> Matrix, y: seq<real>, index: Int32, h: real, order: int): (r: Result<Option<real>>)
    requires KeepsShape(invert, points + 1)
    ensures r == Err(InvalidArgument) <==> order < 0 || order > points
    ensures r == Err(Overflow) <==> 0 <= order <= points && points == IntMax
    ensures r == Err(IndexOutOfRange) <==>
              0 <= order <= points < IntMax && !InWindow(y, index, points)
    ensures r.Ok? <==> 0 <= order <= points < IntMax && 0 <= index && index + points < |y| && index + points <= IntMax
  {
    if order > points || order < 0 then Err(InvalidArgument)
    else
      var length := Increment32(points);
      if length < 0 then Err(Overflow)
      else if !InWindow(y, index, points) then Err(IndexOutOfRange)
      else
        var c := Coefficients(length, invert);
        Ok(Scale(ArraySum(c[order], y, index, length), h, order))
  }

  /** Every read `y[index + i]`, `i = 0..points`, with the sum taken as a C#
      `int`, lands inside `y`. */
  predicate InWindow(y: seq<real>, index: Int32, points: Nat32) {
    0 <= index && index + points <= IntMax && index + points < |y|
  }

  /** The inverted table, which `KeepsShape` makes `n x n`. */
  function Coefficients(n: nat, invert: Matrix -> Matrix): (c: Matrix)
    requires KeepsShape(invert, n)
    ensures IsMatrix(c, n, n)
  {
    DeltasShape(n);
    invert(Deltas(n))
  }

  lemma {:induction false} SumsAgree(c: seq<real>, f: real -> real, x: real, h: real, y: seq<real>, index: nat, k: nat)
    requires k <= |c| && index + k <= |y|
    requires forall i :: index <= i < index + k ==> y[i] == f(x + ((i - index) as real) * h)
    ensures ArraySum(c, y, index, k) == FunctionSum(c, f, x, h, k)
  {
    if k > 0 {
      SumsAgree(c, f, x, h, y, index, k - 1);
      assert y[index + k - 1] == f(x + ((k - 1) as real) * h);
    }
  }

  /** The samples are forward: on an array holding `y[index + i] = f(x + i h)`
      for `i = 0..points`, the array variant gives the function variant. */
  lemma SamplesAreForward(points: Nat32, invert: Matrix -> Matrix, f: real -> real, x: real, y: seq<real>, index: Int32, h: real, order: int)
    requires KeepsShape(invert, points + 1)
    requires 0 <= index && index + points < |y| && index + points <= IntMax
    requires forall i :: index <= i <= index + points ==> y[i] == f(x + ((i - index) as real) * h)
    ensures DerivativeOfSamples(points, invert, y, index, h, order) == Derivative(points, invert, f, x, h, order)
  {
    if 0 <= order <= points < IntMax {
      var c := Coefficients(points + 1, invert);
      SumsAgree(c[order], f, x, h, y, index, points + 1);
    }
  }

  /** The loop `sum += coefficients[order, i] * function(x + center * h)`, where
      `center` always equals `i`. */
  method FunctionLoop(c: seq<real>, f: real -> real, x: real, h: real, n: nat) returns (sum: real)
    requires n <= |c|
    ensures sum == FunctionSum(c, f, x, h, n)
  {
    sum := 0.0;
    for i := 0 to n
      invariant sum == FunctionSum(c, f, x, h, i)
    {
      assert FunctionSum(c, f, x, h, i + 1) == sum + c[i] * f(x + (i as real) * h);
      sum := sum + c[i] * f(x + (i as real) * h);
    }
  }

  method ArrayLoop(c: seq<real>, y: seq<real>, index: nat, n: nat) returns (sum: real)
    requires n <= |c| && index + n <= |y|
    ensures sum == ArraySum(c, y, index, n)
  {
    sum := 0.0;
    for i := 0 to n
      invariant sum == ArraySum(c, y, index, i)
    {
      sum := sum + c[i] * y[index + i];
    }
  }

  class Differentation {
    /** The number of interpolation points beyond `x` (the `Points` property). */
    var points: Nat32

    constructor (points: Nat32)
      ensures this.points == points
    {
      this.points := points;
    }

    /** The public constructor goes through the `Points` setter, so a negative
        count is rejected. */
    static method Create(points: Int32) returns (r: Result<Differentation>)
      ensures r.Err? <==> points < 0
      ensures r.Ok? ==> fresh(r.value) && r.value.points == points
    {
      if points < 0 {
        return Err(InvalidArgument);
      }
      var d := new Differentation(points);
      r := Ok(d);
    }

    /** The `Points` setter: a negative value is rejected and nothing changes. */
    method SetPoints(value: Int32) returns (r: Result<()>)
      modifies this
      ensures r.Err? <==> value < 0
      ensures value < 0 ==> points == old(points)
      ensures value >= 0 ==> points == value
    {
      if value < 0 {
        return Err(InvalidArgument);
      }
      points := value;
      r := Ok(());
    }

    method ComputeFunction(f: real -> real, x: real, h: real, order: int, invert: Matrix -> Matrix) returns (r: Result<Option<real>>)
      requires KeepsShape(invert, points + 1)
      ensures r == Derivative(points, invert, f, x, h, order)
    {
      if order > points || order < 0 {
        return Err(InvalidArgument);
      }
      var length := Increment32(points);
      if length < 0 {
        return Err(Overflow);
      }
      var coefficients := GetCoefficients(length, invert);
      assert coefficients == Coefficients(length, invert);
      var sum := FunctionLoop(coefficients[order], f, x, h, length);
      r := Ok(Scale(sum, h, order));
    }

    /** The source reads `y[index + i]` in the loop and throws at the first index
        outside `y`; the model checks the window before summing, which gives the
        same outcome. */
    method ComputeSamples(y: seq<real>, index: Int32, h: real, order: int, invert: Matrix -> Matrix) returns (r: Result<Option<real>>)
      requires KeepsShape(invert, points + 1)
      ensures r == DerivativeOfSamples(points, invert, y, index, h, order)
    {
      if order > points || order < 0 {
        return Err(InvalidArgument);
      }
      var length := Increment32(points);
      if length < 0 {
        return Err(Overflow);
      }
      var coefficients := GetCoefficients(length, invert);
      assert coefficients == Coefficients(length, invert);
      if index < 0 || index + points > IntMax || index + points >= |y| {
        return Err(IndexOutOfRange);
      }
      var sum := ArrayLoop(coefficients[order], y, index, length);
      r := Ok(Scale(sum, h, order));
    }
  }
}
