/** The Cauchy problem `y' = F(x, y), y(x[0]) = y0` on a grid `x` (class
    `Differential` of analysis.cs): the one-step methods of Euler, Runge-Kutta
    of orders 2 and 4 and Runge-Kutta-Fehlberg, and the Adams-Bashforth
    multistep method started by one of them. A result array has `|x| - 1`
    entries, entry `i` being the state at `x[i + 1]`; an empty grid makes the
    source allocate an array of length `-1`, which fails. */
module OrdinaryDifferential {
  import opened Common

  datatype Method = Euler | RungeKutta2 | RungeKutta4 | Fehlberg

  function EulerStep(f: (real, real) -> real, x: real, y: real, h: real): real {
    y + f(x, y) * h
  }

  /** The midpoint rule: one slope at the start, one at the half step. */
  function RungeKutta2Step(f: (real, real) -> real, x: real, y: real, h: real): real {
    var k1 := h * f(x, y);
    var k2 := h * f(x + 0.5 * h, y + 0.5 * k1);
    y + k2
  }

  function RungeKutta4Step(f: (real, real) -> real, x: real, y: real, h: real): real {
    var k1 := h * f(x, y);
    var k2 := h * f(x + 0.5 * h, y + 0.5 * k1);
    var k3 := h * f(x + 0.5 * h, y + 0.5 * k2);
    var k4 := h * f(x + h, y + k3);
    y + (k1 + 2.0 * k2 + 2.0 * k3 + k4) / 6.0
  }

  /** The fourth-order Runge-Kutta-Fehlberg update. The source also evaluates
      a sixth slope, which no later expression reads, so it is not part of the
      value. */
  function FehlbergStep(f: (real, real) -> real, x: real, y: real, h: real): real {
    var k1 := h * f(x, y);
    var k2 := h * f(x + 0.25 * h, y + 0.25 * k1);
    var k3 := h * f(x + 3.0 * h / 8.0, y + 3.0 * k1 / 32.0 + 9.0 * k2 / 32.0);
    var k4 := h * f(x + 12.0 * h / 13.0, y + 1932.0 * k1 / 2197.0 - 7200.0 * k2 / 2197.0 + 7296.0 * k3 / 2197.0);
    var k5 := h * f(x + h, y + 439.0 * k1 / 216.0 - 8.0 * k2 + 3680.0 * k3 / 513.0 - 845.0 * k4 / 4104.0);
    y + 25.0 * k1 / 216.0 + 1408.0 * k3 / 2565.0 + 2197.0 * k4 / 4104.0 - 0.2 * k5
  }

  function Step(m: Method, f: (real, real) -> real, x: real, y: real, h: real): real {
    match m
    case Euler => EulerStep(f, x, y, h)
    case RungeKutta2 => RungeKutta2Step(f, x, y, h)
    case RungeKutta4 => RungeKutta4Step(f, x, y, h)
    case Fehlberg => FehlbergStep(f, x, y, h)
  }

  /** The state at `x[i]`: `y0` at `x[0]`, then one step per grid interval. */
  function StateAt(m: Method, f: (real, real) -> real, x: seq<real>, y0: real, i: nat): real
    requires i < |x|
  {
    if i == 0 then y0 else Step(m, f, x[i - 1], StateAt(m, f, x, y0, i - 1), x[i] - x[i - 1])
  }

  /** The output of a one-step method: `|x| - 1` states, entry `i` at `x[i + 1]`. */
  ghost predicate IsTrajectory(m: Method, f: (real, real) -> real, x: seq<real>, y0: real, ys: seq<real>)
    requires |x| >= 1
  {
    |ys| == |x| - 1 && forall i :: 0 <= i < |ys| ==> ys[i] == StateAt(m, f, x, y0, i + 1)
  }

  /** `euler`, `rungeKutta2`, `rungeKutta4` and `fehlberg`: one loop, differing
      only in the step, that writes the new state into `result[i]`. */
  method OneStep(m: Method, f: (real, real) -> real, x: seq<real>, y0: real) returns (r: Result<seq<real>>)
    ensures r.Err? <==> |x| == 0
    ensures r.Err? ==> r.error == Overflow
    ensures r.Ok? ==> IsTrajectory(m, f, x, y0, r.value)
  {
    if |x| == 0 {
      return Err(Overflow);
    }
    var n := |x| - 1;
    var result := new real[n];
    var ynew := y0;
    for i := 0 to n
      invariant ynew == StateAt(m, f, x, y0, i)
      invariant forall p :: 0 <= p < i ==> result[p] == StateAt(m, f, x, y0, p + 1)
    {
      var h := x[i + 1] - x[i];
      var xnew := x[i];
      StateAtNext(m, f, x, y0, i);
      ynew := Step(m, f, xnew, ynew, h);
      result[i] := ynew;
    }
    r := Ok(result[..]);
  }

  /** For a constant slope `c`, each method's step adds exactly `c h`: the
      weights of every update sum to 1. */
  lemma StepOfConstant(m: Method, f: (real, real) -> real, c: real, x: real, y: real, h: real)
    requires forall u, v :: f(u, v) == c
    ensures Step(m, f, x, y, h) == y + c * h
  {
    var k := h * c;
    assert h * f(x, y) == k;
    match m
    case Euler =>
    case RungeKutta2 =>
      assert h * f(x + 0.5 * h, y + 0.5 * k) == k;
    case RungeKutta4 =>
      assert h * f(x + 0.5 * h, y + 0.5 * k) == k;
      assert h * f(x + 0.5 * h, y + 0.5 * k) == k;
      assert h * f(x + h, y + k) == k;
    case Fehlberg =>
      FehlbergOfConstant(f, c, x, y, h);
  }

  lemma FehlbergOfConstant(f: (real, real) -> real, c: real, x: real, y: real, h: real)
    requires forall u, v :: f(u, v) == c
    ensures FehlbergStep(f, x, y, h) == y + c * h
  {
    var k := h * c;
    var k1 := h * f(x, y);
    var k2 := h * f(x + 0.25 * h, y + 0.25 * k1);
    var k3 := h * f(x + 3.0 * h / 8.0, y + 3.0 * k1 / 32.0 + 9.0 * k2 / 32.0);
    var k4 := h * f(x + 12.0 * h / 13.0, y + 1932.0 * k1 / 2197.0 - 7200.0 * k2 / 2197.0 + 7296.0 * k3 / 2197.0);
    var k5 := h * f(x + h, y + 439.0 * k1 / 216.0 - 8.0 * k2 + 3680.0 * k3 / 513.0 - 845.0 * k4 / 4104.0);
    assert k1 == k && k3 == k && k4 == k && k5 == k;
    assert FehlbergStep(f, x, y, h) == y + 25.0 * k1 / 216.0 + 1408.0 * k3 / 2565.0 + 2197.0 * k4 / 4104.0 - 0.2 * k5;
    FehlbergWeightsSumToOne(y, k);
  }

  /** The fifth-order weights of the Fehlberg update sum to 1. */
  lemma FehlbergWeightsSumToOne(y: real, k: real)
    ensures y + 25.0 * k / 216.0 + 1408.0 * k / 2565.0 + 2197.0 * k / 4104.0 - 0.2 * k == y + k
  {
  }

  /** `y0 + K (x[i] - x[0])`, accumulated one grid interval at a time. */
  function Line(x: seq<real>, y0: real, K: real, i: nat): real
    requires i < |x|
  {
    if i == 0 then y0 else Line(x, y0, K, i - 1) + K * (x[i] - x[i - 1])
  }

  /** The accumulated line is the straight line through `(x[0], y0)` of slope `K`. */
  lemma {:induction false} LineIsAffine(x: seq<real>, y0: real, K: real, i: nat)
    requires i < |x|
    ensures Line(x, y0, K, i) == y0 + K * (x[i] - x[0])
  {
    if i > 0 {
      LineIsAffine(x, y0, K, i - 1);
      assert K * (x[i] - x[0]) == K * (x[i - 1] - x[0]) + K * (x[i] - x[i - 1]);
    }
  }

  lemma {:induction false} ConstantSlopeOnLine(m: Method, f: (real, real) -> real, c: real, x: seq<real>, y0: real, i: nat)
    requires forall u, v :: f(u, v) == c
    requires i < |x|
    ensures StateAt(m, f, x, y0, i) == Line(x, y0, c, i)
  {
    if i > 0 {
      ConstantSlopeOnLine(m, f, c, x, y0, i - 1);
      StepOfConstant(m, f, c, x[i - 1], StateAt(m, f, x, y0, i - 1), x[i] - x[i - 1]);
    }
  }

  /** For a constant slope `c` every method is exact: the state at `x[i]` is
      `y0 + c (x[i] - x[0])`, whatever the grid. */
  lemma ConstantSlopeIsExact(m: Method, f: (real, real) -> real, c: real, x: seq<real>, y0: real, i: nat)
    requires forall u, v :: f(u, v) == c
    requires i < |x|
    ensures StateAt(m, f, x, y0, i) == y0 + c * (x[i] - x[0])
  {
    ConstantSlopeOnLine(m, f, c, x, y0, i);
    LineIsAffine(x, y0, c, i);
  }

  /** The states on a prefix of the grid are the states on the whole grid. */
  lemma {:induction false} PrefixStates(m: Method, f: (real, real) -> real, x: seq<real>, y0: real, k: nat, i: nat)
    requires i < k <= |x|
    ensures StateAt(m, f, x[..k], y0, i) == StateAt(m, f, x, y0, i)
  {
    if i > 0 {
      PrefixStates(m, f, x, y0, k, i - 1);
    }
  }

  /** A trajectory over the first `k` grid points holds the first `k - 1`
      states of the whole grid. */
  lemma StartStates(m: Method, f: (real, real) -> real, x: seq<real>, y0: real, k: nat, s: seq<real>)
    requires 1 <= k <= |x| && IsTrajectory(m, f, x[..k], y0, s)
    ensures forall i :: 0 <= i < k - 1 ==> s[i] == StateAt(m, f, x, y0, i + 1)
  {
    forall i | 0 <= i < k - 1
      ensures s[i] == StateAt(m, f, x, y0, i + 1)
    {
      PrefixStates(m, f, x, y0, k, i + 1);
    }
  }

  /** One more grid interval is one more step. */
  lemma StateAtNext(m: Method, f: (real, real) -> real, x: seq<real>, y0: real, i: nat)
    requires i + 1 < |x|
    ensures StateAt(m, f, x, y0, i + 1) == Step(m, f, x[i], StateAt(m, f, x, y0, i), x[i + 1] - x[i])
  {
  }

  // ----- Adams-Bashforth -----

  /** `A[i, j] = j^i`, the `order x order` system whose solution gives the
      Adams-Bashforth weights. */
  function PowerMatrix(order: nat): (A: Matrix)
    ensures IsMatrix(A, order, order)
    ensures forall i, j :: 0 <= i < order && 0 <= j < order ==> A[i][j] == Pow(j as real, i)
  {
    seq(order, i requires 0 <= i => seq(order, j => Pow(j as real, i)))
  }

  /** `c[i] = (-1)^i / (i + 1)`, the right-hand side of that system. */
  function AlternatingRight(order: nat): (c: seq<real>)
    ensures |c| == order
    ensures forall i :: 0 <= i < order ==> c[i] == Pow(-1.0, i) / ((i + 1) as real)
  {
    seq(order, i requires 0 <= i => Pow(-1.0, i) / ((i + 1) as real))
  }

  /** The right-hand side starts at 1 and alternates in sign with shrinking
      magnitude: `(i + 1) c[i] = (-1)^i`. */
  lemma {:induction false} AlternatingRightSigns(order: nat, i: nat)
    requires i < order
    ensures ((i + 1) as real) * AlternatingRight(order)[i] == Pow(-1.0, i)
    ensures Pow(-1.0, i) == if i % 2 == 0 then 1.0 else -1.0
  {
    if i > 0 {
      AlternatingRightSigns(order, i - 1);
    }
  }

  /** The inner loop of `GetCoefficients`: row `i` of the system. */
  method PowerRow(order: nat, i: nat) returns (row: seq<real>)
    requires i < order
    ensures row == PowerMatrix(order)[i]
  {
    row := [];
    for j := 0 to order
      invariant |row| == j
      invariant forall q :: 0 <= q < j ==> row[q] == Pow(q as real, i)
    {
      row := row + [Pow(j as real, i)];
    }
  }

  /** `GetCoefficients(order)`: the system filled by the double loop and handed
      to `solve`. */
  method GetCoefficients(order: nat, solve: (Matrix, seq<real>) -> seq<real>) returns (c: seq<real>)
    ensures c == solve(PowerMatrix(order), AlternatingRight(order))
  {
    var A: Matrix := [];
    var rhs: seq<real> := [];
    for i := 0 to order
      invariant A == PowerMatrix(order)[..i]
      invariant rhs == AlternatingRight(order)[..i]
    {
      var row := PowerRow(order, i);
      A := A + [row];
      rhs := rhs + [Pow(-1.0, i) / ((i + 1) as real)];
      assert PowerMatrix(order)[..i + 1] == PowerMatrix(order)[..i] + [row];
      assert AlternatingRight(order)[..i + 1] == AlternatingRight(order)[..i] + [rhs[i]];
    }
    assert PowerMatrix(order)[..order] == PowerMatrix(order);
    assert AlternatingRight(order)[..order] == AlternatingRight(order);
    c := solve(A, rhs);
  }

  /** `solve` returns a vector of the length of the right-hand side. */
  ghost predicate SolvesToLength(solve: (Matrix, seq<real>) -> seq<real>, order: nat) {
    forall A, v :: |v| == order ==> |solve(A, v)| == order
  }

  /** `ys[i-1] + sum_{j < terms} (x[i-j] - x[i-j-1]) c[j] F(x[i-j], ys[i-j-1])`
      with `i = |ys|`: the value the multistep loop writes into `y[i]`. */
  function MultistepSum(f: (real, real) -> real, x: seq<real>, ys: seq<real>, c: seq<real>, terms: nat): real
    requires terms <= |c| && terms <= |ys| && 1 <= |ys| < |x|
  {
    var i := |ys|;
    if terms == 0 then ys[i - 1]
    else
      var j := terms - 1;
      MultistepSum(f, x, ys, c, j) + (x[i - j] - x[i - j - 1]) * c[j] * f(x[i - j], ys[i - j - 1])
  }

  /** The first `k` outputs of Adams-Bashforth of order `order` with weights
      `c`: the first `order` are the one-step states `start`, each later one is
      a multistep sum over the previous `order` outputs. */
  function Multistep(f: (real, real) -> real, x: seq<real>, c: seq<real>, order: nat, start: seq<real>, k: nat): (ys: seq<real>)
    requires 1 <= order <= |c| && |start| == order && order <= k < |x|
    ensures |ys| == k
  {
    if k == order then start
    else
      var prev := Multistep(f, x, c, order, start, k - 1);
      prev + [MultistepSum(f, x, prev, c, order)]
  }

  /** The earlier outputs are never rewritten: output `i < k` of a run of `k`
      outputs is output `i` of any longer run. */
  lemma {:induction false} MultistepPrefix(f: (real, real) -> real, x: seq<real>, c: seq<real>, order: nat, start: seq<real>, k: nat, l: nat)
    requires 1 <= order <= |c| && |start| == order && order <= k <= l < |x|
    ensures Multistep(f, x, c, order, start, l)[..k] == Multistep(f, x, c, order, start, k)
    decreases l - k
  {
    if l > k {
      MultistepPrefix(f, x, c, order, start, k, l - 1);
    }
  }

  /** A grid of uniform step `h`. */
  ghost predicate Uniform(x: seq<real>, h: real) {
    forall i :: 0 <= i < |x| ==> x[i] == x[0] + (i as real) * h
  }

  /** The width of grid interval `i`. */
  function Gap(x: seq<real>, i: nat): real
    requires 0 < i < |x|
  {
    x[i] - x[i - 1]
  }

  /** Every grid interval has width `h`. */
  ghost predicate EvenSteps(x: seq<real>, h: real) {
    forall i :: 0 < i < |x| ==> Gap(x, i) == h
  }

  /** A uniform grid has all its intervals of width `h`. */
  lemma UniformSteps(x: seq<real>, h: real)
    requires Uniform(x, h)
    ensures EvenSteps(x, h)
  {
    forall i | 0 < i < |x|
      ensures Gap(x, i) == h
    {
      assert x[i] == x[0] + (i as real) * h;
      assert x[i - 1] == x[0] + ((i - 1) as real) * h;
      assert (i as real) * h == ((i - 1) as real) * h + h;
    }
  }

  /** On a grid of uniform step `h` with a constant slope `K`, the multistep
      sum adds `h K` times the sum of the weights used. */
  lemma {:induction false} MultistepSumOfConstant(f: (real, real) -> real, K: real, h: real, x: seq<real>, ys: seq<real>, c: seq<real>, terms: nat)
    requires forall u, v :: f(u, v) == K
    requires EvenSteps(x, h)
    requires terms <= |c| && terms <= |ys| && 1 <= |ys| < |x|
    ensures MultistepSum(f, x, ys, c, terms) == ys[|ys| - 1] + (h * K) * Sum(c[..terms])
  {
    if terms > 0 {
      var i, j := |ys|, terms - 1;
      MultistepSumOfConstant(f, K, h, x, ys, c, j);
      assert c[..terms][..j] == c[..j];
      assert Sum(c[..terms]) == Sum(c[..j]) + c[j];
      assert Gap(x, i - j) == h;
      assert f(x[i - j], ys[i - j - 1]) == K;
      ScaledTerm(h * K, Sum(c[..j]), c[j], x[i - j] - x[i - j - 1], h, f(x[i - j], ys[i - j - 1]), K);
    }
  }

  lemma ScaledTerm(d: real, s: real, cj: real, gap: real, h: real, fv: real, K: real)
    requires d == h * K && gap == h && fv == K
    ensures d * (s + cj) == d * s + gap * cj * fv
  {
  }

  lemma AdvanceByConstant(K: real, h: real, gap: real, s: real, last: real, next: real)
    requires next == last + (h * K) * s && s == 1.0 && gap == h
    ensures next == last + K * gap
  {
  }

  /** With exact starting values, the multistep outputs stay on the line for
      a constant slope on a uniform grid when the weights sum to 1. */
  lemma {:induction false} MultistepExactOnConstant(f: (real, real) -> real, K: real, h: real, x: seq<real>, y0: real,
                                                    c: seq<real>, order: nat, start: seq<real>, k: nat)
    requires forall u, v :: f(u, v) == K
    requires EvenSteps(x, h)
    requires 1 <= order <= |c| && |start| == order && order <= k < |x|
    requires Sum(c[..order]) == 1.0
    requires forall i :: 0 <= i < order ==> start[i] == Line(x, y0, K, i + 1)
    ensures forall i :: 0 <= i < k ==> Multistep(f, x, c, order, start, k)[i] == Line(x, y0, K, i + 1)
  {
    if k > order {
      MultistepExactOnConstant(f, K, h, x, y0, c, order, start, k - 1);
      var prev := Multistep(f, x, c, order, start, k - 1);
      assert prev[k - 2] == Line(x, y0, K, k - 1);
      NextOnLine(f, K, h, x, y0, c, order, prev, k);
      assert Multistep(f, x, c, order, start, k) == prev + [MultistepSum(f, x, prev, c, order)];
    }
  }

  /** The multistep sum after outputs on the line is on the line. */
  lemma NextOnLine(f: (real, real) -> real, K: real, h: real, x: seq<real>, y0: real, c: seq<real>, order: nat, prev: seq<real>, k: nat)
    requires forall u, v :: f(u, v) == K
    requires EvenSteps(x, h)
    requires 1 <= order <= |c| && order <= |prev| && |prev| == k - 1 && k < |x|
    requires Sum(c[..order]) == 1.0
    requires prev[k - 2] == Line(x, y0, K, k - 1)
    ensures MultistepSum(f, x, prev, c, order) == Line(x, y0, K, k)
  {
    MultistepSumOfConstant(f, K, h, x, prev, c, order);
    assert Gap(x, k) == h;
    AdvanceByConstant(K, h, x[k] - x[k - 1], Sum(c[..order]), prev[k - 2], MultistepSum(f, x, prev, c, order));
  }

  /** Adams-Bashforth is exact for a constant slope on a uniform grid when its
      weights sum to 1 (the first row of the system, `sum_j c[j] = 1`): every
      output is `y0 + K (x[i + 1] - x[0])`, the one-step starting values
      included. */
  lemma AdamsBashforthExactOnConstant(m: Method, f: (real, real) -> real, K: real, h: real, x: seq<real>, y0: real,
                                      c: seq<real>, order: nat, start: seq<real>)
    requires forall u, v :: f(u, v) == K
    requires Uniform(x, h)
    requires 1 <= order <= |c| && |start| == order && order < |x| - 1
    requires Sum(c[..order]) == 1.0
    requires forall i :: 0 <= i < order ==> start[i] == StateAt(m, f, x, y0, i + 1)
    ensures var ys := Multistep(f, x, c, order, start, |x| - 1);
      forall i :: 0 <= i < |ys| ==> ys[i] == y0 + K * (x[i + 1] - x[0])
  {
    forall i | 0 <= i < order
      ensures start[i] == Line(x, y0, K, i + 1)
    {
      ConstantSlopeOnLine(m, f, K, x, y0, i + 1);
    }
    UniformSteps(x, h);
    MultistepExactOnConstant(f, K, h, x, y0, c, order, start, |x| - 1);
    var ys := Multistep(f, x, c, order, start, |x| - 1);
    forall i | 0 <= i < |ys|
      ensures ys[i] == y0 + K * (x[i + 1] - x[0])
    {
      LineIsAffine(x, y0, K, i + 1);
    }
  }

  /** `Compute(function, x, y0, order)` of a solver using `m`: Adams-Bashforth
      when `1 < order < |x| - 1`, the plain one-step method otherwise. */
  ghost predicate UsesMultistep(x: seq<real>, order: int) {
    1 < order < |x| - 1
  }

  /** The inner loop over `j`: the multistep sum for `y[i]`. */
  method MultistepLoop(f: (real, real) -> real, x: seq<real>, y: array<real>, c: seq<real>, i: nat, order: nat) returns (sum: real)
    requires 1 <= order <= |c| && order <= i < y.Length && i < |x|
    ensures sum == MultistepSum(f, x, y[..i], c, order)
  {
    sum := y[i - 1];
    for j := 0 to order
      invariant sum == MultistepSum(f, x, y[..i], c, j)
    {
      var t := x[i - j];
      var h := t - x[i - j - 1];
      assert y[..i][i - j - 1] == y[i - j - 1];
      assert MultistepSum(f, x, y[..i], c, j + 1) == sum + h * c[j] * f(t, y[i - j - 1]);
      sum := sum + h * c[j] * f(t, y[i - j - 1]);
    }
  }

  /** The two loops of Adams-Bashforth that fill `y`: the starting values,
      then one multistep sum per remaining entry. */
  method MultistepFill(f: (real, real) -> real, x: seq<real>, y: array<real>, c: seq<real>, order: nat, s: seq<real>)
    requires 1 <= order <= |c| && |s| == order && order <= y.Length && y.Length < |x|
    modifies y
    ensures y[..] == Multistep(f, x, c, order, s, y.Length)
  {
    for i := 0 to order
      invariant forall p :: 0 <= p < i ==> y[p] == s[p]
    {
      y[i] := s[i];
    }
    assert y[..order] == s;
    for i := order to y.Length
      invariant y[..i] == Multistep(f, x, c, order, s, i)
    {
      var sum := MultistepLoop(f, x, y, c, i, order);
      y[i] := sum;
      assert y[..i + 1] == y[..i] + [sum];
    }
    assert y[..] == y[..y.Length];
  }

  /** Adams-Bashforth: the first `order` outputs are the one-step method's
      outputs on the first `order + 1` grid points, the rest multistep sums;
      any other order falls back to the one-step method. */
  method AdamsBashforth(m: Method, f: (real, real) -> real, x: seq<real>, y0: real, order: int, solve: (Matrix, seq<real>) -> seq<real>)
    returns (r: Result<seq<real>>)
    requires order >= 0 ==> SolvesToLength(solve, order)
    ensures !UsesMultistep(x, order) ==> (r.Err? <==> |x| == 0) && (r.Ok? ==> IsTrajectory(m, f, x, y0, r.value))
    ensures UsesMultistep(x, order) ==> r.Ok? && |r.value| == |x| - 1
    ensures UsesMultistep(x, order) ==> forall i :: 0 <= i < order ==> r.value[i] == StateAt(m, f, x, y0, i + 1)
    ensures UsesMultistep(x, order) ==>
      var c := solve(PowerMatrix(order), AlternatingRight(order));
      r.value == Multistep(f, x, c, order, r.value[..order], |x| - 1)
  {
    var n := |x| - 1;
    if order > 1 && order < n {
      var k := order + 1;
      var y := new real[n];
      var c := GetCoefficients(order, solve);
      var start := OneStep(m, f, x[..k], y0);
      var s := start.value;
      StartStates(m, f, x, y0, k, s);
      MultistepFill(f, x, y, c, order, s);
      MultistepPrefix(f, x, c, order, s, order, n);
      return Ok(y[..]);
    }
    r := OneStep(m, f, x, y0);
  }

  class Differential {
    /** The one-step method `Compute` uses (the `MethodType` property). */
    var kind: Method

    constructor (kind: Method)
      ensures this.kind == kind
    {
      this.kind := kind;
    }

    method SetMethodType(m: Method)
      modifies this
      ensures kind == m
    {
      kind := m;
    }

    method Compute(f: (real, real) -> real, x: seq<real>, y0: real) returns (r: Result<seq<real>>)
      ensures r.Err? <==> |x| == 0
      ensures r.Ok? ==> IsTrajectory(kind, f, x, y0, r.value)
    {
      r := OneStep(kind, f, x, y0);
    }

    method ComputeMultistep(f: (real, real) -> real, x: seq<real>, y0: real, order: int, solve: (Matrix, seq<real>) -> seq<real>)
      returns (r: Result<seq<real>>)
      requires order >= 0 ==> SolvesToLength(solve, order)
      ensures !UsesMultistep(x, order) ==> (r.Err? <==> |x| == 0) && (r.Ok? ==> IsTrajectory(kind, f, x, y0, r.value))
      ensures UsesMultistep(x, order) ==> r.Ok? && |r.value| == |x| - 1
      ensures UsesMultistep(x, order) ==> forall i :: 0 <= i < order ==> r.value[i] == StateAt(kind, f, x, y0, i + 1)
      ensures UsesMultistep(x, order) ==>
        var c := solve(PowerMatrix(order), AlternatingRight(order));
        r.value == Multistep(f, x, c, order, r.value[..order], |x| - 1)
    {
      r := AdamsBashforth(kind, f, x, y0, order, solve);
    }
  }
}
