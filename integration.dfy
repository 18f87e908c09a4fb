/** Numerical integration (class `Integration` of analysis.cs): the rectangle,
    midpoint, trapezoidal and Simpson rules, each over a function and over an
    array of samples, and Romberg's method over a function.

    Every rule is a sum of terms read from a `Sampler`: `Grid(a, h)`
    samples `f` at `a + i h`, `Array(y)` reads an array. A
    non-finite result (Simpson's `NaN`) is `None`; an array index outside the
    array, or an array of negative size, is an `Err`. */
module Quadrature {
  import opened Common

  datatype Method = Rectangle | Midpoint | Trapezoidal | Simpson | Romberg

  /** Where a rule reads its values: `f(a + i h)`, `f(a + (i + 0.5) h)` (the
      panel midpoints) or `y[i]`. */
  datatype Sampler =
    | Grid(a: real, h: real)
    | Midpoints(a: real, h: real)
    | Array(y: seq<real>)

  /** Value `i` of a sampler of `f` (`f` is not read for an array); array
      indices past the end are never read by the rules below. */
  function At(f: real -> real, g: Sampler, i: nat): real {
    match g
    case Grid(a, h) => Node(f, a, h, i as real)
    case Midpoints(a, h) => Node(f, a, h, (i as real) + 0.5)
    case Array(y) => if i < |y| then y[i] else 0.0
  }

  /** `f(a + t h)`. */
  function Node(f: real -> real, a: real, h: real, t: real): real {
    f(a + t * h)
  }

  /** The function an array rule passes to `At`, which never applies it. */
  const Unused: real -> real := x => 0.0

  /** `h g_0 + ... + h g_(k-1)` for the values `g_i` of `g`, accumulated from index 0 upwards. */
  function Riemann(f: real -> real, g: Sampler, h: real, k: nat): real {
    if k == 0 then 0.0 else Riemann(f, g, h, k - 1) + h * At(f, g, k - 1)
  }

  /** Sum over panels `i < k` of `0.5 h (g_i + g_(i+1))`. */
  function PairSum(f: real -> real, g: Sampler, h: real, k: nat): real {
    if k == 0 then 0.0 else PairSum(f, g, h, k - 1) + 0.5 * h * (At(f, g, k - 1) + At(f, g, k))
  }

  /** One Simpson panel pair starting at sample `i`. */
  function SimpsonPanel(v: nat -> real, h: real, i: nat): real {
    h * (v(i) + 4.0 * v(i + 1) + v(i + 2)) / 3.0
  }

  /** The values of a sampler as one function of the index. */
  function Samples(f: real -> real, g: Sampler): nat -> real {
    (i: nat) => At(f, g, i)
  }

  /** Simpson panel pairs starting at `start, start + 2, ...`, `count` of them. */
  function SimpsonPairs(v: nat -> real, h: real, start: nat, count: nat): real {
    if count == 0 then 0.0 else SimpsonPairs(v, h, start, count - 1) + SimpsonPanel(v, h, start + 2 * (count - 1))
  }

  /** The 3/8 rule on samples 0..3, which starts Simpson's sum for an even count. */
  function ThreeEighths(v: nat -> real, h: real): real {
    3.0 * h * (v(0) + 3.0 * v(1) + 3.0 * v(2) + v(3)) / 8.0
  }

  /** Simpson's sum over `n >= 3` samples: pairs from sample 0 when `n` is odd;
      the 3/8 rule then pairs from sample 3 when `n` is even. Either way the last
      sample read is `n - 1`. */
  function SimpsonSum(v: nat -> real, h: real, n: nat): real
    requires n >= 3
  {
    if n % 2 != 0 then SimpsonPairs(v, h, 0, (n - 1) / 2)
    else ThreeEighths(v, h) + SimpsonPairs(v, h, 3, (n - 4) / 2)
  }

  // ----- the rules over a function -----

  /** `(b - a) / n`, the width of each of `n` panels. */
  function Step(a: real, b: real, n: int): real
    requires n > 0
  {
    (b - a) / (n as real)
  }

  /** `rect(f, a, b, n)`: with `n <= 0` the loop never runs and the sum is 0. */
  function RectangleRule(f: real -> real, a: real, b: real, n: int): real {
    if n <= 0 then 0.0 else var h := Step(a, b, n); Riemann(f, Grid(a, h), h, n)
  }

  function MidpointRule(f: real -> real, a: real, b: real, n: int): real {
    if n <= 0 then 0.0 else var h := Step(a, b, n); Riemann(f, Midpoints(a, h), h, n)
  }

  function TrapezoidalRule(f: real -> real, a: real, b: real, n: int): real {
    if n <= 0 then 0.0 else var h := Step(a, b, n); PairSum(f, Grid(a, h), h, n)
  }

  /** `simp(f, a, b, n)`: `NaN` below 3 points, and a step of `(b - a) / n`. */
  function SimpsonRule(f: real -> real, a: real, b: real, n: int): Option<real> {
    if n < 3 then None else var h := Step(a, b, n); Some(SimpsonSum(Samples(f, Grid(a, h)), h, n))
  }

  // ----- the rules over an array -----

  function RectangleArray(y: seq<real>, a: real, b: real, n: int): Result<real> {
    if n <= 0 then Ok(0.0)
    else if n > |y| then Err(IndexOutOfRange)
    else var h := Step(a, b, n); Ok(Riemann(Unused, Array(y), h, n))
  }

  /** `midp(y, a, b, n)` and `trap(y, a, b, n)` are the same formula: the
      trapezoidal sum of `y[0..n)` with step `(b - a) / (n - 1)`. The panel
      count `n - 1` is unchecked `int` arithmetic, so `n == IntMin` gives
      `IntMax` panels. */
  function PairArray(y: seq<real>, a: real, b: real, n: Int32): Result<real> {
    var panels := Wrap32(n - 1);
    if panels <= 0 then Ok(0.0)
    else if panels >= |y| then Err(IndexOutOfRange)
    else var h := Step(a, b, panels); Ok(PairSum(Unused, Array(y), h, panels))
  }

  /** `simp(y, a, b, n)`: `NaN` below 3 points or for a zero step; otherwise it
      reads `y[0..n)`. */
  function SimpsonArray(y: seq<real>, a: real, b: real, n: int): Result<Option<real>> {
    if n < 3 || b - a == 0.0 then Ok(None)
    else if n > |y| then Err(IndexOutOfRange)
    else var h := Step(a, b, n); Ok(Some(SimpsonSum(Samples(Unused, Array(y)), h, n)))
  }

  // ----- properties of the sums -----

  lemma {:induction false} RiemannConstant(f: real -> real, g: Sampler, h: real, c: real, k: nat)
    requires forall i: nat :: i < k ==> At(f, g, i) == c
    ensures Riemann(f, g, h, k) == (k as real) * h * c
  {
    if k > 0 {
      RiemannConstant(f, g, h, c, k - 1);
    }
  }

  lemma {:induction false} PairSumConstant(f: real -> real, g: Sampler, h: real, c: real, k: nat)
    requires forall i: nat :: i <= k ==> At(f, g, i) == c
    ensures PairSum(f, g, h, k) == (k as real) * h * c
  {
    if k > 0 {
      PairSumConstant(f, g, h, c, k - 1);
    }
  }

  lemma {:induction false} SimpsonPairsConstant(v: nat -> real, h: real, c: real, start: nat, count: nat)
    requires forall i: nat :: i <= start + 2 * count ==> v(i) == c
    ensures SimpsonPairs(v, h, start, count) == 2.0 * (count as real) * (h * c)
  {
    if count > 0 {
      var i := start + 2 * (count - 1);
      SimpsonPairsConstant(v, h, c, start, count - 1);
      PanelOfConstant(v, h, c, i);
      OneMorePair(count, h * c, SimpsonPairs(v, h, start, count - 1), SimpsonPanel(v, h, i));
    }
  }

  lemma PanelOfConstant(v: nat -> real, h: real, c: real, i: nat)
    requires v(i) == c && v(i + 1) == c && v(i + 2) == c
    ensures SimpsonPanel(v, h, i) == 2.0 * (h * c)
  {
  }

  lemma OneMorePair(count: nat, v: real, before: real, panel: real)
    requires count > 0 && before == 2.0 * ((count - 1) as real) * v && panel == 2.0 * v
    ensures before + panel == 2.0 * (count as real) * v
  {
  }

  /** With `n >= 1` panels the rectangle, midpoint and trapezoidal rules integrate
      a constant `c` to exactly `c (b - a)`. */
  lemma ConstantIntegratesExactly(f: real -> real, c: real, a: real, b: real, n: int)
    requires forall x :: f(x) == c
    requires n >= 1
    ensures RectangleRule(f, a, b, n) == c * (b - a)
    ensures MidpointRule(f, a, b, n) == c * (b - a)
    ensures TrapezoidalRule(f, a, b, n) == c * (b - a)
  {
    var h := Step(a, b, n);
    assert (n as real) * h == b - a;
    RiemannConstant(f, Grid(a, h), h, c, n);
    RiemannConstant(f, Midpoints(a, h), h, c, n);
    PairSumConstant(f, Grid(a, h), h, c, n);
  }

  /** Simpson's sum over `n` samples of a constant covers `n - 1` panels. */
  lemma SimpsonSumConstant(v: nat -> real, h: real, c: real, n: nat)
    requires n >= 3
    requires forall i: nat :: i < n ==> v(i) == c
    ensures SimpsonSum(v, h, n) == ((n - 1) as real) * (h * c)
  {
    if n % 2 != 0 {
      SimpsonOddConstant(v, h, c, n);
    } else {
      SimpsonEvenConstant(v, h, c, n);
    }
  }

  lemma SimpsonOddConstant(v: nat -> real, h: real, c: real, n: nat)
    requires n >= 3 && n % 2 != 0
    requires forall i: nat :: i < n ==> v(i) == c
    ensures SimpsonPairs(v, h, 0, (n - 1) / 2) == ((n - 1) as real) * (h * c)
  {
    var count := (n - 1) / 2;
    SimpsonPairsConstant(v, h, c, 0, count);
    ScaledCount(count, n - 1, h * c);
  }

  lemma SimpsonEvenConstant(v: nat -> real, h: real, c: real, n: nat)
    requires n >= 4 && n % 2 == 0
    requires forall i: nat :: i < n ==> v(i) == c
    ensures ThreeEighths(v, h) + SimpsonPairs(v, h, 3, (n - 4) / 2) == ((n - 1) as real) * (h * c)
  {
    var count := (n - 4) / 2;
    SimpsonPairsConstant(v, h, c, 3, count);
    ThreeEighthsOfConstant(v, h, c);
    ScaledCount(count, n - 4, h * c);
    ThreeMore(n - 4, h * c);
  }

  lemma ThreeEighthsOfConstant(v: nat -> real, h: real, c: real)
    requires v(0) == c && v(1) == c && v(2) == c && v(3) == c
    ensures ThreeEighths(v, h) == 3.0 * (h * c)
  {
  }

  lemma ThreeMore(m: nat, v: real)
    ensures 3.0 * v + (m as real) * v == ((m + 3) as real) * v
  {
  }

  lemma ScaledCount(count: nat, m: nat, v: real)
    requires m == 2 * count
    ensures 2.0 * (count as real) * v == (m as real) * v
  {
  }

  /** Simpson's sum never reaches the last panel: for a constant `c` and `n >= 3`
      points it covers `n - 1` panels of width `(b - a) / n`, so it gives
      `c (n - 1) (b - a) / n`, not `c (b - a)`, for either parity. */
  lemma SimpsonMissesLastPanel(f: real -> real, c: real, a: real, b: real, n: int)
    requires forall x :: f(x) == c
    requires n >= 3
    ensures SimpsonRule(f, a, b, n) == Some(((n - 1) as real) * (Step(a, b, n) * c))
  {
    var h := Step(a, b, n);
    var v := Samples(f, Grid(a, h));
    forall i: nat | i < n
      ensures v(i) == c
    {
      assert v(i) == f(a + (i as real) * h);
    }
    SimpsonSumConstant(v, h, c, n);
    var total := ((n - 1) as real) * (h * c);
    assert SimpsonSum(v, h, n) == total;
    assert SimpsonRule(f, a, b, n) == Some(SimpsonSum(v, h, n));
    assert SimpsonRule(f, a, b, n) == Some(total);
    assert h == Step(a, b, n);
    assert h * c == Step(a, b, n) * c;
    assert total == ((n - 1) as real) * (Step(a, b, n) * c);
  }

  lemma {:induction false} RiemannAgree(f1: real -> real, g1: Sampler, f2: real -> real, g2: Sampler, h: real, k: nat)
    requires forall i: nat :: i < k ==> At(f1, g1, i) == At(f2, g2, i)
    ensures Riemann(f1, g1, h, k) == Riemann(f2, g2, h, k)
  {
    if k > 0 {
      RiemannAgree(f1, g1, f2, g2, h, k - 1);
    }
  }

  lemma {:induction false} PairSumAgree(f1: real -> real, g1: Sampler, f2: real -> real, g2: Sampler, h: real, k: nat)
    requires forall i: nat :: i <= k ==> At(f1, g1, i) == At(f2, g2, i)
    ensures PairSum(f1, g1, h, k) == PairSum(f2, g2, h, k)
  {
    if k > 0 {
      PairSumAgree(f1, g1, f2, g2, h, k - 1);
      assert At(f1, g1, k - 1) == At(f2, g2, k - 1) && At(f1, g1, k) == At(f2, g2, k);
    }
  }

  lemma {:induction false} SimpsonPairsAgree(v1: nat -> real, v2: nat -> real, h: real, start: nat, count: nat)
    requires forall i: nat :: i <= start + 2 * count ==> v1(i) == v2(i)
    ensures SimpsonPairs(v1, h, start, count) == SimpsonPairs(v2, h, start, count)
  {
    if count > 0 {
      SimpsonPairsAgree(v1, v2, h, start, count - 1);
      PanelAgree(v1, v2, h, start + 2 * (count - 1));
    }
  }

  lemma PanelAgree(v1: nat -> real, v2: nat -> real, h: real, i: nat)
    requires v1(i) == v2(i) && v1(i + 1) == v2(i + 1) && v1(i + 2) == v2(i + 2)
    ensures SimpsonPanel(v1, h, i) == SimpsonPanel(v2, h, i)
  {
  }

  /** An array holding `f(a + i h)` for `i < n` reads, through `At`, what the grid reads. */
  lemma SamplesAgree(f: real -> real, y: seq<real>, a: real, h: real, n: nat)
    requires n <= |y|
    requires forall i :: 0 <= i < n ==> y[i] == f(a + (i as real) * h)
    ensures forall i: nat :: i < n ==> At(Unused, Array(y), i) == At(f, Grid(a, h), i)
  {
    forall i: nat | i < n
      ensures At(Unused, Array(y), i) == At(f, Grid(a, h), i)
    {
      assert y[i] == f(a + (i as real) * h);
    }
  }

  /** On an array holding the samples `f(a + i h)` with `h = (b - a) / n`, the array
      rectangle rule gives what the function rule gives. */
  lemma RectangleArrayAgrees(f: real -> real, y: seq<real>, a: real, b: real, n: int, h: real)
    requires 1 <= n <= |y|
    requires h == Step(a, b, n)
    requires forall i :: 0 <= i < n ==> y[i] == f(a + (i as real) * h)
    ensures RectangleArray(y, a, b, n) == Ok(RectangleRule(f, a, b, n))
  {
    SamplesAgree(f, y, a, h, n);
    RiemannAgree(Unused, Array(y), f, Grid(a, h), h, n);
  }

  /** The same for Simpson's rule, which needs 3 samples and a non-empty interval. */
  lemma SimpsonArrayAgrees(f: real -> real, y: seq<real>, a: real, b: real, n: int, h: real)
    requires 3 <= n <= |y| && b != a
    requires h == Step(a, b, n)
    requires forall i :: 0 <= i < n ==> y[i] == f(a + (i as real) * h)
    ensures SimpsonArray(y, a, b, n) == Ok(SimpsonRule(f, a, b, n))
  {
    SamplesAgree(f, y, a, h, n);
    SimpsonSumAgree(Samples(Unused, Array(y)), Samples(f, Grid(a, h)), h, n);
  }

  lemma SimpsonSumAgree(v1: nat -> real, v2: nat -> real, h: real, n: nat)
    requires n >= 3
    requires forall i: nat :: i < n ==> v1(i) == v2(i)
    ensures SimpsonSum(v1, h, n) == SimpsonSum(v2, h, n)
  {
    if n % 2 != 0 {
      SimpsonPairsAgree(v1, v2, h, 0, (n - 1) / 2);
    } else {
      SimpsonPairsAgree(v1, v2, h, 3, (n - 4) / 2);
      assert ThreeEighths(v1, h) == ThreeEighths(v2, h);
    }
  }

  /** The array midpoint and trapezoidal rules are the function trapezoidal rule
      with `n - 1` panels, on an array holding `f(a + i h)` with `h = (b - a) / (n - 1)`. */
  lemma PairArrayIsTrapezoidal(f: real -> real, y: seq<real>, a: real, b: real, n: Int32, h: real)
    requires 2 <= n <= |y|
    requires h == Step(a, b, n - 1)
    requires forall i :: 0 <= i < n ==> y[i] == f(a + (i as real) * h)
    ensures PairArray(y, a, b, n) == Ok(TrapezoidalRule(f, a, b, n - 1))
  {
    SamplesAgree(f, y, a, h, n);
    PairSumAgree(Unused, Array(y), f, Grid(a, h), h, n - 1);
  }

  /** Away from `IntMin` the array rules take `n - 1` panels over `y[0..n)`;
      at `n == IntMin` the panel count wraps to `IntMax`, so they read one
      element past any array a C# `int` can index. */
  lemma PairArrayPanels(y: seq<real>, a: real, b: real, n: Int32)
    ensures n > IntMin ==>
              PairArray(y, a, b, n) ==
                if n <= 1 then Ok(0.0)
                else if n > |y| then Err(IndexOutOfRange)
                else Ok(PairSum(Unused, Array(y), Step(a, b, n - 1), n - 1))
    ensures n == IntMin && |y| <= IntMax ==> PairArray(y, a, b, n) == Err(IndexOutOfRange)
  {
    if n == IntMin {
      assert Wrap32(IntMin - 1) == Wrap32(IntMax);
    }
  }

  // ----- the loops -----

  /** The accumulator loop of `rect` and `midp` over a function and of `rect`
      over an array: `sum += h g_i` for `i < n`. */
  method RiemannLoop(f: real -> real, g: Sampler, h: real, n: nat) returns (sum: real)
    ensures sum == Riemann(f, g, h, n)
  {
    sum := 0.0;
    for i := 0 to n
      invariant sum == Riemann(f, g, h, i)
    {
      sum := sum + h * At(f, g, i);
    }
  }

  /** The accumulator loop of `trap` over a function and of `midp` and `trap`
      over an array: `sum += 0.5 h (g_i + g_(i+1))` for `i < n`. */
  method PairLoop(f: real -> real, g: Sampler, h: real, n: nat) returns (sum: real)
    ensures sum == PairSum(f, g, h, n)
  {
    sum := 0.0;
    for i := 0 to n
      invariant sum == PairSum(f, g, h, i)
    {
      sum := sum + 0.5 * h * (At(f, g, i) + At(f, g, i + 1));
    }
  }

  method RectangleFunction(f: real -> real, a: real, b: real, n: int) returns (sum: real)
    ensures sum == RectangleRule(f, a, b, n)
  {
    if n <= 0 {
      return 0.0;
    }
    var h := Step(a, b, n);
    sum := RiemannLoop(f, Grid(a, h), h, n);
  }

  method MidpointFunction(f: real -> real, a: real, b: real, n: int) returns (sum: real)
    ensures sum == MidpointRule(f, a, b, n)
  {
    if n <= 0 {
      return 0.0;
    }
    var h := Step(a, b, n);
    sum := RiemannLoop(f, Midpoints(a, h), h, n);
  }

  method TrapezoidalFunction(f: real -> real, a: real, b: real, n: int) returns (sum: real)
    ensures sum == TrapezoidalRule(f, a, b, n)
  {
    if n <= 0 {
      return 0.0;
    }
    var h := Step(a, b, n);
    sum := PairLoop(f, Grid(a, h), h, n);
  }

  /** The source throws on the first index past the end; the model checks the
      bound before summing, which gives the same outcome. */
  method RectangleSamples(y: seq<real>, a: real, b: real, n: int) returns (r: Result<real>)
    ensures r == RectangleArray(y, a, b, n)
  {
    if n <= 0 {
      return Ok(0.0);
    }
    if n > |y| {
      return Err(IndexOutOfRange);
    }
    var h := Step(a, b, n);
    var sum := RiemannLoop(Unused, Array(y), h, n);
    r := Ok(sum);
  }

  /** `midp(y, a, b, n)` and `trap(y, a, b, n)`. */
  method PairSamples(y: seq<real>, a: real, b: real, n: Int32) returns (r: Result<real>)
    ensures r == PairArray(y, a, b, n)
  {
    var panels := Wrap32(n - 1);
    if panels <= 0 {
      return Ok(0.0);
    }
    if panels >= |y| {
      return Err(IndexOutOfRange);
    }
    var h := Step(a, b, panels);
    var sum := PairLoop(Unused, Array(y), h, panels);
    r := Ok(sum);
  }

  /** The panel loop `for (i = start; i < n - 1; i += 2) sum += ...`. */
  method PanelPairsLoop(v: nat -> real, h: real, start: nat, n: nat, sum0: real) returns (sum: real)
    requires start <= n - 1 && (n - 1 - start) % 2 == 0
    ensures sum == sum0 + SimpsonPairs(v, h, start, (n - 1 - start) / 2)
  {
    sum := sum0;
    var i := start;
    ghost var t := 0;
    while i < n - 1
      invariant i == start + 2 * t && i <= n - 1
      invariant sum == sum0 + SimpsonPairs(v, h, start, t)
    {
      sum := sum + SimpsonPanel(v, h, i);
      i, t := i + 2, t + 1;
    }
  }

  method SimpsonLoop(v: nat -> real, h: real, n: int) returns (sum: real)
    requires n >= 3
    ensures sum == SimpsonSum(v, h, n)
  {
    if n % 2 != 0 {
      assert (n - 1 - 0) / 2 == (n - 1) / 2;
      sum := PanelPairsLoop(v, h, 0, n, 0.0);
    } else {
      assert (n - 1 - 3) / 2 == (n - 4) / 2;
      sum := PanelPairsLoop(v, h, 3, n, ThreeEighths(v, h));
    }
  }

  method SimpsonFunction(f: real -> real, a: real, b: real, n: int) returns (r: Option<real>)
    ensures r == SimpsonRule(f, a, b, n)
  {
    if n < 3 {
      return None;
    }
    var h := Step(a, b, n);
    var sum := SimpsonLoop(Samples(f, Grid(a, h)), h, n);
    r := Some(sum);
  }

  method SimpsonSamples(y: seq<real>, a: real, b: real, n: int) returns (r: Result<Option<real>>)
    ensures r == SimpsonArray(y, a, b, n)
  {
    if n < 3 || b - a == 0.0 {
      return Ok(None);
    }
    if n > |y| {
      return Err(IndexOutOfRange);
    }
    var h := Step(a, b, n);
    var sum := SimpsonLoop(Samples(Unused, Array(y)), h, n);
    r := Ok(Some(sum));
  }

  // ----- Romberg -----

  /** `4^m`, the running `factor` of the Richardson extrapolation. */
  function Pow4(m: nat): (r: real)
    ensures r >= 1.0 && (m >= 1 ==> r >= 4.0)
  {
    if m == 0 then 1.0 else Pow4(m - 1) * 4.0
  }

  /** The step of row `j`: row 1 spans `[a, b]` and each later row halves the step. */
  function RowStep(a: real, b: real, j: nat): real
    requires j >= 1
  {
    if j == 1 then b - a else RowStep(a, b, j - 1) / 2.0
  }

  /** The step of row `j` is `(b - a) / 2^(j-1)`. */
  lemma {:induction false} RowStepValue(a: real, b: real, j: nat)
    requires j >= 1
    ensures RowStep(a, b, j) == (b - a) / (Pow2(j - 1) as real)
  {
    if j > 1 {
      RowStepValue(a, b, j - 1);
      var p := Pow2(j - 2) as real;
      assert Pow2(j - 1) as real == 2.0 * p;
      assert (b - a) / p / 2.0 == (b - a) / (2.0 * p);
    }
  }

  /** `f(a + h) + f(a + 3h) + ...`, `m` terms: the new points of a refined row. */
  function OddSum(f: real -> real, a: real, h: real, m: nat): real {
    if m == 0 then 0.0 else OddSum(f, a, h, m - 1) + Node(f, a, h, (2 * m - 1) as real)
  }

  /** The source's `int n` once row `j` has doubled it: `2^(j-1)` up to row 31;
      the doubling of `2^30` wraps to `int.MinValue` in row 32, and that one
      to 0 from row 33 on. */
  function RowCount(j: nat): int
    requires j >= 2
  {
    if j <= 31 then Pow2(j - 1) else if j == 32 then IntMin else 0
  }

  /** `2 * n` in unchecked 32-bit arithmetic. */
  function Twice32(n: int): (r: int)
    requires IntMin <= n <= IntMax
    ensures IntMin <= r <= IntMax && (r - 2 * n) % Modulus == 0
  {
    if 2 * n > IntMax then 2 * n - Modulus
    else if 2 * n < IntMin then 2 * n + Modulus
    else 2 * n
  }

  /** How many odd `k` satisfy `1 <= k <= n`. */
  function OddCount(n: int): nat {
    if n > 0 then (n + 1) / 2 else 0
  }

  /** The number of new points row `j` samples: `2^(j-2)` up to row 31 and none
      once `n` has wrapped. */
  function NewPointCount(j: nat): nat
    requires j >= 2
  {
    if j <= 31 then Pow2(j - 2) else 0
  }

  lemma {:induction false} Pow2Monotone(i: nat, k: nat)
    requires i <= k
    ensures Pow2(i) <= Pow2(k)
    decreases k
  {
    if i < k {
      Pow2Monotone(i, k - 1);
    }
  }

  lemma {:induction false} Pow2Add(i: nat, k: nat)
    ensures Pow2(i + k) == Pow2(i) * Pow2(k)
    decreases k
  {
    if k > 0 {
      Pow2Add(i, k - 1);
    }
  }

  lemma Pow2Thirty()
    ensures Pow2(29) == 0x2000_0000 && Pow2(30) == 0x4000_0000
  {
    assert Pow2(10) == 1024;
    Pow2Add(10, 10);
    Pow2Add(20, 9);
    Pow2Add(20, 10);
    assert Pow2(9) == 512;
  }

  /** Each pass's `n = 2 * n` stays a C# `int` and takes row `j`'s count to
      row `j + 1`'s, and the odd `k <= n` of row `j` are its new points. */
  lemma RowCountDoubles(j: nat)
    requires j >= 2
    ensures IntMin <= RowCount(j) <= IntMax
    ensures Twice32(RowCount(j)) == RowCount(j + 1)
    ensures OddCount(RowCount(j)) == NewPointCount(j)
  {
    Pow2Thirty();
    if j <= 31 {
      Pow2Monotone(j - 1, 30);
      assert Pow2(j - 1) == 2 * Pow2(j - 2);
      if j <= 30 {
        Pow2Monotone(j - 1, 29);
      }
    }
  }

  /** `R[j, 1]`: the trapezoidal value of row `j`, refined from row `j - 1` by
      halving it and adding its new points. */
  function RowStart(f: real -> real, a: real, b: real, j: nat): real
    requires j >= 1
  {
    if j == 1 then Trapezoid(b - a, f(a), f(b))
    else Refine(RowStart(f, a, b, j - 1), RowStep(a, b, j), OddSum(f, a, RowStep(a, b, j), NewPointCount(j)))
  }

  /** Once `n` has wrapped, a row samples no new point and only halves the row
      before it: `R[j, 1] = R[31, 1] / 2^(j-31)`. */
  lemma {:induction false} RowStartAfterWrap(f: real -> real, a: real, b: real, j: nat)
    requires j >= 31
    ensures RowStart(f, a, b, j) * (Pow2(j - 31) as real) == RowStart(f, a, b, 31)
    decreases j
  {
    if j > 31 {
      RowStartAfterWrap(f, a, b, j - 1);
      assert Pow2(j - 31) == 2 * Pow2(j - 32);
    }
  }

  /** The one-panel trapezoid of width `h`. */
  function Trapezoid(h: real, fa: real, fb: real): real {
    h * (fa + fb) / 2.0
  }

  /** A row's first entry from the previous one: half of it plus the new points
      weighted by the new step. */
  function Refine(coarse: real, h: real, sum: real): real {
    coarse / 2.0 + h * sum
  }

  /** Richardson's step `(p fine - coarse) / (p - 1)`. */
  function Extrapolate(p: real, fine: real, coarse: real): real
    requires p != 1.0
  {
    (p * fine - coarse) / (p - 1.0)
  }

  /** `R[j, k]`, the Richardson extrapolation of the table. */
  function Table(f: real -> real, a: real, b: real, j: nat, k: nat): real
    requires 1 <= k <= j
    decreases j, k
  {
    if k == 1 then RowStart(f, a, b, j)
    else Extrapolate(Pow4(k - 1), Table(f, a, b, j, k - 1), Table(f, a, b, j - 1, k - 1))
  }

  /** The convergence test of row `j`. */
  predicate Settled(f: real -> real, a: real, b: real, j: nat, eps: real)
    requires j >= 2
  {
    Converged(Table(f, a, b, j, j), Table(f, a, b, j, j - 1), eps)
  }

  /** The relative-change test `|fine - coarse| < eps |fine|`. */
  predicate Converged(fine: real, coarse: real, eps: real) {
    Abs(fine - coarse) < eps * Abs(fine)
  }

  /** Rows `j, j + 1, ...` of a table of `iterations` rows: the first settled row
      answers; writing row `iterations` is out of range. */
  function RombergFrom(f: real -> real, a: real, b: real, iterations: int, eps: real, j: nat): Result<real>
    requires j >= 3
    decreases iterations - j
  {
    if j >= iterations then Err(IndexOutOfRange)
    else if Settled(f, a, b, j, eps) then Ok(Table(f, a, b, j, j))
    else RombergFrom(f, a, b, iterations, eps, j + 1)
  }

  /** `romb(f, a, b, iterations, eps)`: a negative size fails the allocation, a
      table of fewer than 3 rows fails the writes of rows 1 and 2, and only a row
      `3 <= j < iterations` that settles gives a value. */
  function RombergRule(f: real -> real, a: real, b: real, iterations: int, eps: real): Result<real> {
    if iterations < 0 then Err(Overflow)
    else if iterations < 3 then Err(IndexOutOfRange)
    else RombergFrom(f, a, b, iterations, eps, 3)
  }

  lemma {:induction false} RombergFromOk(f: real -> real, a: real, b: real, iterations: int, eps: real, j: nat)
    requires j >= 3
    ensures var r := RombergFrom(f, a, b, iterations, eps, j);
      r.Ok? <==> exists i :: j <= i < iterations && Settled(f, a, b, i, eps)
    decreases iterations - j
  {
    if j < iterations && !Settled(f, a, b, j, eps) {
      RombergFromOk(f, a, b, iterations, eps, j + 1);
      if exists i :: j <= i < iterations && Settled(f, a, b, i, eps) {
        var i :| j <= i < iterations && Settled(f, a, b, i, eps);
        assert i != j;
      }
    }
  }

  /** Romberg gives a value exactly when some row `3 <= j < iterations` passes
      the convergence test; in particular it always fails for `iterations <= 3`. */
  lemma RombergNeedsEarlyConvergence(f: real -> real, a: real, b: real, iterations: int, eps: real)
    ensures RombergRule(f, a, b, iterations, eps).Ok?
        <==> exists j :: 3 <= j < iterations && Settled(f, a, b, j, eps)
  {
    if iterations >= 3 {
      RombergFromOk(f, a, b, iterations, eps, 3);
    }
  }

  lemma {:induction false} OddSumConstant(f: real -> real, c: real, a: real, h: real, m: nat)
    requires forall x :: f(x) == c
    ensures OddSum(f, a, h, m) == (m as real) * c
  {
    if m > 0 {
      OddSumConstant(f, c, a, h, m - 1);
    }
  }

  lemma {:induction false} RowStartConstant(f: real -> real, c: real, a: real, b: real, j: nat)
    requires forall x :: f(x) == c
    requires 1 <= j <= 31
    ensures RowStart(f, a, b, j) == c * (b - a)
    decreases j
  {
    if j > 1 {
      RowStartConstant(f, c, a, b, j - 1);
      var p := Pow2(j - 2) as real;
      var h := RowStep(a, b, j);
      OddSumConstant(f, c, a, h, Pow2(j - 2));
      RowStepValue(a, b, j);
      assert Pow2(j - 1) == 2 * Pow2(j - 2);
      RefineConstant(RowStart(f, a, b, j - 1), OddSum(f, a, h, Pow2(j - 2)), c, b - a, p, h);
    } else {
      TrapezoidConstant(c, b - a, f(a), f(b));
    }
  }

  lemma TrapezoidConstant(c: real, d: real, fa: real, fb: real)
    requires fa == c && fb == c
    ensures Trapezoid(d, fa, fb) == c * d
  {
  }

  lemma RefineConstant(coarse: real, sum: real, c: real, d: real, p: real, h: real)
    requires coarse == c * d && sum == p * c
    requires p >= 1.0 && h == d / (p as real * 2.0)
    ensures Refine(coarse, h, sum) == c * d
  {
    assert h * (p * c) == c * d / 2.0;
  }

  /** Extrapolating two equal values gives that value back. */
  lemma ExtrapolationFixesAgreement(p: real, v: real)
    requires p >= 4.0
    ensures Extrapolate(p, v, v) == v
  {
    assert p * v - v == (p - 1.0) * v;
  }

  lemma {:induction false} TableConstant(f: real -> real, c: real, a: real, b: real, j: nat, k: nat)
    requires forall x :: f(x) == c
    requires 1 <= k <= j <= 31
    ensures Table(f, a, b, j, k) == c * (b - a)
    decreases j, k
  {
    if k == 1 {
      RowStartConstant(f, c, a, b, j);
    } else {
      TableConstant(f, c, a, b, j, k - 1);
      TableConstant(f, c, a, b, j - 1, k - 1);
      ExtrapolationFixesAgreement(Pow4(k - 1), c * (b - a));
    }
  }

  /** For a constant `c` with `c (b - a) != 0` and `eps > 0`, every table entry is
      `c (b - a)`, so row 3 settles: Romberg returns `c (b - a)` when
      `iterations >= 4` and fails for every smaller table. */
  lemma RombergOnConstant(f: real -> real, c: real, a: real, b: real, iterations: int, eps: real)
    requires forall x :: f(x) == c
    requires c * (b - a) != 0.0 && eps > 0.0
    ensures iterations >= 4 ==> RombergRule(f, a, b, iterations, eps) == Ok(c * (b - a))
    ensures iterations < 4 ==> RombergRule(f, a, b, iterations, eps).Err?
  {
    TableConstant(f, c, a, b, 3, 3);
    TableConstant(f, c, a, b, 3, 2);
    AgreementConverges(c * (b - a), eps);
    assert Settled(f, a, b, 3, eps);
  }

  /** Two equal nonzero values pass the convergence test. */
  lemma AgreementConverges(v: real, eps: real)
    requires v != 0.0 && eps > 0.0
    ensures Converged(v, v, eps)
  {
    ProductPositive(eps, Abs(v));
  }

  lemma ProductPositive(x: real, y: real)
    requires x > 0.0 && y > 0.0
    ensures x * y > 0.0
  {
  }


  /** Rows 1 and 2, which the source writes before its loop, follow the general rule. */
  lemma RowTwo(f: real -> real, a: real, b: real)
    ensures RowStep(a, b, 1) == b - a && RowStep(a, b, 2) == (b - a) / 2.0
    ensures RowStart(f, a, b, 2) == Refine(RowStart(f, a, b, 1), RowStep(a, b, 2), f(a + RowStep(a, b, 2)))
    ensures Table(f, a, b, 2, 2) == Extrapolate(4.0, Table(f, a, b, 2, 1), Table(f, a, b, 1, 1))
  {
    var h := RowStep(a, b, 2);
    assert OddSum(f, a, h, 1) == OddSum(f, a, h, 0) + Node(f, a, h, 1.0);
    assert Node(f, a, h, 1.0) == f(a + h);
  }

  /** The inner loop of a refinement: `f(a + k h)` for the odd `k <= n`, none
      when `n <= 0`. */
  method NewPoints(f: real -> real, a: real, h: real, n: int) returns (sum: real)
    ensures sum == OddSum(f, a, h, OddCount(n))
  {
    sum := 0.0;
    var k := 1;
    ghost var t := 0;
    while k <= n
      invariant k == 2 * t + 1 && t <= OddCount(n)
      invariant sum == OddSum(f, a, h, t)
      decreases n - k
    {
      assert OddSum(f, a, h, t + 1) == OddSum(f, a, h, t) + Node(f, a, h, k as real);
      sum := sum + f(a + (k as real) * h);
      k, t := k + 2, t + 1;
    }
  }

  /** Row `r` of `R` holds the table entries `R[r, 1..r]`. */
  ghost predicate RowHolds(R: array2<real>, f: real -> real, a: real, b: real, r: nat)
    requires r < R.Length0 && r < R.Length1
    reads R
  {
    forall m :: 1 <= m <= r ==> R[r, m] == Table(f, a, b, r, m)
  }

  /** The extrapolation loop of a row: `R[j, k]` from `R[j, k - 1]` and
      `R[j - 1, k - 1]` for `k = 2..j`, with `factor = 4^(k-1)`. */
  method ExtrapolateRow(R: array2<real>, f: real -> real, a: real, b: real, j: nat)
    requires 2 <= j < R.Length0 && j < R.Length1
    requires RowHolds(R, f, a, b, j - 1) && R[j, 1] == Table(f, a, b, j, 1)
    modifies R
    ensures RowHolds(R, f, a, b, j)
    ensures forall p, m :: 0 <= p < R.Length0 && 0 <= m < R.Length1 && p != j ==> R[p, m] == old(R[p, m])
  {
    var factor := 4.0;
    var k := 2;
    while k <= j
      invariant 2 <= k <= j + 1
      invariant factor == Pow4(k - 1)
      invariant forall m :: 1 <= m < k ==> R[j, m] == Table(f, a, b, j, m)
      invariant forall p, m :: 0 <= p < R.Length0 && 0 <= m < R.Length1 && p != j ==> R[p, m] == old(R[p, m])
    {
      ExtrapolateCell(R, f, a, b, j, k, factor);
      factor := factor * 4.0;
      k := k + 1;
    }
  }

  /** `R[j, k] = (factor R[j, k - 1] - R[j - 1, k - 1]) / (factor - 1)`. */
  method ExtrapolateCell(R: array2<real>, f: real -> real, a: real, b: real, j: nat, k: nat, factor: real)
    requires 2 <= k <= j < R.Length0 && j < R.Length1
    requires factor == Pow4(k - 1)
    requires R[j - 1, k - 1] == Table(f, a, b, j - 1, k - 1) && R[j, k - 1] == Table(f, a, b, j, k - 1)
    modifies R
    ensures R[j, k] == Table(f, a, b, j, k)
    ensures forall p, m :: 0 <= p < R.Length0 && 0 <= m < R.Length1 && (p != j || m != k) ==> R[p, m] == old(R[p, m])
  {
    R[j, k] := Extrapolate(factor, R[j, k - 1], R[j - 1, k - 1]);
  }


  lemma RombergFromStep(f: real -> real, a: real, b: real, iterations: int, eps: real, j: nat)
    requires 3 <= j < iterations
    ensures Settled(f, a, b, j, eps) ==> RombergFrom(f, a, b, iterations, eps, j) == Ok(Table(f, a, b, j, j))
    ensures !Settled(f, a, b, j, eps) ==> RombergFrom(f, a, b, iterations, eps, j) == RombergFrom(f, a, b, iterations, eps, j + 1)
  {
  }

  /** Row `j` of the table from row `j - 1`, the step `h` of row `j` and the
      sum of its new points. */
  method FillRow(R: array2<real>, f: real -> real, a: real, b: real, j: nat, h: real, sum: real)
    requires 3 <= j < R.Length0 && j < R.Length1
    requires RowHolds(R, f, a, b, j - 1)
    requires h == RowStep(a, b, j) && sum == OddSum(f, a, h, NewPointCount(j))
    modifies R
    ensures RowHolds(R, f, a, b, j)
    ensures forall p, m :: 0 <= p < R.Length0 && 0 <= m < R.Length1 && p != j ==> R[p, m] == old(R[p, m])
  {
    R[j, 1] := Refine(R[j - 1, 1], h, sum);
    ExtrapolateRow(R, f, a, b, j);
  }

  /** One pass of the refinement: `n` doubles (wrapping as a C# `int`), `h`
      halves, the new points are summed and row `j` is filled. */
  method NextRow(R: array2<real>, f: real -> real, a: real, b: real, j: nat, n: int, h: real) returns (n': int, h': real)
    requires 3 <= j < R.Length0 && j < R.Length1
    requires RowHolds(R, f, a, b, j - 1)
    requires n == RowCount(j - 1) && h == RowStep(a, b, j - 1)
    modifies R
    ensures RowHolds(R, f, a, b, j)
    ensures n' == RowCount(j) && h' == RowStep(a, b, j)
  {
    RowCountDoubles(j - 1);
    RowCountDoubles(j);
    n' := Twice32(n);
    h' := h / 2.0;
    var sum := NewPoints(f, a, h', n');
    FillRow(R, f, a, b, j, h', sum);
  }

  /** The convergence test on row `j`, which ends the iteration with
      `R[j, j]` or passes it on to row `j + 1`. */
  method RowConverged(R: array2<real>, f: real -> real, a: real, b: real, iterations: int, eps: real, j: nat) returns (done: bool)
    requires 3 <= j < iterations && j < R.Length0 && j < R.Length1
    requires RowHolds(R, f, a, b, j)
    ensures done ==> RombergFrom(f, a, b, iterations, eps, j) == Ok(R[j, j])
    ensures !done ==> RombergFrom(f, a, b, iterations, eps, j) == RombergFrom(f, a, b, iterations, eps, j + 1)
  {
    RombergFromStep(f, a, b, iterations, eps, j);
    ConvergedIsSettled(R, f, a, b, j, eps);
    done := Converged(R[j, j], R[j, j - 1], eps);
  }

  lemma ConvergedIsSettled(R: array2<real>, f: real -> real, a: real, b: real, j: nat, eps: real)
    requires 2 <= j < R.Length0 && j < R.Length1
    requires RowHolds(R, f, a, b, j)
    ensures Converged(R[j, j], R[j, j - 1], eps) == Settled(f, a, b, j, eps)
  {
    assert R[j, j] == Table(f, a, b, j, j) && R[j, j - 1] == Table(f, a, b, j, j - 1);
  }

  /** Rows 1 and 2 of the table, written before the loop; the result is the
      step of row 2. */
  method FirstRows(R: array2<real>, f: real -> real, a: real, b: real) returns (h: real)
    requires 3 <= R.Length0 && 3 <= R.Length1
    modifies R
    ensures RowHolds(R, f, a, b, 2) && h == RowStep(a, b, 2)
  {
    h := b - a;
    RowTwo(f, a, b);
    R[1, 1] := Trapezoid(h, f(a), f(b));
    h := h / 2.0;
    R[2, 1] := Refine(R[1, 1], h, f(a + h));
    R[2, 2] := Extrapolate(4.0, R[2, 1], R[1, 1]);
  }

  method RombergMethod(f: real -> real, a: real, b: real, iterations: int, eps: real) returns (r: Result<real>)
    ensures r == RombergRule(f, a, b, iterations, eps)
  {
    if iterations < 0 {
      return Err(Overflow);
    }
    var R := new real[iterations, iterations];
    if iterations < 3 {
      return Err(IndexOutOfRange);
    }
    var n := 2;
    var h := FirstRows(R, f, a, b);
    var j := 3;
    while j <= iterations
      invariant 3 <= j <= iterations
      invariant n == RowCount(j - 1) && h == RowStep(a, b, j - 1)
      invariant RowHolds(R, f, a, b, j - 1)
      invariant RombergFrom(f, a, b, iterations, eps, j) == RombergRule(f, a, b, iterations, eps)
      decreases iterations - j
    {
      // The new points are summed before the write into row `j` that throws
      // when `j == iterations`; `f` has no effects, so the order is immaterial.
      if j == iterations {
        return Err(IndexOutOfRange);
      }
      n, h := NextRow(R, f, a, b, j, n, h);
      var done := RowConverged(R, f, a, b, iterations, eps, j);
      if done {
        return Ok(R[j, j]);
      }
      j := j + 1;
    }
    // The loop never ends normally: the pass with j == iterations returns above.
    assert false;
  }

  /** The Romberg tolerance `Compute` passes: the default `eps = 1e-8`. */
  const RombergEps: real := 0.00000001

  class Integration {
    /** The rule `Compute` applies (the `MethodType` property). */
    var kind: Method

    constructor (kind: Method)
      ensures this.kind == kind
    {
      this.kind := kind;
    }

    method SetMethodType(m: Method)
      modifies this
      ensures kind == m
    {
      kind := m;
    }

    /** `Compute(function, a, b, n)`: Rectangle is the default. */
    method ComputeFunction(f: real -> real, a: real, b: real, n: int) returns (r: Result<Option<real>>)
      ensures r == IntegrateFunction(kind, f, a, b, n)
    {
      match kind
      case Midpoint => var s := MidpointFunction(f, a, b, n); r := Ok(Some(s));
      case Trapezoidal => var s := TrapezoidalFunction(f, a, b, n); r := Ok(Some(s));
      case Simpson => var s := SimpsonFunction(f, a, b, n); r := Ok(s);
      case Romberg =>
        var s := RombergMethod(f, a, b, n, RombergEps);
        r := if s.Ok? then Ok(Some(s.value)) else Err(s.error);
      case Rectangle => var s := RectangleFunction(f, a, b, n); r := Ok(Some(s));
    }

    /** `Compute(y, a, b, n)`: there is no array Romberg, so Romberg falls back to
      the rectangle rule. */
    method ComputeSamples(y: seq<real>, a: real, b: real, n: Int32) returns (r: Result<Option<real>>)
      ensures r == IntegrateSamples(kind, y, a, b, n)
    {
      match kind
      case Midpoint => var s := PairSamples(y, a, b, n); r := Lift(s);
      case Trapezoidal => var s := PairSamples(y, a, b, n); r := Lift(s);
      case Simpson => r := SimpsonSamples(y, a, b, n);
      case _ => var s := RectangleSamples(y, a, b, n); r := Lift(s);
    }
  }

  /** A finite array result as a possibly non-finite one. */
  function Lift(s: Result<real>): Result<Option<real>> {
    if s.Ok? then Ok(Some(s.value)) else Err(s.error)
  }

  function IntegrateFunction(m: Method, f: real -> real, a: real, b: real, n: int): Result<Option<real>> {
    match m
    case Midpoint => Ok(Some(MidpointRule(f, a, b, n)))
    case Trapezoidal => Ok(Some(TrapezoidalRule(f, a, b, n)))
    case Simpson => Ok(SimpsonRule(f, a, b, n))
    case Romberg => Lift(RombergRule(f, a, b, n, RombergEps))
    case Rectangle => Ok(Some(RectangleRule(f, a, b, n)))
  }

  function IntegrateSamples(m: Method, y: seq<real>, a: real, b: real, n: Int32): (r: Result<Option<real>>)
    ensures m == Romberg ==> r == Lift(RectangleArray(y, a, b, n))
    ensures (m == Midpoint || m == Trapezoidal) && n == IntMin && |y| <= IntMax ==> r == Err(IndexOutOfRange)
  {
    match m
    case Midpoint => PairArrayPanels(y, a, b, n); Lift(PairArray(y, a, b, n))
    case Trapezoidal => PairArrayPanels(y, a, b, n); Lift(PairArray(y, a, b, n))
    case Simpson => SimpsonArray(y, a, b, n)
    case _ => Lift(RectangleArray(y, a, b, n))
  }
}
