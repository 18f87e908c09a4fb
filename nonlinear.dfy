/** Root finding for `f(x) = 0` on a segment `[a, b]` (class `Nonlinear` of
    analysis.cs): bisection, secant, false position and the chord method.
    Every method runs at most `ShortMax` passes; a division by zero in the
    source yields a non-finite double, which stays non-finite through every
    later step, so the model reports it as `None`. */
module NonlinearSolver {
  import opened Common

  datatype Method = Bisection | Chord | Secant | FalsePosition

  /** Two abscissae and the number of passes already made. */
  datatype Bracket = Bracket(lo: real, hi: real, steps: nat)

  /** One iterate of the chord method and the number of passes already made. */
  datatype Estimate = Estimate(x: real, steps: nat)

  /** The point where the line through `(x1, f(x1))` and `(x2, f(x2))` crosses
      zero, as `x2 - (x2 - x1) f(x2) / (f(x2) - f(x1))`. */
  function SecantPoint(f: real -> real, x1: real, x2: real): (r: Option<real>)
    ensures r.None? <==> f(x2) == f(x1)
  {
    if f(x2) - f(x1) == 0.0 then None else Some(Interpolate(x1, x2, f(x1), f(x2)))
  }

  /** `x2 - (x2 - x1) f2 / (f2 - f1)`, the update shared by bisection, secant and
      false position. */
  function Interpolate(x1: real, x2: real, f1: real, f2: real): real
    requires f2 - f1 != 0.0
  {
    x2 - (x2 - x1) * f2 / (f2 - f1)
  }

  /** The secant point is the zero of the line through `(x1, f(x1))` and
      `(x2, f(x2))`: that line, `L(x) = f(x2) + (x - x2) (f(x2) - f(x1)) / (x2 - x1)`,
      vanishes there. */
  lemma SecantPointOnChordLine(f: real -> real, x1: real, x2: real)
    requires x1 != x2 && f(x1) != f(x2)
    ensures f(x2) + (SecantPoint(f, x1, x2).value - x2) * (f(x2) - f(x1)) / (x2 - x1) == 0.0
  {
    var d := f(x2) - f(x1);
    var t := (x2 - x1) * f(x2) / d;
    assert SecantPoint(f, x1, x2).value - x2 == -t;
    assert t * d == (x2 - x1) * f(x2);
    assert -t * d / (x2 - x1) == -f(x2);
  }

  /** On a straight line with a non-zero slope, one secant step lands exactly on
      the root, from any two distinct points. */
  lemma SecantPointOnLine(f: real -> real, p: real, q: real, x1: real, x2: real)
    requires forall x :: f(x) == p * x + q
    requires p != 0.0 && x1 != x2
    ensures SecantPoint(f, x1, x2) == Some(-q / p)
  {
    var d := f(x2) - f(x1);
    var w := x2 - x1;
    assert d == p * w;
    assert w * f(x2) / d == f(x2) / p by {
      assert w * f(x2) == (f(x2) / p) * (p * w);
    }
    assert f(x2) / p == x2 + q / p by {
      assert f(x2) == p * x2 + q;
      assert (p * x2 + q) / p == p * x2 / p + q / p;
      assert p * x2 / p == x2;
    }
    assert SecantPoint(f, x1, x2).value == x2 - w * f(x2) / d;
    assert x2 - (x2 + q / p) == -q / p;
  }

  // ----- bisection -----

  /** One bisection pass: the half of the bracket kept is the one whose midpoint
      has the sign of `fb = f(b)` on its upper side. */
  function Halve(f: real -> real, fb: real, br: Bracket): Bracket {
    var mid := 0.5 * (br.lo + br.hi);
    if fb * f(mid) > 0.0 then Bracket(br.lo, mid, br.steps + 1) else Bracket(mid, br.hi, br.steps + 1)
  }

  /** The bracket bisection stops at, from `br` on. */
  function BisectFrom(f: real -> real, fb: real, eps: real, br: Bracket): Bracket
    requires br.steps <= ShortMax
    decreases ShortMax - br.steps
  {
    if Abs(br.hi - br.lo) > eps && br.steps < ShortMax then BisectFrom(f, fb, eps, Halve(f, fb, br)) else br
  }

  /** The value `bisec` returns: a secant refinement of the final bracket. */
  function BisectResult(f: real -> real, a: real, b: real, eps: real): Option<real> {
    var br := BisectFrom(f, f(b), eps, Bracket(a, b, 0));
    SecantPoint(f, br.lo, br.hi)
  }

  /** What every bisection bracket of `[a, b]` satisfies: its width is the
      initial width halved once per pass, it stays inside `[a, b]`, its upper end
      is `b` or has the sign of `f(b)`, and its lower end is `a` or does not. */
  ghost predicate BisectInvariant(f: real -> real, fb: real, a: real, b: real, br: Bracket) {
    && br.steps <= ShortMax
    && (br.hi - br.lo) * (Pow2(br.steps) as real) == b - a
    && (a <= b ==> a <= br.lo <= br.hi <= b)
    && (br.hi == b || fb * f(br.hi) > 0.0)
    && (br.lo == a || fb * f(br.lo) <= 0.0)
  }

  lemma HalveKeeps(f: real -> real, fb: real, a: real, b: real, br: Bracket)
    requires BisectInvariant(f, fb, a, b, br) && br.steps < ShortMax
    ensures BisectInvariant(f, fb, a, b, Halve(f, fb, br))
  {
    var p := Pow2(br.steps) as real;
    var h := Halve(f, fb, br);
    assert Pow2(br.steps + 1) as real == 2.0 * p;
    assert h.hi - h.lo == (br.hi - br.lo) / 2.0;
    assert (h.hi - h.lo) * (2.0 * p) == (br.hi - br.lo) * p;
  }

  lemma {:induction false} BisectFromKeeps(f: real -> real, fb: real, eps: real, a: real, b: real, br: Bracket)
    requires BisectInvariant(f, fb, a, b, br)
    ensures BisectInvariant(f, fb, a, b, BisectFrom(f, fb, eps, br))
    ensures var e := BisectFrom(f, fb, eps, br); e.steps == ShortMax || Abs(e.hi - e.lo) <= eps
    decreases ShortMax - br.steps
  {
    if Abs(br.hi - br.lo) > eps && br.steps < ShortMax {
      HalveKeeps(f, fb, a, b, br);
      BisectFromKeeps(f, fb, eps, a, b, Halve(f, fb, br));
      assert BisectFrom(f, fb, eps, br) == BisectFrom(f, fb, eps, Halve(f, fb, br));
    }
  }

  /** The final bisection bracket of `[a, b]`: at most `ShortMax` passes, each
      halving the width; it stops once the width is at most `eps` or the cap is
      reached; `f(b)` and `f(hi)` agree in sign unless `hi == b`, and `f(b)` and
      `f(lo)` do not unless `lo == a`. */
  lemma BisectBracket(f: real -> real, a: real, b: real, eps: real)
    ensures var br := BisectFrom(f, f(b), eps, Bracket(a, b, 0));
      && BisectInvariant(f, f(b), a, b, br)
      && (br.steps == ShortMax || Abs(br.hi - br.lo) <= eps)
  {
    BisectFromKeeps(f, f(b), eps, a, b, Bracket(a, b, 0));
  }

  method Bisect(f: real -> real, a: real, b: real, eps: real) returns (r: Option<real>)
    ensures r == BisectResult(f, a, b, eps)
  {
    var x1, x2 := a, b;
    var fb := f(b);
    var n := 0;
    while Abs(x2 - x1) > eps && n < ShortMax
      invariant n <= ShortMax
      invariant BisectFrom(f, fb, eps, Bracket(x1, x2, n)) == BisectFrom(f, fb, eps, Bracket(a, b, 0))
      decreases ShortMax - n
    {
      var midpt := 0.5 * (x1 + x2);
      if fb * f(midpt) > 0.0 {
        x2 := midpt;
      } else {
        x1 := midpt;
      }
      n := n + 1;
    }
    r := SecantPoint(f, x1, x2);
  }

  // ----- secant -----

  /** The secant iteration from the pair `(x1, x2)`: replace the pair by
      `(x2, SecantPoint(x1, x2))` while `|f(x2)| > eps`. */
  function SecantFrom(f: real -> real, eps: real, br: Bracket): Option<Bracket>
    requires br.steps <= ShortMax
    decreases ShortMax - br.steps
  {
    if Abs(f(br.hi)) > eps && br.steps < ShortMax then
      match SecantPoint(f, br.lo, br.hi)
      case None => None
      case Some(p) => SecantFrom(f, eps, Bracket(br.hi, p, br.steps + 1))
    else Some(br)
  }

  function SecantResult(f: real -> real, a: real, b: real, eps: real): Option<real> {
    match SecantFrom(f, eps, Bracket(a, b, 0))
    case None => None
    case Some(br) => Some(br.hi)
  }

  lemma {:induction false} SecantFromStops(f: real -> real, eps: real, br: Bracket)
    requires br.steps <= ShortMax
    ensures var r := SecantFrom(f, eps, br);
      r.Some? ==> r.value.steps <= ShortMax && (r.value.steps == ShortMax || Abs(f(r.value.hi)) <= eps)
    decreases ShortMax - br.steps
  {
    if Abs(f(br.hi)) > eps && br.steps < ShortMax {
      match SecantPoint(f, br.lo, br.hi)
      case None =>
      case Some(p) => SecantFromStops(f, eps, Bracket(br.hi, p, br.steps + 1));
    }
  }

  /** A finite secant answer is a point where `|f| <= eps`, unless all
      `ShortMax` passes were spent; a `b` with `|f(b)| <= eps` is returned at once. */
  lemma SecantStops(f: real -> real, a: real, b: real, eps: real)
    ensures var r := SecantFrom(f, eps, Bracket(a, b, 0));
      r.Some? ==> r.value.steps == ShortMax || Abs(f(r.value.hi)) <= eps
    ensures Abs(f(b)) <= eps ==> SecantResult(f, a, b, eps) == Some(b)
  {
    SecantFromStops(f, eps, Bracket(a, b, 0));
  }

  /** On a line with a non-zero slope the secant method returns the root after
      one pass, when `a != b` and `f(b)` is not already within `eps` of zero. */
  lemma SecantOnLine(f: real -> real, p: real, q: real, a: real, b: real, eps: real)
    requires forall x :: f(x) == p * x + q
    requires p != 0.0 && a != b && eps >= 0.0 && Abs(f(b)) > eps
    ensures SecantResult(f, a, b, eps) == Some(-q / p)
  {
    SecantPointOnLine(f, p, q, a, b);
    var root := -q / p;
    assert f(root) == 0.0 by {
      assert p * root == -q;
    }
    assert SecantFrom(f, eps, Bracket(b, root, 1)) == Some(Bracket(b, root, 1));
    assert SecantFrom(f, eps, Bracket(a, b, 0)) == SecantFrom(f, eps, Bracket(b, root, 1));
  }

  lemma SecantFromStep(f: real -> real, eps: real, x1: real, x2: real, n: nat)
    requires n < ShortMax && Abs(f(x2)) > eps && f(x2) != f(x1)
    ensures SecantFrom(f, eps, Bracket(x1, x2, n))
         == SecantFrom(f, eps, Bracket(x2, Interpolate(x1, x2, f(x1), f(x2)), n + 1))
  {
  }

  method SecantMethod(f: real -> real, a: real, b: real, eps: real) returns (r: Option<real>)
    ensures r == SecantResult(f, a, b, eps)
  {
    var x1, x2 := a, b;
    var fb := f(b);
    var n := 0;
    while Abs(f(x2)) > eps && n < ShortMax
      invariant n <= ShortMax && fb == f(x2)
      invariant SecantFrom(f, eps, Bracket(x1, x2, n)) == SecantFrom(f, eps, Bracket(a, b, 0))
      decreases ShortMax - n
    {
      if fb - f(x1) == 0.0 {
        return None;
      }
      var mpoint := Interpolate(x1, x2, f(x1), fb);
      SecantFromStep(f, eps, x1, x2, n);
      x1 := x2;
      x2 := mpoint;
      fb := f(x2);
      n := n + 1;
    }
    r := Some(x2);
  }

  // ----- false position -----

  /** The false-position iteration: the secant point of the bracket replaces the
      end on its side of `fb = f(b)`; the pass that lands within `eps` of a root
      ends the loop without being counted. */
  function FalsePositionFrom(f: real -> real, fb: real, eps: real, br: Bracket): Option<Bracket>
    requires br.steps <= ShortMax
    decreases ShortMax - br.steps
  {
    if Abs(br.hi - br.lo) > eps && br.steps < ShortMax then
      match SecantPoint(f, br.lo, br.hi)
      case None => None
      case Some(p) =>
        var next := Narrow(f, fb, br, p);
        if Abs(f(p)) < eps then Some(next) else FalsePositionFrom(f, fb, eps, next.(steps := br.steps + 1))
    else Some(br)
  }

  /** The new point replaces the end on its side of `fb`. */
  function Narrow(f: real -> real, fb: real, br: Bracket, p: real): (next: Bracket)
    ensures next.steps == br.steps
    ensures fb * f(p) > 0.0 ==> next.lo == br.lo && next.hi == p
    ensures fb * f(p) <= 0.0 ==> next.lo == p && next.hi == br.hi
  {
    if fb * f(p) > 0.0 then br.(hi := p) else br.(lo := p)
  }

  function FalsePositionResult(f: real -> real, a: real, b: real, eps: real): Option<real> {
    match FalsePositionFrom(f, f(b), eps, Bracket(a, b, 0))
    case None => None
    case Some(br) => SecantPoint(f, br.lo, br.hi)
  }

  /** The side conditions false position keeps on its bracket. */
  ghost predicate SidesKept(f: real -> real, fb: real, a: real, b: real, br: Bracket) {
    && br.steps <= ShortMax
    && (br.hi == b || fb * f(br.hi) > 0.0)
    && (br.lo == a || fb * f(br.lo) <= 0.0)
  }

  lemma {:induction false} FalsePositionFromKeeps(f: real -> real, fb: real, eps: real, a: real, b: real, br: Bracket)
    requires SidesKept(f, fb, a, b, br)
    ensures var r := FalsePositionFrom(f, fb, eps, br);
      r.Some? ==>
        && SidesKept(f, fb, a, b, r.value)
        && (|| Abs(r.value.hi - r.value.lo) <= eps || r.value.steps == ShortMax
            || Abs(f(r.value.hi)) < eps || Abs(f(r.value.lo)) < eps)
    decreases ShortMax - br.steps
  {
    if Abs(br.hi - br.lo) > eps && br.steps < ShortMax {
      match SecantPoint(f, br.lo, br.hi)
      case None =>
      case Some(p) =>
        NarrowKeeps(f, fb, eps, a, b, br, p);
        if Abs(f(p)) >= eps {
          FalsePositionFromKeeps(f, fb, eps, a, b, Narrow(f, fb, br, p).(steps := br.steps + 1));
        }
    }
  }

  lemma NarrowKeeps(f: real -> real, fb: real, eps: real, a: real, b: real, br: Bracket, p: real)
    requires SidesKept(f, fb, a, b, br)
    ensures SidesKept(f, fb, a, b, Narrow(f, fb, br, p))
    ensures br.steps < ShortMax ==> SidesKept(f, fb, a, b, Narrow(f, fb, br, p).(steps := br.steps + 1))
    ensures Abs(f(p)) < eps ==> Abs(f(Narrow(f, fb, br, p).hi)) < eps || Abs(f(Narrow(f, fb, br, p).lo)) < eps
  {
  }

  /** The final false-position bracket of `[a, b]`: `f(b)` and `f(hi)` agree in
      sign unless `hi == b`, `f(b)` and `f(lo)` do not unless `lo == a`, and the
      loop ended on width, on the cap, or on an end with `|f| < eps`. */
  lemma FalsePositionBracket(f: real -> real, a: real, b: real, eps: real)
    ensures var r := FalsePositionFrom(f, f(b), eps, Bracket(a, b, 0));
      r.Some? ==>
        && SidesKept(f, f(b), a, b, r.value)
        && (|| Abs(r.value.hi - r.value.lo) <= eps || r.value.steps == ShortMax
            || Abs(f(r.value.hi)) < eps || Abs(f(r.value.lo)) < eps)
  {
    FalsePositionFromKeeps(f, f(b), eps, a, b, Bracket(a, b, 0));
  }

  method FalsePositionMethod(f: real -> real, a: real, b: real, eps: real) returns (r: Option<real>)
    ensures r == FalsePositionResult(f, a, b, eps)
  {
    var x1, x2 := a, b;
    var fb := f(b);
    var n := 0;
    while Abs(x2 - x1) > eps && n < ShortMax
      invariant n <= ShortMax
      invariant FalsePositionFrom(f, fb, eps, Bracket(x1, x2, n)) == FalsePositionFrom(f, fb, eps, Bracket(a, b, 0))
      decreases ShortMax - n
    {
      if f(x2) - f(x1) == 0.0 {
        return None;
      }
      var xpoint := Interpolate(x1, x2, f(x1), f(x2));
      if fb * f(xpoint) > 0.0 {
        x2 := xpoint;
      } else {
        x1 := xpoint;
      }
      if Abs(f(xpoint)) < eps {
        break;
      }
      n := n + 1;
    }
    r := SecantPoint(f, x1, x2);
  }

  // ----- chord -----

  /** The stopping test `|f(x) / b| > eps`; with `b == 0` the IEEE quotient is
      infinite when `f(x) != 0` and NaN (never greater) when `f(x) == 0`. */
  predicate ChordContinues(fx: real, b: real, eps: real) {
    if b == 0.0 then fx != 0.0 else Abs(fx / b) > eps
  }

  /** The chord step through the fixed end `a`: `x - f(x) (a - x) / (f(a) - f(x))`. */
  function ChordPoint(f: real -> real, a: real, x: real): Option<real> {
    if f(a) - f(x) == 0.0 then None else Some(x - (f(x) * (a - x)) / (f(a) - f(x)))
  }

  /** The chord step is the secant step through the fixed point `(a, f(a))`. */
  lemma ChordIsSecantThroughA(f: real -> real, a: real, x: real)
    ensures ChordPoint(f, a, x) == SecantPoint(f, a, x)
  {
    if f(a) != f(x) {
      assert (f(x) * (a - x)) / (f(a) - f(x)) == (x - a) * f(x) / (f(x) - f(a)) by {
        assert f(x) * (a - x) == -((x - a) * f(x));
        assert f(a) - f(x) == -(f(x) - f(a));
      }
    }
  }

  function ChordFrom(f: real -> real, a: real, b: real, eps: real, e: Estimate): Option<Estimate>
    requires e.steps <= ShortMax
    decreases ShortMax - e.steps
  {
    if ChordContinues(f(e.x), b, eps) && e.steps < ShortMax then
      match ChordPoint(f, a, e.x)
      case None => None
      case Some(p) => ChordFrom(f, a, b, eps, Estimate(p, e.steps + 1))
    else Some(e)
  }

  /** The chord method starts from `(b - a) / 2`, which is the midpoint of
      `[a, b]` only when `a == 0`. */
  function ChordResult(f: real -> real, a: real, b: real, eps: real): Option<real> {
    match ChordFrom(f, a, b, eps, Estimate((b - a) / 2.0, 0))
    case None => None
    case Some(e) => Some(e.x)
  }

  lemma {:induction false} ChordFromStops(f: real -> real, a: real, b: real, eps: real, e: Estimate)
    requires e.steps <= ShortMax
    ensures var r := ChordFrom(f, a, b, eps, e);
      r.Some? ==> r.value.steps <= ShortMax && (r.value.steps == ShortMax || !ChordContinues(f(r.value.x), b, eps))
    decreases ShortMax - e.steps
  {
    if ChordContinues(f(e.x), b, eps) && e.steps < ShortMax {
      match ChordPoint(f, a, e.x)
      case None =>
      case Some(p) => ChordFromStops(f, a, b, eps, Estimate(p, e.steps + 1));
    }
  }

  /** A finite chord answer passes the residual test (`|f(x) / b| <= eps`, or
      `f(x) == 0` when `b == 0`) unless all `ShortMax` passes were spent. */
  lemma ChordStops(f: real -> real, a: real, b: real, eps: real)
    ensures var r := ChordFrom(f, a, b, eps, Estimate((b - a) / 2.0, 0));
      r.Some? ==> r.value.steps == ShortMax || !ChordContinues(f(r.value.x), b, eps)
  {
    ChordFromStops(f, a, b, eps, Estimate((b - a) / 2.0, 0));
  }

  method ChordMethod(f: real -> real, a: real, b: real, eps: real) returns (r: Option<real>)
    ensures r == ChordResult(f, a, b, eps)
  {
    var n := 0;
    var x0 := (b - a) / 2.0;
    while ChordContinues(f(x0), b, eps) && n < ShortMax
      invariant n <= ShortMax
      invariant ChordFrom(f, a, b, eps, Estimate(x0, n)) == ChordFrom(f, a, b, eps, Estimate((b - a) / 2.0, 0))
      decreases ShortMax - n
    {
      var x := x0;
      if f(a) - f(x) == 0.0 {
        return None;
      }
      x0 := x - (f(x) * (a - x)) / (f(a) - f(x));
      n := n + 1;
    }
    r := Some(x0);
  }

  // ----- dispatch -----

  /** The answer `Compute` gives for a real function: bisection is the default. */
  function Solve(m: Method, f: real -> real, a: real, b: real, eps: real): Option<real> {
    match m
    case Chord => ChordResult(f, a, b, eps)
    case FalsePosition => FalsePositionResult(f, a, b, eps)
    case Secant => SecantResult(f, a, b, eps)
    case Bisection => BisectResult(f, a, b, eps)
  }

  /** The algorithm the complex overload of `Compute` runs: it has no bisection,
      and a `Bisection` setting falls through to the secant method. */
  function ComplexAlgorithm(m: Method): (r: Method)
    ensures r != Bisection
    ensures m != Bisection ==> r == m
  {
    match m
    case Chord => Chord
    case FalsePosition => FalsePosition
    case _ => Secant
  }

  /** The side test of complex false position multiplies only the real parts of
      `f(b)` and `f(x)`. */
  predicate ComplexSameSide(fb: Complex, fx: Complex) {
    fb.re * fx.re > 0.0
  }

  /** The complex side test can keep a point on the side of `b` although the
      product `f(b) f(x)` has a negative real part. */
  lemma ComplexSideIgnoresImaginaryParts()
    ensures ComplexSameSide(Complex(1.0, 2.0), Complex(1.0, 2.0))
    ensures CMul(Complex(1.0, 2.0), Complex(1.0, 2.0)).re < 0.0
  {
  }

  class Nonlinear {
    /** The algorithm `Compute` runs (the `MethodType` property). */
    var kind: Method
    var eps: real

    /** `toUnit` is the map the `Eps` setter applies to its value. */
    constructor (eps: real, kind: Method, toUnit: real -> real)
      ensures this.kind == kind && this.eps == toUnit(eps)
    {
      this.kind := kind;
      this.eps := toUnit(eps);
    }

    method SetMethodType(m: Method)
      modifies this`kind
      ensures kind == m
    {
      kind := m;
    }

    method SetEps(value: real, toUnit: real -> real)
      modifies this`eps
      ensures eps == toUnit(value)
    {
      eps := toUnit(value);
    }

    method Compute(f: real -> real, a: real, b: real) returns (r: Option<real>)
      ensures r == Solve(kind, f, a, b, eps)
    {
      match kind
      case Chord => r := ChordMethod(f, a, b, eps);
      case FalsePosition => r := FalsePositionMethod(f, a, b, eps);
      case Secant => r := SecantMethod(f, a, b, eps);
      case Bisection => r := Bisect(f, a, b, eps);
    }
  }
}
