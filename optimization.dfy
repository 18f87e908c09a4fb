/** Golden-section search for an extremum of `f` on `[a, b]` (class
    `Optimization` of analysis.cs). */
module GoldenSection {
  import opened Common

  /** The values `Maths.Phi` may take: its code is not part of this model, and
      the proofs need only `1 < phi < 2`, which the golden ratio satisfies. */
  type Ratio = r: real | 1.0 < r < 2.0 witness 1.5

  /** A search interval and the number of passes made. */
  datatype Bracket = Bracket(lo: real, hi: real, steps: nat)

  /** Whether a pass discards the lower part `[lo, x1)`: for a minimum when
      `f(x1) > f(x2)`, for a maximum when `f(x1) < f(x2)`. */
  predicate MovesLower(maximize: bool, f1: real, f2: real) {
    if maximize then f1 < f2 else f1 > f2
  }

  /** One golden-section pass: probe `x1 = hi - w/phi` and `x2 = lo + w/phi`
      with `w = hi - lo`, then keep `[x1, hi]` or `[lo, x2]`. */
  function Pass(f: real -> real, phi: Ratio, maximize: bool, br: Bracket): Bracket {
    var x1 := br.hi - (br.hi - br.lo) / phi;
    var x2 := br.lo + (br.hi - br.lo) / phi;
    if MovesLower(maximize, f(x1), f(x2)) then Bracket(x1, br.hi, br.steps + 1)
    else Bracket(br.lo, x2, br.steps + 1)
  }

  /** Passes run until the width drops below `eps` or `ShortMax` passes are made. */
  function SearchFrom(f: real -> real, phi: Ratio, maximize: bool, eps: real, br: Bracket): Bracket
    requires br.steps <= ShortMax
    decreases ShortMax - br.steps
  {
    if br.steps == ShortMax then br
    else
      var next := Pass(f, phi, maximize, br);
      if Abs(next.hi - next.lo) < eps then next else SearchFrom(f, phi, maximize, eps, next)
  }

  /** What `Compute` returns: the midpoint of the final interval. */
  function Extremum(f: real -> real, phi: Ratio, a: real, b: real, eps: real, maximize: bool): real {
    var br := SearchFrom(f, phi, maximize, eps, Bracket(a, b, 0));
    (br.lo + br.hi) / 2.0
  }

  /** Searching for a maximum of `f` is searching for a minimum of `-f`. */
  lemma {:induction false} MaximumIsMinimumOfNegation(f: real -> real, g: real -> real, phi: Ratio, eps: real, br: Bracket)
    requires forall x :: g(x) == -f(x)
    requires br.steps <= ShortMax
    ensures SearchFrom(f, phi, true, eps, br) == SearchFrom(g, phi, false, eps, br)
    decreases ShortMax - br.steps
  {
    if br.steps < ShortMax {
      assert Pass(f, phi, true, br) == Pass(g, phi, false, br);
      MaximumIsMinimumOfNegation(f, g, phi, eps, Pass(f, phi, true, br));
    }
  }

  /** The invariant of the search: each pass divides the width by `phi`, and the
      interval stays inside `[a, b]`. */
  ghost predicate Shrinking(phi: Ratio, a: real, b: real, br: Bracket) {
    && br.steps <= ShortMax
    && (br.hi - br.lo) * Pow(phi, br.steps) == b - a
    && (a <= b ==> a <= br.lo <= br.hi <= b)
  }

  lemma PassShrinks(f: real -> real, phi: Ratio, maximize: bool, a: real, b: real, br: Bracket)
    requires Shrinking(phi, a, b, br) && br.steps < ShortMax
    ensures Shrinking(phi, a, b, Pass(f, phi, maximize, br))
  {
    var w := br.hi - br.lo;
    var next := Pass(f, phi, maximize, br);
    assert next.hi - next.lo == w / phi;
    assert Pow(phi, br.steps + 1) == Pow(phi, br.steps) * phi;
    assert (w / phi) * (Pow(phi, br.steps) * phi) == w * Pow(phi, br.steps);
    if a <= b {
      assert 0.0 <= w / phi <= w;
    }
  }

  lemma {:induction false} SearchFromShrinks(f: real -> real, phi: Ratio, maximize: bool, eps: real, a: real, b: real, br: Bracket)
    requires Shrinking(phi, a, b, br)
    ensures var e := SearchFrom(f, phi, maximize, eps, br);
      Shrinking(phi, a, b, e) && (e.steps == ShortMax || Abs(e.hi - e.lo) < eps)
    decreases ShortMax - br.steps
  {
    if br.steps < ShortMax {
      PassShrinks(f, phi, maximize, a, b, br);
      var next := Pass(f, phi, maximize, br);
      if Abs(next.hi - next.lo) >= eps {
        SearchFromShrinks(f, phi, maximize, eps, a, b, next);
      }
    }
  }

  /** The final interval of a search on `[a, b]` has width `(b - a) / phi^k`
      after `k <= ShortMax` passes and lies inside `[a, b]`; the search stopped
      because the width fell below `eps` or the cap was reached; the answer is
      a point of `[a, b]`. */
  lemma SearchShrinks(f: real -> real, phi: Ratio, a: real, b: real, eps: real, maximize: bool)
    ensures var e := SearchFrom(f, phi, maximize, eps, Bracket(a, b, 0));
      Shrinking(phi, a, b, e) && (e.steps == ShortMax || Abs(e.hi - e.lo) < eps)
    ensures a <= b ==> a <= Extremum(f, phi, a, b, eps, maximize) <= b
  {
    SearchFromShrinks(f, phi, maximize, eps, a, b, Bracket(a, b, 0));
  }

  /** `f` strictly decreases up to `m` and does not decrease after it, so `m` is
      its minimiser. */
  ghost predicate UnimodalAt(f: real -> real, m: real) {
    && (forall x, y :: x < y <= m ==> f(x) > f(y))
    && (forall x, y :: m <= x <= y ==> f(x) <= f(y))
  }

  lemma PassKeepsMinimiser(f: real -> real, phi: Ratio, m: real, br: Bracket)
    requires UnimodalAt(f, m) && br.lo <= m <= br.hi
    ensures var next := Pass(f, phi, false, br); next.lo <= m <= next.hi
  {
    var w := br.hi - br.lo;
    var x1 := br.hi - w / phi;
    var x2 := br.lo + w / phi;
    OverRatio(w, phi);
    assert x1 <= x2 && (x1 == x2 ==> br.lo == br.hi);
    assert m < x1 ==> f(x1) <= f(x2);
    assert x2 < m ==> f(x1) > f(x2);
  }

  /** Dividing a width by `phi` leaves more than half of it. */
  lemma OverRatio(w: real, phi: Ratio)
    requires w >= 0.0
    ensures w / phi >= w / 2.0 && (w > 0.0 ==> w / phi > w / 2.0)
  {
    var q := w / phi;
    assert q * phi == w;
    if w > 0.0 {
      assert q > 0.0;
      assert q * 2.0 > q * phi;
    }
  }

  lemma {:induction false} SearchFromKeepsMinimiser(f: real -> real, phi: Ratio, eps: real, m: real, br: Bracket)
    requires UnimodalAt(f, m) && br.lo <= m <= br.hi && br.steps <= ShortMax
    ensures var e := SearchFrom(f, phi, false, eps, br); e.lo <= m <= e.hi
    decreases ShortMax - br.steps
  {
    if br.steps < ShortMax {
      PassKeepsMinimiser(f, phi, m, br);
      SearchFromKeepsMinimiser(f, phi, eps, m, Pass(f, phi, false, br));
    }
  }

  /** For a unimodal `f` whose minimiser `m` lies in `[a, b]`, every interval of
      the minimum search still contains `m`, so the answer is within half the
      final width of `m`. */
  lemma MinimumSearchKeepsMinimiser(f: real -> real, phi: Ratio, a: real, b: real, eps: real, m: real)
    requires UnimodalAt(f, m) && a <= m <= b
    ensures var e := SearchFrom(f, phi, false, eps, Bracket(a, b, 0));
      e.lo <= m <= e.hi && Abs(Extremum(f, phi, a, b, eps, false) - m) <= (e.hi - e.lo) / 2.0
  {
    SearchFromKeepsMinimiser(f, phi, eps, m, Bracket(a, b, 0));
  }

  /** `goldenMin` (`maximize == false`) and `goldenMax` (`maximize == true`). */
  method Search(f: real -> real, phi: Ratio, a: real, b: real, eps: real, maximize: bool) returns (r: real)
    ensures r == Extremum(f, phi, a, b, eps, maximize)
  {
    var lo, hi := a, b;
    var i := 0;
    while i < ShortMax
      invariant i <= ShortMax
      invariant SearchFrom(f, phi, maximize, eps, Bracket(lo, hi, i)) == SearchFrom(f, phi, maximize, eps, Bracket(a, b, 0))
      decreases ShortMax - i
    {
      ghost var before := Bracket(lo, hi, i);
      var x1 := hi - (hi - lo) / phi;
      var x2 := lo + (hi - lo) / phi;
      if MovesLower(maximize, f(x1), f(x2)) {
        lo := x1;
      } else {
        hi := x2;
      }
      i := i + 1;
      assert Bracket(lo, hi, i) == Pass(f, phi, maximize, before);
      if Abs(hi - lo) < eps {
        break;
      }
    }
    r := (lo + hi) / 2.0;
  }

  class Optimization {
    var eps: real

    /** `toUnit` is the map the `Eps` setter applies to its value. */
    constructor (eps: real, toUnit: real -> real)
      ensures this.eps == toUnit(eps)
    {
      this.eps := toUnit(eps);
    }

    method SetEps(value: real, toUnit: real -> real)
      modifies this
      ensures eps == toUnit(value)
    {
      eps := toUnit(value);
    }

    method Compute(f: real -> real, phi: Ratio, a: real, b: real, maximize: bool) returns (r: real)
      ensures r == Extremum(f, phi, a, b, eps, maximize)
    {
      r := Search(f, phi, a, b, eps, maximize);
    }
  }
}
