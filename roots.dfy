/** Class `Roots` of analysis.cs: the roots of a polynomial through the
    eigenvalues of its companion matrix, and the polynomial of given roots
    by repeated multiplication with `(x - r)`. Polynomials are written
    highest degree first, `p[0] x^n + ... + p[n]`. The companion matrix and
    its eigenvalue decomposition (`Matrice.Companion`, `EVD`) are one
    parameter `eigen`. */
module PolynomialRoots {
  import opened Common

  // ---------------------------------------------------------------------
  // Real polynomials, highest degree first

  /** Horner's value of `p` at `x`, highest degree first. */
  function Eval(p: seq<real>, x: real): real {
    if |p| == 0 then 0.0 else Eval(p[..|p| - 1], x) * x + p[|p| - 1]
  }

  /** The number of leading zero coefficients. */
  function LeadingZeros(p: seq<real>): (k: nat)
    ensures k <= |p|
    ensures forall i :: 0 <= i < k ==> p[i] == 0.0
    ensures k < |p| ==> p[k] != 0.0
    decreases |p|
  {
    if |p| == 0 || p[0] != 0.0 then 0 else 1 + LeadingZeros(p[1..])
  }

  /** What `Compute(polynomial)` hands to the companion matrix: nothing when
      every coefficient is 0, otherwise the coefficients after the leading
      one, divided by it. */
  function Normalised(p: seq<real>): (r: Option<seq<real>>)
    ensures r.None? <==> LeadingZeros(p) == |p|
    ensures r.Some? ==> var k := LeadingZeros(p);
      |r.value| == |p| - k - 1 && forall i :: 0 <= i < |r.value| ==> p[k] * r.value[i] == p[k + 1 + i]
  {
    var k := LeadingZeros(p);
    if k == |p| then None
    else
      var c := seq(|p| - k - 1, i requires 0 <= i < |p| - k - 1 => p[k + 1 + i] / p[k]);
      UnscaleAll(p, k, c);
      Some(c)
  }

  /** Each coefficient after the leading one, divided by it, times it. */
  lemma UnscaleAll(p: seq<real>, k: nat, c: seq<real>)
    requires k < |p| && p[k] != 0.0 && |c| == |p| - k - 1
    requires forall i :: 0 <= i < |c| ==> c[i] == p[k + 1 + i] / p[k]
    ensures forall i :: 0 <= i < |c| ==> p[k] * c[i] == p[k + 1 + i]
  {
    forall i | 0 <= i < |c|
      ensures p[k] * c[i] == p[k + 1 + i]
    {
      Unscale(c[i], p[k + 1 + i], p[k]);
    }
  }

  /** The skipping loop and the scaling loop of `Compute(polynomial)`. */
  method CompanionInput(p: seq<real>) returns (c: Option<seq<real>>)
    ensures c == Normalised(p)
  {
    var length := |p|;
    var index := -1;
    var i := 0;
    while i < length
      invariant 0 <= i <= length && index == -1
      invariant forall q :: 0 <= q < i ==> p[q] == 0.0
    {
      if p[i] != 0.0 {
        index := i;
        break;
      }
      i := i + 1;
    }
    if index == -1 {
      return None;
    }
    assert index == LeadingZeros(p);
    var m := length - index - 1;
    var scale := p[index];
    var a := new real[m];
    for t := 0 to m
      invariant forall q :: 0 <= q < t ==> a[q] == p[index + 1 + q] / scale
    {
      a[t] := p[index + 1 + t] / scale;
    }
    assert a[..] == Normalised(p).value;
    c := Some(a[..]);
  }

  /** `Compute(polynomial)`: no roots for the zero polynomial, otherwise the
      eigenvalues of the companion matrix of the normalised coefficients. */
  method RootsOf(p: seq<real>, eigen: seq<real> -> seq<Complex>) returns (r: seq<Complex>)
    ensures (forall i :: 0 <= i < |p| ==> p[i] == 0.0) ==> r == []
    ensures Normalised(p).Some? ==> r == eigen(Normalised(p).value)
  {
    var c := CompanionInput(p);
    if c.None? {
      return [];
    }
    r := eigen(c.value);
  }

  /** Leading zeros do not change a polynomial's value. */
  lemma {:induction false} EvalSkipsZeros(z: seq<real>, q: seq<real>, x: real)
    requires forall i :: 0 <= i < |z| ==> z[i] == 0.0
    ensures Eval(z + q, x) == Eval(q, x)
    decreases |q|
  {
    if |q| == 0 {
      assert z + q == z;
      AllZeros(z, x);
    } else {
      assert (z + q)[..|z + q| - 1] == z + q[..|q| - 1];
      EvalSkipsZeros(z, q[..|q| - 1], x);
    }
  }

  lemma {:induction false} AllZeros(z: seq<real>, x: real)
    requires forall i :: 0 <= i < |z| ==> z[i] == 0.0
    ensures Eval(z, x) == 0.0
    decreases |z|
  {
    if |z| > 0 {
      AllZeros(z[..|z| - 1], x);
    }
  }

  /** Scaling every coefficient by `s` scales the value by `s`. */
  lemma {:induction false} EvalScales(s: real, q: seq<real>, u: seq<real>, x: real)
    requires |q| == |u|
    requires forall i :: 0 <= i < |q| ==> q[i] == s * u[i]
    ensures Eval(q, x) == s * Eval(u, x)
    decreases |q|
  {
    if |q| > 0 {
      var n := |q| - 1;
      EvalScales(s, q[..n], u[..n], x);
      ScaleStep(s, Eval(u[..n], x), x, u[n]);
    }
  }

  lemma ScaleStep(s: real, e: real, x: real, c: real)
    ensures (s * e) * x + s * c == s * (e * x + c)
  {
  }

  lemma Unscale(q: real, a: real, s: real)
    requires s != 0.0 && q == a / s
    ensures s * q == a
  {
  }

  /** From the leading coefficient on, `p` is that coefficient times the
      monic polynomial `[1] + c`. */
  lemma {:induction false} TailIsScaled(p: seq<real>, c: seq<real>, k: nat, x: real)
    requires k < |p| && |c| == |p| - k - 1
    requires forall i :: 0 <= i < |c| ==> p[k] * c[i] == p[k + 1 + i]
    ensures Eval(p[k..], x) == p[k] * Eval([1.0] + c, x)
  {
    var t := p[k..];
    var u := [1.0] + c;
    TailEntries(p, c, k, t, u);
    EvalScales(p[k], t, u, x);
  }

  lemma TailEntries(p: seq<real>, c: seq<real>, k: nat, t: seq<real>, u: seq<real>)
    requires k < |p| && |c| == |p| - k - 1
    requires forall i :: 0 <= i < |c| ==> p[k] * c[i] == p[k + 1 + i]
    requires t == p[k..] && u == [1.0] + c
    ensures |t| == |u| && forall i :: 0 <= i < |t| ==> t[i] == p[k] * u[i]
  {
    forall i | 0 <= i < |t|
      ensures t[i] == p[k] * u[i]
    {
      if i == 0 {
        assert u[0] == 1.0;
      } else {
        assert u[i] == c[i - 1];
        assert p[k] * c[i - 1] == p[k + 1 + (i - 1)];
      }
    }
  }

  /** A polynomial with `k` leading zeros and the leading coefficient
      `p[k]` is `p[k]` times the monic polynomial `[1] + c`. */
  lemma {:induction false} FactorLeading(p: seq<real>, c: seq<real>, k: nat, x: real)
    requires k < |p| && |c| == |p| - k - 1
    requires forall i :: 0 <= i < k ==> p[i] == 0.0
    requires forall i :: 0 <= i < |c| ==> p[k] * c[i] == p[k + 1 + i]
    ensures Eval(p, x) == p[k] * Eval([1.0] + c, x)
  {
    var z, t := p[..k], p[k..];
    TailIsScaled(p, c, k, x);
    EvalSkipsZeros(z, t, x);
    assert z + t == p;
  }

  /** The normalised coefficients describe the same polynomial up to the
      nonzero leading factor, so the companion matrix has the roots of `p`:
      `p(x) = p[k] * (x^m + c[0] x^(m-1) + ... + c[m-1])`. */
  lemma {:induction false} NormalisedKeepsRoots(p: seq<real>, c: seq<real>, x: real)
    requires Normalised(p) == Some(c)
    ensures p[LeadingZeros(p)] != 0.0
    ensures Eval(p, x) == p[LeadingZeros(p)] * Eval([1.0] + c, x)
  {
    FactorLeading(p, c, LeadingZeros(p), x);
  }

  /** Only leading zeros are dropped: the normalised coefficients are one
      fewer than the coefficients from the first nonzero one on. */
  lemma NormalisedLength(p: seq<real>)
    ensures Normalised(p).None? <==> forall i :: 0 <= i < |p| ==> p[i] == 0.0
    ensures Normalised(p).Some? ==> |Normalised(p).value| == |p| - LeadingZeros(p) - 1
  {
  }

  // ---------------------------------------------------------------------
  // Complex polynomials: `Compute(roots)`

  const Zero := Complex(0.0, 0.0)
  const One := Complex(1.0, 0.0)

  function CAdd(u: Complex, v: Complex): Complex {
    Complex(u.re + v.re, u.im + v.im)
  }

  function CSub(u: Complex, v: Complex): Complex {
    Complex(u.re - v.re, u.im - v.im)
  }

  /** `a[k] - r * b[k]` for every `k`. */
  function Combine(a: seq<Complex>, b: seq<Complex>, r: Complex): (c: seq<Complex>)
    requires |a| == |b|
    ensures |c| == |a|
  {
    seq(|a|, k requires 0 <= k < |a| => CSub(a[k], CMul(r, b[k])))
  }

  /** The coefficients of `q(x) * (x - r)`: `q` shifted up one degree minus
      `r` times `q`. */
  function MulLinear(q: seq<Complex>, r: Complex): (c: seq<Complex>)
    ensures |c| == |q| + 1
  {
    Combine(q + [Zero], [Zero] + q, r)
  }

  /** The coefficients of `(x - rs[0]) ... (x - rs[n-1])`, highest degree first. */
  function Expand(rs: seq<Complex>): (p: seq<Complex>)
    ensures |p| == |rs| + 1
  {
    if |rs| == 0 then [One] else MulLinear(Expand(rs[..|rs| - 1]), rs[|rs| - 1])
  }

  /** Horner's value of a complex polynomial, highest degree first. */
  function CEval(p: seq<Complex>, z: Complex): Complex {
    if |p| == 0 then Zero else CAdd(CMul(CEval(p[..|p| - 1], z), z), p[|p| - 1])
  }

  /** `(z - rs[0]) ... (z - rs[n-1])`. */
  function Product(rs: seq<Complex>, z: Complex): Complex {
    if |rs| == 0 then One else CMul(Product(rs[..|rs| - 1], z), CSub(z, rs[|rs| - 1]))
  }

  /** The first loop of one pass: `v[i] = roots[j] * p[i]` for `i <= j`. */
  method ScaleRow(p: array<Complex>, v: array<Complex>, r: Complex, j: nat)
    requires p != v && j < v.Length && j < p.Length
    modifies v
    ensures forall i :: 0 <= i <= j ==> v[i] == CMul(r, p[i])
  {
    for i := 0 to j + 1
      invariant forall q :: 0 <= q < i ==> v[q] == CMul(r, p[q])
    {
      v[i] := CMul(r, p[i]);
    }
  }

  /** The second loop of one pass: `p[i + 1] -= v[i]` for `i <= j`. */
  method SubtractRow(p: array<Complex>, v: array<Complex>, j: nat)
    requires p != v && j < v.Length && j + 1 < p.Length
    modifies p
    ensures p[0] == old(p[0])
    ensures forall i :: 0 <= i <= j ==> p[i + 1] == CSub(old(p[i + 1]), v[i])
    ensures forall i :: j + 1 < i < p.Length ==> p[i] == old(p[i])
  {
    for i := 0 to j + 1
      invariant p[0] == old(p[0])
      invariant forall q :: 0 <= q < i ==> p[q + 1] == CSub(old(p[q + 1]), v[q])
      invariant forall q :: i < q < p.Length ==> p[q] == old(p[q])
    {
      p[i + 1] := CSub(p[i + 1], v[i]);
    }
  }

  /** The entries of `MulLinear(q, r)`: `q[0]`, then `q[i] - r q[i-1]`,
      then `-r q[n-1]`. */
  lemma MulLinearEntries(q: seq<Complex>, r: Complex)
    requires |q| >= 1
    ensures MulLinear(q, r)[0] == q[0]
    ensures forall i :: 1 <= i < |q| ==> MulLinear(q, r)[i] == CSub(q[i], CMul(r, q[i - 1]))
    ensures MulLinear(q, r)[|q|] == CSub(Zero, CMul(r, q[|q| - 1]))
  {
    var m := MulLinear(q, r);
    assert m[0] == CSub(q[0], CMul(r, Zero));
    forall i | 1 <= i < |q|
      ensures m[i] == CSub(q[i], CMul(r, q[i - 1]))
    {
      assert (q + [Zero])[i] == q[i] && ([Zero] + q)[i] == q[i - 1];
    }
    assert ([Zero] + q)[|q|] == q[|q| - 1];
  }

  /** One pass of the outer loop takes `Expand(rs[..j])` in `p[..j+1]`, with
      zeros after it, to `Expand(rs[..j+1])` in `p[..j+2]`. */
  method MultiplyPass(p: array<Complex>, v: array<Complex>, roots: seq<Complex>, j: nat)
    requires p != v && j < |roots| && v.Length == |roots| && p.Length == |roots| + 1
    requires p[..j + 1] == Expand(roots[..j])
    requires forall i :: j + 1 <= i < p.Length ==> p[i] == Zero
    modifies p, v
    ensures p[..j + 2] == Expand(roots[..j + 1])
    ensures forall i :: j + 2 <= i < p.Length ==> p[i] == Zero
  {
    ghost var q := p[..j + 1];
    ghost var before := p[..];
    var r := roots[j];
    ScaleRow(p, v, r, j);
    assert forall i :: 0 <= i <= j ==> v[i] == CMul(r, q[i]);
    SubtractRow(p, v, j);
    assert roots[..j + 1][..j] == roots[..j];
    var e := Expand(roots[..j + 1]);
    assert e == MulLinear(q, r);
    MulLinearEntries(q, r);
    forall i | 0 <= i < j + 2
      ensures p[i] == e[i]
    {
      if i == 0 {
        assert p[0] == before[0] == q[0];
      } else if i <= j {
        assert p[i] == CSub(before[i], v[i - 1]);
        assert before[i] == q[i];
      } else {
        assert p[i] == CSub(before[i], v[i - 1]);
        assert before[i] == Zero;
      }
    }
    assert p[..j + 2] == e;
  }

  /** The outer loop of `Compute(roots)`: `p` starts as `1, 0, ..., 0` and
      after pass `j` holds the coefficients of the first `j` factors. */
  method ExpandInPlace(roots: seq<Complex>) returns (p: array<Complex>)
    ensures fresh(p)
    ensures p[..] == Expand(roots)
  {
    var length := |roots|;
    var m := length + 1;
    var v := new Complex[length](_ => Zero);
    p := new Complex[m](_ => Zero);
    p[0] := One;
    for j := 0 to length
      invariant p[..j + 1] == Expand(roots[..j])
      invariant forall i :: j + 1 <= i < p.Length ==> p[i] == Zero
    {
      MultiplyPass(p, v, roots, j);
    }
    assert roots[..length] == roots;
    assert p[..] == p[..length + 1];
  }

  /** `Compute(roots)`: the real parts of the coefficients of the monic
      polynomial with the given roots. */
  method PolynomialOf(roots: seq<Complex>) returns (c: seq<real>)
    ensures |c| == |roots| + 1
    ensures forall i :: 0 <= i < |c| ==> c[i] == Expand(roots)[i].re
  {
    var p := ExpandInPlace(roots);
    c := seq(p.Length, i requires 0 <= i < p.Length reads p => p[i].re);
  }

  /** The expansion is monic. */
  lemma {:induction false} ExpandIsMonic(rs: seq<Complex>)
    ensures Expand(rs)[0] == One
    decreases |rs|
  {
    if |rs| > 0 {
      ExpandIsMonic(rs[..|rs| - 1]);
    }
  }

  /** For real roots every coefficient is real, so taking real parts loses
      nothing. */
  lemma {:induction false} RealRootsRealCoefficients(rs: seq<Complex>)
    requires forall i :: 0 <= i < |rs| ==> rs[i].im == 0.0
    ensures forall k :: 0 <= k < |Expand(rs)| ==> Expand(rs)[k].im == 0.0
    decreases |rs|
  {
    if |rs| > 0 {
      RealRootsRealCoefficients(rs[..|rs| - 1]);
    }
  }

  lemma CEvalAppendZero(q: seq<Complex>, z: Complex)
    ensures CEval(q + [Zero], z) == CMul(CEval(q, z), z)
  {
    assert (q + [Zero])[..|q|] == q;
  }

  lemma {:induction false} CEvalPrependZero(q: seq<Complex>, z: Complex)
    ensures CEval([Zero] + q, z) == CEval(q, z)
    decreases |q|
  {
    if |q| == 0 {
      assert CEval([Zero], z) == CAdd(CMul(CEval([], z), z), Zero);
    } else {
      var n := |q| - 1;
      assert ([Zero] + q)[..n + 1] == [Zero] + q[..n];
      CEvalPrependZero(q[..n], z);
    }
  }

  /** `(A - r B) z + (a - r b) == (A z + a) - r (B z + b)`. */
  lemma CombineStep(A: Complex, B: Complex, a: Complex, b: Complex, r: Complex, z: Complex)
    ensures CAdd(CMul(CSub(A, CMul(r, B)), z), CSub(a, CMul(r, b)))
         == CSub(CAdd(CMul(A, z), a), CMul(r, CAdd(CMul(B, z), b)))
  {
  }

  /** Evaluation is linear. */
  lemma {:induction false} CEvalCombine(a: seq<Complex>, b: seq<Complex>, r: Complex, z: Complex)
    requires |a| == |b|
    ensures CEval(Combine(a, b, r), z) == CSub(CEval(a, z), CMul(r, CEval(b, z)))
    decreases |a|
  {
    if |a| == 0 {
    } else {
      var n := |a| - 1;
      assert Combine(a, b, r)[..n] == Combine(a[..n], b[..n], r);
      CEvalCombine(a[..n], b[..n], r, z);
      CombineStep(CEval(a[..n], z), CEval(b[..n], z), a[n], b[n], r, z);
    }
  }

  /** `Q z - r Q == Q (z - r)`. */
  lemma FactorOut(Q: Complex, z: Complex, r: Complex)
    ensures CSub(CMul(Q, z), CMul(r, Q)) == CMul(Q, CSub(z, r))
  {
  }

  lemma MulLinearEvaluates(q: seq<Complex>, r: Complex, z: Complex)
    ensures CEval(MulLinear(q, r), z) == CMul(CEval(q, z), CSub(z, r))
  {
    CEvalCombine(q + [Zero], [Zero] + q, r, z);
    CEvalAppendZero(q, z);
    CEvalPrependZero(q, z);
    FactorOut(CEval(q, z), z, r);
  }

  /** The expansion is the product of the linear factors at every point. */
  lemma {:induction false} ExpandEvaluates(rs: seq<Complex>, z: Complex)
    ensures CEval(Expand(rs), z) == Product(rs, z)
    decreases |rs|
  {
    if |rs| > 0 {
      var n := |rs| - 1;
      ExpandEvaluates(rs[..n], z);
      MulLinearEvaluates(Expand(rs[..n]), rs[n], z);
    }
  }

  lemma {:induction false} ProductVanishes(rs: seq<Complex>, i: nat)
    requires i < |rs|
    ensures Product(rs, rs[i]) == Zero
    decreases |rs|
  {
    var n := |rs| - 1;
    if i < n {
      assert rs[..n][i] == rs[i];
      ProductVanishes(rs[..n], i);
    }
  }

  /** Every given root is a root of the expanded polynomial. */
  lemma RootsAreRoots(rs: seq<Complex>, i: nat)
    requires i < |rs|
    ensures CEval(Expand(rs), rs[i]) == Zero
  {
    ExpandEvaluates(rs, rs[i]);
    ProductVanishes(rs, i);
  }
}
