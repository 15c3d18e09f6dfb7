/**
 Polynomials as coefficient lists, constant term first. Identities between
 polynomials are proved exactly, over the integers; only statements about
 roots and inverses are congruences modulo 65537.
 */
module Polynomials {
  import opened ShareField

  function Eval(p: seq<int>, x: int): int
  {
    if p == [] then 0 else p[0] + x * Eval(p[1..], x)
  }

  // ----- exact polynomial algebra -----

  function Add(p: seq<int>, q: seq<int>): (r: seq<int>)
    ensures |r| == if |p| < |q| then |q| else |p|
  {
    if p == [] then q else if q == [] then p else [p[0] + q[0]] + Add(p[1..], q[1..])
  }

  function Scale(p: seq<int>, c: int): (r: seq<int>)
    ensures |r| == |p|
  {
    if p == [] then [] else [c * p[0]] + Scale(p[1..], c)
  }

  /** The product `(X - r) * p`. */
  function MulLinear(p: seq<int>, r: int): (q: seq<int>)
    ensures |q| == |p| + 1
  {
    Add([0] + p, Scale(p, -r))
  }

  /** The monic polynomial whose roots are exactly the given list. */
  function RootsPoly(roots: seq<int>): (q: seq<int>)
    ensures |q| == |roots| + 1
  {
    if roots == [] then [1] else MulLinear(RootsPoly(roots[1..]), roots[0])
  }

  function RootProduct(roots: seq<int>, x: int): int
  {
    if roots == [] then 1 else (x - roots[0]) * RootProduct(roots[1..], x)
  }

  /** Synthetic division of `p` by `X - r`. */
  function Quotient(p: seq<int>, r: int): (q: seq<int>)
    ensures |q| == if |p| == 0 then 0 else |p| - 1
  {
    if |p| <= 1 then [] else [Eval(p[1..], r)] + Quotient(p[1..], r)
  }

  lemma {:induction false} EvalAdd(p: seq<int>, q: seq<int>, x: int)
    ensures Eval(Add(p, q), x) == Eval(p, x) + Eval(q, x)
  {
    if p != [] && q != [] {
      EvalAdd(p[1..], q[1..], x);
      Distribute(x, Eval(p[1..], x), Eval(q[1..], x));
    }
  }

  lemma Distribute(x: int, a: int, b: int)
    ensures x * (a + b) == x * a + x * b
  {
  }

  lemma {:induction false} EvalScale(p: seq<int>, c: int, x: int)
    ensures Eval(Scale(p, c), x) == c * Eval(p, x)
  {
    if p != [] {
      EvalScale(p[1..], c, x);
      var e := Eval(p[1..], x);
      assert c * (p[0] + x * e) == c * p[0] + x * (c * e) by {
        Distribute(c, p[0], x * e);
        Reassociate(c, x, e);
        Reassociate(x, c, e);
      }
    }
  }

  function Minus(p: seq<int>, q: seq<int>): (r: seq<int>)
    ensures |r| == if |p| < |q| then |q| else |p|
  {
    Add(p, Scale(q, -1))
  }

  lemma EvalMinus(p: seq<int>, q: seq<int>, x: int)
    ensures Eval(Minus(p, q), x) == Eval(p, x) - Eval(q, x)
  {
    EvalAdd(p, Scale(q, -1), x);
    EvalScale(q, -1, x);
  }

  lemma EvalMulLinear(p: seq<int>, r: int, x: int)
    ensures Eval(MulLinear(p, r), x) == (x - r) * Eval(p, x)
  {
    EvalAdd([0] + p, Scale(p, -r), x);
    EvalScale(p, -r, x);
    assert ([0] + p)[1..] == p;
  }

  lemma {:induction false} EvalRootsPoly(roots: seq<int>, x: int)
    ensures Eval(RootsPoly(roots), x) == RootProduct(roots, x)
  {
    if roots != [] {
      EvalRootsPoly(roots[1..], x);
      EvalMulLinear(RootsPoly(roots[1..]), roots[0], x);
    }
  }

  /** Remainder theorem: dividing by `X - r` leaves the value at `r`. */
  lemma {:induction false} QuotientRemainder(p: seq<int>, r: int, x: int)
    requires |p| >= 1
    ensures Eval(p, x) == (x - r) * Eval(Quotient(p, r), x) + Eval(p, r)
  {
    if |p| > 1 {
      var t := p[1..];
      QuotientRemainder(t, r, x);
      var e, q := Eval(t, r), Eval(Quotient(t, r), x);
      assert Quotient(p, r)[1..] == Quotient(t, r);
      RemainderStep(p[0], x, r, e, q);
    }
  }

  lemma RemainderStep(a: int, x: int, r: int, e: int, q: int)
    ensures a + x * ((x - r) * q + e) == (x - r) * (e + x * q) + (a + r * e)
  {
    calc {
      a + x * ((x - r) * q + e);
      { Distribute(x, (x - r) * q, e); }
      a + x * ((x - r) * q) + x * e;
      { Reassociate(x, x - r, q); Reassociate(x - r, x, q); }
      a + (x - r) * (x * q) + x * e;
      a + (x - r) * (x * q) + (x - r) * e + r * e;
      { Distribute(x - r, e, x * q); }
      (x - r) * (e + x * q) + (a + r * e);
    }
  }

  // ----- roots modulo 65537 -----

  ghost predicate Incongruent(xs: seq<int>)
  {
    forall i, j :: 0 <= i < j < |xs| ==> !Cong(xs[i], xs[j])
  }

  ghost predicate AllZero(p: seq<int>)
  {
    forall k :: 0 <= k < |p| ==> Cong(p[k], 0)
  }

  lemma {:induction false} ZeroFromQuotient(p: seq<int>, r: int)
    requires Cong(Eval(p, r), 0) && AllZero(Quotient(p, r))
    ensures AllZero(p)
  {
    hide Cong;
    if |p| > 1 {
      var q := Quotient(p, r);
      assert Cong(q[0], 0) && q[1..] == Quotient(p[1..], r);
      ZeroFromQuotient(p[1..], r);
      CongMul(q[0], 0, r);
      CongCancel(p[0], r * q[0]);
      assert forall k :: 1 <= k < |p| ==> p[k] == p[1..][k - 1];
    } else if |p| == 1 {
      assert Eval(p[1..], r) == 0;
    }
  }

  lemma QuotientRoot(p: seq<int>, r: int, x: int)
    requires |p| >= 1 && !Cong(r, x)
    requires Cong(Eval(p, r), 0) && Cong(Eval(p, x), 0)
    ensures Cong(Eval(Quotient(p, r), x), 0)
  {
    hide Cong, Eval, Quotient;
    QuotientRemainder(p, r, x);
    if Cong(x - r, 0) {
      CongOfDifference(x, r);
      CongSym(x, r);
    }
    FactorZero(x - r, Eval(Quotient(p, r), x), Eval(p, x), Eval(p, r));
  }

  lemma FactorZero(d: int, q: int, a: int, b: int)
    requires a == d * q + b && Cong(a, 0) && Cong(b, 0) && !Cong(d, 0)
    ensures Cong(q, 0)
  {
    hide Cong;
    CongDifference(a, b, 0);
    CongProductZero(d, q);
  }

  /** A polynomial with at least as many roots as coefficients is zero. */
  lemma {:induction false} TooManyRoots(p: seq<int>, xs: seq<int>)
    requires |xs| >= |p| && Incongruent(xs)
    requires forall i :: 0 <= i < |xs| ==> Cong(Eval(p, xs[i]), 0)
    ensures AllZero(p)
    decreases |p|
  {
    if p != [] {
      var r, rest, q := xs[0], xs[1..], Quotient(p, xs[0]);
      forall i | 0 <= i < |rest| ensures Cong(Eval(q, rest[i]), 0) {
        var x := rest[i];
        assert x == xs[i + 1] && !Cong(xs[0], xs[i + 1]);
        QuotientRoot(p, r, x);
      }
      TooManyRoots(q, rest);
      ZeroFromQuotient(p, r);
    }
  }

  // ----- Lagrange interpolation -----

  function Others(xs: seq<int>, i: nat): (r: seq<int>)
    requires i < |xs|
    ensures |r| == |xs| - 1
  {
    xs[..i] + xs[i + 1..]
  }

  function Denominator(xs: seq<int>, i: nat): int
    requires i < |xs|
  {
    RootProduct(Others(xs, i), xs[i])
  }

  /** The weight of point `i`: its value times the inverse of its denominator. */
  function Weight(xs: seq<int>, ys: seq<int>, i: nat): int
    requires i < |xs| == |ys|
  {
    ys[i] * Inverse(Denominator(xs, i) % 65537)
  }

  /** The value at `z` of the interpolating polynomial, first `n` points. */
  function LagrangeSum(xs: seq<int>, ys: seq<int>, z: int, n: nat): int
    requires n <= |xs| == |ys|
  {
    if n == 0 then 0
    else LagrangeSum(xs, ys, z, n - 1) + Weight(xs, ys, n - 1) * RootProduct(Others(xs, n - 1), z)
  }

  /** The interpolating polynomial as a coefficient list, first `n` points. */
  function Interpolant(xs: seq<int>, ys: seq<int>, n: nat): (p: seq<int>)
    requires n <= |xs| == |ys|
    ensures |p| <= |xs| && (n > 0 ==> |p| == |xs|)
  {
    if n == 0 then []
    else Add(Interpolant(xs, ys, n - 1), Scale(RootsPoly(Others(xs, n - 1)), Weight(xs, ys, n - 1)))
  }

  lemma {:induction false} EvalInterpolant(xs: seq<int>, ys: seq<int>, z: int, n: nat)
    requires n <= |xs| == |ys|
    ensures Eval(Interpolant(xs, ys, n), z) == LagrangeSum(xs, ys, z, n)
  {
    if n > 0 {
      EvalInterpolant(xs, ys, z, n - 1);
      var roots, w := Others(xs, n - 1), Weight(xs, ys, n - 1);
      EvalAdd(Interpolant(xs, ys, n - 1), Scale(RootsPoly(roots), w), z);
      EvalScale(RootsPoly(roots), w, z);
      EvalRootsPoly(roots, z);
    }
  }

  lemma {:induction false} RootProductAtRoot(roots: seq<int>, k: nat)
    requires k < |roots|
    ensures RootProduct(roots, roots[k]) == 0
  {
    if k > 0 {
      RootProductAtRoot(roots[1..], k - 1);
    }
  }

  lemma {:induction false} RootProductNonZero(roots: seq<int>, x: int)
    requires forall i :: 0 <= i < |roots| ==> !Cong(x, roots[i])
    ensures !Cong(RootProduct(roots, x), 0)
  {
    if roots != [] {
      forall i | 0 <= i < |roots[1..]| ensures !Cong(x, roots[1..][i]) {
        assert roots[1..][i] == roots[i + 1];
      }
      RootProductNonZero(roots[1..], x);
      if Cong(RootProduct(roots, x), 0) {
        CongProductZero(x - roots[0], RootProduct(roots[1..], x));
      }
    }
  }

  lemma DenominatorNonZero(xs: seq<int>, i: nat)
    requires i < |xs| && Incongruent(xs)
    ensures !Cong(Denominator(xs, i), 0)
  {
    var roots := Others(xs, i);
    forall j | 0 <= j < |roots| ensures !Cong(xs[i], roots[j]) {
      if j < i {
        assert roots[j] == xs[j];
      } else {
        assert roots[j] == xs[j + 1];
      }
    }
    RootProductNonZero(roots, xs[i]);
  }

  /** At a node only that node's own term survives, and it is the node's value. */
  lemma TermAtNode(xs: seq<int>, ys: seq<int>, i: nat, k: nat)
    requires i < |xs| == |ys| && k < |xs| && Incongruent(xs)
    ensures Cong(Weight(xs, ys, i) * RootProduct(Others(xs, i), xs[k]), if i == k then ys[k] else 0)
  {
    var roots := Others(xs, i);
    if i == k {
      var d := Denominator(xs, i);
      DenominatorNonZero(xs, i);
      InverseOfResidue(d);
      var v := Inverse(d % 65537);
      Reassociate(ys[i], v, d);
      CongMul(v * d, 1, ys[i]);
    } else {
      RootProductAtRoot(roots, if k < i then k else k - 1);
    }
  }

  lemma InverseOfResidue(d: int)
    requires !Cong(d, 0)
    ensures Cong(Inverse(d % 65537) * d, 1)
  {
    hide Cong, Inverse;
    var r := d % 65537;
    ResidueOf(d);
    CongSym(r, d);
    if Cong(r, 0) {
      CongTrans(d, r, 0);
    }
    InverseCorrect(r);
    CongMul(d, r, Inverse(r));
    CongTrans(Inverse(r) * d, r * Inverse(r), 1);
  }

  lemma {:induction false} SumAtNode(xs: seq<int>, ys: seq<int>, k: nat, n: nat)
    requires n <= |xs| == |ys| && k < |xs| && Incongruent(xs)
    ensures Cong(LagrangeSum(xs, ys, xs[k], n), if k < n then ys[k] else 0)
  {
    if n > 0 {
      SumAtNode(xs, ys, k, n - 1);
      TermAtNode(xs, ys, n - 1, k);
      CongAdd(LagrangeSum(xs, ys, xs[k], n - 1), if k < n - 1 then ys[k] else 0,
              Weight(xs, ys, n - 1) * RootProduct(Others(xs, n - 1), xs[k]), if n - 1 == k then ys[k] else 0);
    }
  }

  /**
   Uniqueness of interpolation: any polynomial through the points, with no more
   coefficients than points, agrees with the Lagrange sum everywhere.
   */
  lemma InterpolationAgrees(p: seq<int>, xs: seq<int>, ys: seq<int>, z: int)
    requires |p| <= |xs| == |ys| && Incongruent(xs)
    requires forall i :: 0 <= i < |xs| ==> Cong(Eval(p, xs[i]), ys[i])
    ensures Cong(LagrangeSum(xs, ys, z, |xs|), Eval(p, z))
  {
    hide Cong, Eval, Minus, Interpolant, LagrangeSum;
    var l := Interpolant(xs, ys, |xs|);
    forall i | 0 <= i < |xs| ensures Cong(Eval(Minus(l, p), xs[i]), 0) {
      InterpolantAtNode(xs, ys, i);
      EvalMinus(l, p, xs[i]);
      CongDifference(Eval(l, xs[i]), Eval(p, xs[i]), ys[i]);
    }
    TooManyRoots(Minus(l, p), xs);
    EvalAllZero(Minus(l, p), z);
    EvalMinus(l, p, z);
    CongOfDifference(Eval(l, z), Eval(p, z));
    EvalInterpolant(xs, ys, z, |xs|);
  }

  lemma InterpolantAtNode(xs: seq<int>, ys: seq<int>, i: nat)
    requires i < |xs| == |ys| && Incongruent(xs)
    ensures Cong(Eval(Interpolant(xs, ys, |xs|), xs[i]), ys[i])
  {
    EvalInterpolant(xs, ys, xs[i], |xs|);
    SumAtNode(xs, ys, i, |xs|);
  }

  lemma {:induction false} EvalAllZero(p: seq<int>, x: int)
    requires AllZero(p)
    ensures Cong(Eval(p, x), 0)
  {
    hide Cong;
    if p == [] {
      ResidueCong(0, 0);
    } else {
      forall k | 0 <= k < |p[1..]| ensures Cong(p[1..][k], 0) {
        assert p[1..][k] == p[k + 1];
      }
      EvalAllZero(p[1..], x);
      CongMul(Eval(p[1..], x), 0, x);
      CongAdd(p[0], 0, x * Eval(p[1..], x), 0);
    }
  }

  // ----- coefficient vectors in the field -----

  /** `p` has coefficients in the field and passes through every point. */
  ghost predicate Through(p: seq<int>, xs: seq<int>, ys: seq<int>)
    requires |xs| == |ys|
  {
    && (forall k :: 0 <= k < |p| ==> 0 <= p[k] < 65537)
    && (forall i :: 0 <= i < |xs| ==> Cong(Eval(p, xs[i]), ys[i]))
  }

  function Reduce(p: seq<int>): (r: seq<int>)
    ensures |r| == |p|
    ensures forall k :: 0 <= k < |r| ==> 0 <= r[k] < 65537
  {
    if p == [] then [] else [p[0] % 65537] + Reduce(p[1..])
  }

  lemma {:induction false} EvalReduce(p: seq<int>, x: int)
    ensures Cong(Eval(Reduce(p), x), Eval(p, x))
  {
    if p != [] {
      var e, f := Eval(Reduce(p[1..]), x), Eval(p[1..], x);
      EvalReduce(p[1..], x);
      assert Reduce(p)[1..] == Reduce(p[1..]);
      CongMul(e, f, x);
      CongAdd(p[0] % 65537, p[0], x * e, x * f);
    }
  }

  /** Existence: through any points with distinct x there is a field polynomial. */
  lemma InterpolantExists(xs: seq<int>, ys: seq<int>)
    requires |xs| == |ys| > 0 && Incongruent(xs)
    ensures |Reduce(Interpolant(xs, ys, |xs|))| == |xs|
    ensures Through(Reduce(Interpolant(xs, ys, |xs|)), xs, ys)
  {
    var l := Interpolant(xs, ys, |xs|);
    forall i | 0 <= i < |xs| ensures Cong(Eval(Reduce(l), xs[i]), ys[i]) {
      EvalReduce(l, xs[i]);
      InterpolantAtNode(xs, ys, i);
      CongTrans(Eval(Reduce(l), xs[i]), Eval(l, xs[i]), ys[i]);
    }
  }

  /** Uniqueness: two field polynomials of that length through the points are equal. */
  lemma InterpolantUnique(p: seq<int>, q: seq<int>, xs: seq<int>, ys: seq<int>)
    requires |p| == |q| == |xs| == |ys| && Incongruent(xs)
    requires Through(p, xs, ys) && Through(q, xs, ys)
    ensures p == q
  {
    forall i | 0 <= i < |xs| ensures Cong(Eval(Minus(p, q), xs[i]), 0) {
      EvalMinus(p, q, xs[i]);
      CongDifference(Eval(p, xs[i]), Eval(q, xs[i]), ys[i]);
    }
    TooManyRoots(Minus(p, q), xs);
    forall k | 0 <= k < |p| ensures p[k] == q[k] {
      DifferenceAt(p, q, k);
      assert Cong(Minus(p, q)[k], 0);
    }
  }

  lemma {:induction false} DifferenceAt(p: seq<int>, q: seq<int>, k: nat)
    requires |p| == |q| && k < |p|
    ensures Minus(p, q)[k] == p[k] - q[k]
  {
    if k > 0 {
      DifferenceAt(p[1..], q[1..], k - 1);
      assert Scale(q, -1)[1..] == Scale(q[1..], -1);
    }
  }
}
