/** The evaluation and interpolation loops of the sharing code. */
module Interpolation {
  import opened Outcomes
  import opened ShareField
  import opened Polynomials

  /** Evaluation with a running power of `x`. */
  method PolyEval(coeffs: seq<U32>, x: U32) returns (acc: Felt)
    ensures acc == Eval(coeffs, x) % FIELD_MOD
  {
    hide Cong, Eval, MulMod, AddMod;
    acc := 0;
    var powX: U32 := 1;
    assert coeffs[0..] == coeffs;
    ResidueCong(Eval(coeffs, x), Eval(coeffs, x));
    for i := 0 to |coeffs|
      invariant Cong(acc + powX * Eval(coeffs[i..], x), Eval(coeffs, x))
    {
      var a := coeffs[i];
      ghost var rest := Eval(coeffs[i + 1..], x);
      EvalFrom(coeffs, x, i);
      ghost var before := acc + powX * (a + x * rest);
      var term := MulMod(a, powX);
      var acc', powX' := AddMod(acc, term), MulMod(powX, x);
      PolyEvalTurn(acc, powX, a, x, rest, acc', term, powX');
      CongTrans(acc' + powX' * rest, before, Eval(coeffs, x));
      acc, powX := acc', powX';
    }
    NothingLeft(coeffs[|coeffs|..], x);
    CongResidue(acc + powX * Eval(coeffs[|coeffs|..], x), Eval(coeffs, x));
  }

  lemma NothingLeft(coeffs: seq<int>, x: int)
    requires coeffs == []
    ensures Eval(coeffs, x) == 0
  {
  }

  lemma EvalFrom(coeffs: seq<int>, x: int, i: nat)
    requires i < |coeffs|
    ensures Eval(coeffs[i..], x) == coeffs[i] + x * Eval(coeffs[i + 1..], x)
  {
    assert coeffs[i..][1..] == coeffs[i + 1..];
  }

  lemma PolyEvalTurn(acc: int, powX: int, a: int, x: int, rest: int, acc': int, term: int, powX': int)
    requires Cong(term, a * powX) && Cong(acc', acc + term) && Cong(powX', powX * x)
    ensures Cong(acc' + powX' * rest, acc + powX * (a + x * rest))
  {
    hide Cong;
    CongMul(powX', powX * x, rest);
    Reassociate(powX, x, rest);
    Distribute(powX, a, x * rest);
    CongAdd(acc', acc + term, powX' * rest, powX * (x * rest));
    CongAdd(acc + powX * (x * rest), acc + powX * (x * rest), term, a * powX);
    CongTrans(acc' + powX' * rest, acc + term + powX * (x * rest), acc + powX * (a + x * rest));
  }

  // ----- interpolation at zero -----

  /** Some denominator is a multiple of the modulus: two points share their x. */
  predicate Degenerate(xs: seq<int>)
  {
    exists i :: 0 <= i < |xs| && Cong(Denominator(xs, i), 0)
  }

  /** What interpolation at zero returns for points with field x-coordinates. */
  function AtZero(xs: seq<int>, ys: seq<int>): Outcome<Felt>
    requires |xs| == |ys|
  {
    if xs == [] then Throw("no_points")
    else if Degenerate(xs) then Throw("inverse_of_zero")
    else Ok(LagrangeSum(xs, ys, 0, |xs|) % FIELD_MOD)
  }

  lemma {:induction false} RootProductSnoc(roots: seq<int>, r: int, x: int)
    ensures RootProduct(roots + [r], x) == RootProduct(roots, x) * (x - r)
  {
    if roots == [] {
      assert [r][1..] == [];
    } else {
      RootProductSnoc(roots[1..], r, x);
      assert (roots + [r])[1..] == roots[1..] + [r];
      Reassociate(x - roots[0], RootProduct(roots[1..], x), x - r);
    }
  }

  /** The other x-coordinates among the first `j`. */
  function OthersBefore(xs: seq<int>, i: nat, j: nat): (r: seq<int>)
    requires i < |xs| && j <= |xs|
  {
    if j <= i then xs[..j] else xs[..i] + xs[i + 1..j]
  }

  lemma OthersBeforeStep(xs: seq<int>, i: nat, j: nat)
    requires i < |xs| && j < |xs|
    ensures OthersBefore(xs, i, j + 1) == OthersBefore(xs, i, j) + (if j == i then [] else [xs[j]])
  {
  }

  lemma ProductTurn(acc: int, prod: int, factor: int, f: int, acc': int)
    requires Cong(acc, prod) && Cong(factor, f) && Cong(acc', acc * factor)
    ensures Cong(acc', prod * f)
  {
    CongMul2(acc, prod, factor, f);
    CongTrans(acc', acc * factor, prod * f);
  }

  /** One more factor of a product `(x - xs[0]) * ...` that skips index `i`. */
  lemma BasisTurn(xs: seq<int>, i: nat, j: nat, x: int, acc: int, factor: int, acc': int)
    requires i < |xs| && j < |xs| && j != i
    requires Cong(acc, RootProduct(OthersBefore(xs, i, j), x))
    requires Cong(factor, x - xs[j]) && Cong(acc', acc * factor)
    ensures Cong(acc', RootProduct(OthersBefore(xs, i, j + 1), x))
  {
    var before := OthersBefore(xs, i, j);
    OthersBeforeStep(xs, i, j);
    RootProductSnoc(before, xs[j], x);
    ProductTurn(acc, RootProduct(before, x), factor, x - xs[j], acc');
  }

  /** Numerator and denominator of one Lagrange coefficient. */
  method BasisAtZero(xs: seq<Felt>, i: nat) returns (num: Felt, den: Felt)
    requires i < |xs|
    ensures Cong(num, RootProduct(Others(xs, i), 0))
    ensures Cong(den, Denominator(xs, i))
  {
    hide Cong, RootProduct, MulMod, SubMod, OthersBefore, Others;
    num, den := 1, 1;
    NoFactors(xs, i, 0);
    NoFactors(xs, i, xs[i]);
    for j := 0 to |xs|
      invariant Cong(num, RootProduct(OthersBefore(xs, i, j), 0))
      invariant Cong(den, RootProduct(OthersBefore(xs, i, j), xs[i]))
    {
      OthersBeforeStep(xs, i, j);
      if j != i {
        var negXj, diff := SubMod(0, xs[j]), SubMod(xs[i], xs[j]);
        var num', den' := MulMod(num, negXj), MulMod(den, diff);
        BasisTurn(xs, i, j, 0, num, negXj, num');
        BasisTurn(xs, i, j, xs[i], den, diff, den');
        num, den := num', den';
      } else {
        assert OthersBefore(xs, i, j + 1) == OthersBefore(xs, i, j);
      }
    }
    AllOthers(xs, i);
  }

  lemma NoFactors(xs: seq<int>, i: nat, x: int)
    requires i < |xs|
    ensures Cong(1, RootProduct(OthersBefore(xs, i, 0), x))
  {
  }

  lemma AllOthers(xs: seq<int>, i: nat)
    requires i < |xs|
    ensures OthersBefore(xs, i, |xs|) == Others(xs, i)
  {
  }

  lemma InverseCong(a: Felt, d: int)
    requires Cong(a, d)
    ensures a == d % 65537
  {
  }

  lemma TermTurn(secret: int, sum: int, y: int, num: int, n: int, inv: int, li: int, term: int, secret': int)
    requires Cong(secret, sum) && Cong(num, n) && Cong(li, num * inv) && Cong(term, y * li) && Cong(secret', secret + term)
    ensures Cong(secret', sum + (y * inv) * n)
  {
    CongMul(num, n, inv);
    CongTrans(li, num * inv, n * inv);
    CongMul(li, n * inv, y);
    assert y * (n * inv) == (y * inv) * n by { Reassociate(y, inv, n); }
    CongTrans(term, y * li, (y * inv) * n);
    CongAdd(secret, sum, term, (y * inv) * n);
    CongTrans(secret', secret + term, sum + (y * inv) * n);
  }

  method LagrangeInterpolateAtZero(xs: seq<Felt>, ys: seq<U32>) returns (r: Outcome<Felt>)
    requires |xs| == |ys|
    ensures r == AtZero(xs, ys)
  {
    if |xs| == 0 {
      return Throw("no_points");
    }
    var secret: Felt := 0;
    for i := 0 to |xs|
      invariant Cong(secret, LagrangeSum(xs, ys, 0, i))
      invariant forall k :: 0 <= k < i ==> !Cong(Denominator(xs, k), 0)
    {
      var num, den := BasisAtZero(xs, i);
      InverseCong(den, Denominator(xs, i));
      var inv := InvMod(den);
      if inv.Throw? {
        return Throw(inv.error);
      }
      var li0 := MulMod(num, inv.value);
      var term := MulMod(ys[i], li0);
      TermTurn(secret, LagrangeSum(xs, ys, 0, i), ys[i], num, RootProduct(Others(xs, i), 0), inv.value,
               li0, term, AddMod(secret, term));
      secret := AddMod(secret, term);
    }
    InverseCong(secret, LagrangeSum(xs, ys, 0, |xs|));
    r := Ok(secret);
  }

  // ----- what interpolation promises -----

  lemma DistinctNotDegenerate(xs: seq<int>)
    requires Incongruent(xs)
    ensures !Degenerate(xs)
  {
    forall i | 0 <= i < |xs| ensures !Cong(Denominator(xs, i), 0) {
      DenominatorNonZero(xs, i);
    }
  }

  /** `inverse_of_zero` is raised exactly when two points share their x. */
  lemma DegenerateIffRepeated(xs: seq<int>)
    ensures Degenerate(xs) <==> !Incongruent(xs)
  {
    if Incongruent(xs) {
      DistinctNotDegenerate(xs);
    } else {
      var i, j :| 0 <= i < j < |xs| && Cong(xs[i], xs[j]);
      var roots := Others(xs, i);
      assert roots[j - 1] == xs[j];
      RootProductAtCongruentRoot(roots, xs[i], j - 1);
      assert Cong(Denominator(xs, i), 0);
    }
  }

  lemma {:induction false} RootProductAtCongruentRoot(roots: seq<int>, x: int, k: nat)
    requires k < |roots| && Cong(x, roots[k])
    ensures Cong(RootProduct(roots, x), 0)
  {
    var rest := RootProduct(roots[1..], x);
    if k == 0 {
      CongMul(x - roots[0], 0, rest);
    } else {
      RootProductAtCongruentRoot(roots[1..], x, k - 1);
      CongMul(rest, 0, x - roots[0]);
    }
  }

  /**
   Recovery of one value: for points with distinct x on a polynomial with no
   more coefficients than points, interpolation at zero returns its constant term.
   */
  lemma RecoversConstantTerm(p: seq<int>, xs: seq<int>, ys: seq<int>)
    requires 1 <= |p| <= |xs| == |ys| && Incongruent(xs)
    requires forall i :: 0 <= i < |xs| ==> Cong(ys[i], Eval(p, xs[i]))
    ensures AtZero(xs, ys) == Ok(p[0] % 65537)
  {
    DistinctNotDegenerate(xs);
    forall i | 0 <= i < |xs| ensures Cong(Eval(p, xs[i]), ys[i]) {
      CongSym(ys[i], Eval(p, xs[i]));
    }
    InterpolationAgrees(p, xs, ys, 0);
    EvalAtZero(p);
    AtZeroValue(xs, ys, p[0]);
  }

  lemma EvalAtZero(p: seq<int>)
    requires p != []
    ensures Eval(p, 0) == p[0]
  {
  }

  lemma AtZeroValue(xs: seq<int>, ys: seq<int>, v: int)
    requires |xs| == |ys| > 0 && !Degenerate(xs) && Cong(LagrangeSum(xs, ys, 0, |xs|), v)
    ensures AtZero(xs, ys) == Ok(v % 65537)
  {
    CongResidue(LagrangeSum(xs, ys, 0, |xs|), v);
  }

  // ----- the threshold -----

  /** `p` is a length-`t` field polynomial with constant term `s` that `PolyEval` maps through the points. */
  ghost predicate Explains(p: seq<Felt>, s: Felt, xs: seq<Felt>, ys: seq<Felt>)
    requires |xs| == |ys|
  {
    && |p| == |xs| + 1 && p[0] == s
    && forall i :: 0 <= i < |xs| ==> Eval(p, xs[i]) % 65537 == ys[i]
  }

  /**
   Fewer than `t` shares never fix the secret: through any `t - 1` points with
   distinct non-zero x there is, for every candidate secret, exactly one
   polynomial of `t` coefficients.
   */
  lemma ThresholdExists(s: Felt, xs: seq<Felt>, ys: seq<Felt>) returns (p: seq<Felt>)
    requires |xs| == |ys| && Incongruent(xs) && forall i :: 0 <= i < |xs| ==> xs[i] != 0
    ensures Explains(p, s, xs, ys)
  {
    var us: seq<int>, vs: seq<int> := [0] + xs, [s] + ys;
    WithZeroDistinct(xs);
    InterpolantExists(us, vs);
    p := Reduce(Interpolant(us, vs, |us|));
    ThroughExplains(p, s, xs, ys);
  }

  lemma ThroughExplains(p: seq<Felt>, s: Felt, xs: seq<Felt>, ys: seq<Felt>)
    requires |p| == |xs| + 1 && |xs| == |ys| && Through(p, [0] + xs, [s] + ys)
    ensures Explains(p, s, xs, ys)
  {
    var us: seq<int>, vs: seq<int> := [0] + xs, [s] + ys;
    assert Cong(Eval(p, us[0]), vs[0]);
    EvalAtZero(p);
    CongResidue(p[0], s);
    forall i | 0 <= i < |xs| ensures Eval(p, xs[i]) % 65537 == ys[i] {
      assert us[i + 1] == xs[i] && vs[i + 1] == ys[i];
      CongResidue(Eval(p, us[i + 1]), vs[i + 1]);
    }
  }

  lemma WithZeroDistinct(xs: seq<Felt>)
    requires Incongruent(xs) && forall i :: 0 <= i < |xs| ==> xs[i] != 0
    ensures Incongruent([0] + xs)
  {
    var us: seq<int> := [0] + xs;
    forall i, j | 0 <= i < j < |us| ensures !Cong(us[i], us[j]) {
      if i > 0 {
        assert us[i] == xs[i - 1] && us[j] == xs[j - 1];
      } else {
        assert us[j] == xs[j - 1];
      }
    }
  }

  lemma ThresholdUnique(p: seq<Felt>, q: seq<Felt>, s: Felt, xs: seq<Felt>, ys: seq<Felt>)
    requires |xs| == |ys| && Incongruent(xs) && forall i :: 0 <= i < |xs| ==> xs[i] != 0
    requires Explains(p, s, xs, ys) && Explains(q, s, xs, ys)
    ensures p == q
  {
    var us: seq<int>, vs: seq<int> := [0] + xs, [s] + ys;
    WithZeroDistinct(xs);
    ExplainsThrough(p, s, xs, ys);
    ExplainsThrough(q, s, xs, ys);
    InterpolantUnique(p, q, us, vs);
  }

  lemma ExplainsThrough(p: seq<Felt>, s: Felt, xs: seq<Felt>, ys: seq<Felt>)
    requires |xs| == |ys| && Explains(p, s, xs, ys)
    ensures Through(p, [0] + xs, [s] + ys)
  {
    var us: seq<int>, vs: seq<int> := [0] + xs, [s] + ys;
    assert Eval(p, 0) == p[0];
    forall i | 0 <= i < |us| ensures Cong(Eval(p, us[i]), vs[i]) {
      if i > 0 {
        assert us[i] == xs[i - 1] && vs[i] == ys[i - 1];
      }
    }
  }
}
