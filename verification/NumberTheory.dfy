/**
 The number theory behind the share field: prime moduli, Euclid's lemma, and
 Fermat's little theorem. The field inverse of the sharing code is a power
 (`x^(p-2)`), so it is only an inverse because of what is proved here.
 */
module NumberTheory {

  ghost predicate IsPrime(p: nat)
  {
    p >= 2 && forall d :: 2 <= d < p ==> p % d != 0
  }

  function Power(base: nat, exp: nat): nat
  {
    if exp == 0 then 1 else base * Power(base, exp - 1)
  }

  function Pow2(n: nat): (r: nat)
    ensures r > 0
  {
    if n == 0 then 1 else 2 * Pow2(n - 1)
  }

  function Pow256(n: nat): (r: nat)
    ensures r > 0
  {
    if n == 0 then 1 else 256 * Pow256(n - 1)
  }

  predicate DistinctNats(s: seq<nat>)
  {
    forall i, j :: 0 <= i < j < |s| ==> s[i] != s[j]
  }

  /** Squaring the base halves the exponent: one turn of square-and-multiply. */
  lemma {:induction false} PowerSquare(base: nat, n: nat)
    ensures Power(base * base, n) == Power(base, 2 * n)
  {
    if n > 0 {
      PowerSquare(base, n - 1);
      assert Power(base, 2 * n) == base * Power(base, 2 * n - 1);
      assert Power(base, 2 * n - 1) == base * Power(base, 2 * (n - 1));
      var r := Power(base, 2 * (n - 1));
      assert (base * base) * r == base * (base * r);
    }
  }

  // ----- remainders -----

  lemma ModUnique(a: int, k: int, r: int, p: nat)
    requires p > 0 && 0 <= r < p && a == k * p + r
    ensures a % p == r && a / p == k
  {
    var q, s := a / p, a % p;
    assert a == q * p + s;
    assert (k - q) * p == s - r && (q - k) * p == r - s;
    if k - q >= 1 {
      MulMono(1, k - q, p);
    } else if k - q <= -1 {
      MulMono(1, q - k, p);
    }
  }

  lemma MulMono(a: int, b: int, c: nat)
    requires a <= b
    ensures a * c <= b * c
  {
    assert (b - a) * c >= 0;
  }

  lemma MultipleMod(k: int, p: nat)
    requires p > 0
    ensures (k * p) % p == 0
  {
    ModUnique(k * p, k, 0, p);
  }

  lemma ModMultiple(a: int, p: nat) returns (k: int)
    requires p > 0 && a % p == 0
    ensures a == k * p
  {
    k := a / p;
  }

  /** Two numbers leave the same remainder exactly when `p` divides their difference. */
  lemma ModEqual(a: int, b: int, p: nat)
    requires p > 0
    ensures a % p == b % p <==> (a - b) % p == 0
  {
    var qa, qb := a / p, b / p;
    assert a == qa * p + a % p && b == qb * p + b % p;
    if a % p == b % p {
      assert a - b == (qa - qb) * p;
      MultipleMod(qa - qb, p);
    }
    if (a - b) % p == 0 {
      var k := ModMultiple(a - b, p);
      assert a == (k + qb) * p + b % p;
      ModUnique(a, k + qb, b % p, p);
    }
  }

  lemma ModMul(a: int, b: int, p: nat)
    requires p > 0
    ensures ((a % p) * b) % p == (a * b) % p
    ensures (a * (b % p)) % p == (a * b) % p
  {
    ModMulLeft(a, b, p);
    ModMulLeft(b, a, p);
    assert (b % p) * a == a * (b % p);
  }

  lemma ModMulLeft(a: int, b: int, p: nat)
    requires p > 0
    ensures ((a % p) * b) % p == (a * b) % p
  {
    var q, r := a / p, a % p;
    var c := r * b;
    var t, s := c / p, c % p;
    ScaleQuotient(a, q, p, r, b, t, s);
    ModUnique(a * b, q * b + t, s, p);
  }

  lemma ScaleQuotient(a: int, q: int, p: int, r: int, b: int, t: int, s: int)
    requires a == q * p + r && r * b == t * p + s
    ensures a * b == (q * b + t) * p + s
  {
  }

  // ----- Euclid's lemma -----

  /** A prime that divides a product divides one of the factors. */
  lemma EuclidsLemma(p: nat, a: int, b: int)
    requires IsPrime(p) && (a * b) % p == 0
    ensures a % p == 0 || b % p == 0
  {
    if a % p != 0 {
      ModMul(a, b, p);
      var k := ModMultiple((a % p) * b, p);
      EuclidReduced(p, a % p, b, k);
    }
  }

  lemma {:induction false} EuclidReduced(p: nat, a: nat, b: int, k: int)
    requires IsPrime(p) && 0 < a < p && a * b == k * p
    ensures b % p == 0
    decreases a
  {
    if a == 1 {
      MultipleMod(k, p);
    } else {
      var q, r := p / a, p % a;
      assert p == q * a + r && r != 0;
      calc {
        r * b;
        (p - q * a) * b;
        p * b - q * (a * b);
        p * b - q * (k * p);
        (b - q * k) * p;
      }
      EuclidReduced(p, r, b, b - q * k);
    }
  }

  // ----- products over finite sets of residues -----

  ghost function Product(s: set<nat>): nat
  {
    if s == {} then 1 else var x :| x in s; x * Product(s - {x})
  }

  lemma {:induction false} ProductRemove(s: set<nat>, x: nat)
    requires x in s
    ensures Product(s) == x * Product(s - {x})
  {
    var y :| y in s && Product(s) == y * Product(s - {y});
    if y != x {
      hide Product;
      ProductRemove(s - {y}, x);
      ProductRemove(s - {x}, y);
      assert s - {y} - {x} == s - {x} - {y};
      SwapFactors(x, y, Product(s - {x} - {y}));
    }
  }

  lemma SwapFactors(x: int, y: int, r: int)
    ensures y * (x * r) == x * (y * r)
  {
  }

  ghost function Units(p: nat): set<nat>
  {
    set x | 1 <= x < p && IsUnit(x, p)
  }

  predicate IsUnit(x: nat, p: nat)
  {
    1 <= x < p
  }

  lemma {:induction false} UnitsCount(p: nat)
    requires p >= 1
    ensures |Units(p)| == p - 1
  {
    if p == 1 {
      assert Units(1) == {};
    } else {
      UnitsCount(p - 1);
      assert Units(p) == Units(p - 1) + {p - 1};
    }
  }

  /** The residues `a*x mod p` for `x` in `s`. */
  ghost function Scaled(a: nat, s: set<nat>, p: nat): set<nat>
    requires p > 0
  {
    set x | x in s :: (a * x) % p
  }

  lemma ScaledInjective(p: nat, a: nat, x: nat, y: nat)
    requires IsPrime(p) && a % p != 0 && x < p && y < p
    requires (a * x) % p == (a * y) % p
    ensures x == y
    decreases x < y
  {
    if x < y {
      ScaledInjective(p, a, y, x);
    } else if y < x {
      ModEqual(a * x, a * y, p);
      assert a * x - a * y == a * (x - y);
      EuclidsLemma(p, a, x - y);
      ModUnique(x - y, 0, x - y, p);
    }
  }

  lemma ModProductStep(p: nat, a: nat, x: nat, q: nat, e: nat, r: nat)
    requires p > 0 && q % p == (e * r) % p
    ensures (((a * x) % p) * q) % p == ((a * e) * (x * r)) % p
  {
    ModMul(a * x, q, p);
    ModMul(a * x, q, p);
    ModMul(a * x, e * r, p);
    assert (a * x) * (e * r) == (a * e) * (x * r);
  }

  lemma ScaledStep(p: nat, a: nat, s: set<nat>, x: nat)
    requires IsPrime(p) && a % p != 0 && s <= Units(p) && x in s
    ensures (a * x) % p !in Scaled(a, s - {x}, p)
    ensures Scaled(a, s, p) == Scaled(a, s - {x}, p) + {(a * x) % p}
  {
    var rest, y := s - {x}, (a * x) % p;
    if y in Scaled(a, rest, p) {
      var z :| z in rest && (a * z) % p == y;
      ScaledInjective(p, a, x, z);
    }
    forall z | z in Scaled(a, s, p) ensures z in Scaled(a, rest, p) + {y} {
      var w :| w in s && z == (a * w) % p;
      assert w == x || w in rest;
    }
  }

  /** Scaling multiplies the product of a set of residues by `a` once per element. */
  lemma {:induction false} ScaledProduct(p: nat, a: nat, s: set<nat>)
    requires IsPrime(p) && a % p != 0 && s <= Units(p)
    ensures |Scaled(a, s, p)| == |s|
    ensures Product(Scaled(a, s, p)) % p == (Power(a, |s|) * Product(s)) % p
  {
    if s == {} {
      assert Scaled(a, s, p) == {};
    } else {
      var x :| x in s;
      var rest, y := s - {x}, (a * x) % p;
      hide Scaled, Product, IsPrime, Units;
      ScaledProduct(p, a, rest);
      ScaledStep(p, a, s, x);
      assert Scaled(a, s, p) - {y} == Scaled(a, rest, p);
      ProductRemove(Scaled(a, s, p), y);
      ProductRemove(s, x);
      assert |s| == |rest| + 1;
      ModProductStep(p, a, x, Product(Scaled(a, rest, p)), Power(a, |rest|), Product(rest));
    }
  }

  lemma {:induction false} ProductIsUnit(p: nat, s: set<nat>)
    requires IsPrime(p) && s <= Units(p)
    ensures Product(s) % p != 0
  {
    if s == {} {
      ModUnique(1, 0, 1, p);
    } else {
      var x :| x in s;
      ProductRemove(s, x);
      ProductIsUnit(p, s - {x});
      ModUnique(x, 0, x, p);
      if (x * Product(s - {x})) % p == 0 {
        EuclidsLemma(p, x, Product(s - {x}));
      }
    }
  }

  lemma UnitsScaleToUnits(p: nat, a: nat)
    requires IsPrime(p) && a % p != 0
    ensures Scaled(a, Units(p), p) == Units(p)
  {
    var u := Units(p);
    forall y | y in Scaled(a, u, p) ensures y in u {
      var x :| x in u && y == (a * x) % p;
      if y == 0 {
        EuclidsLemma(p, a, x);
        ModUnique(x, 0, x, p);
      }
      assert IsUnit(y, p);
    }
    ScaledProduct(p, a, u);
    SubsetSameSize(Scaled(a, u, p), u);
  }

  /** A non-zero factor can be cancelled modulo a prime. */
  lemma Cancel(p: nat, e: nat, r: nat)
    requires IsPrime(p) && r % p != 0 && (e * r) % p == r % p
    ensures e % p == 1
  {
    ModEqual(e * r, r, p);
    assert e * r - r == (e - 1) * r;
    if e == 0 {
      ModUnique(0, 0, 0, p);
    } else {
      EuclidsLemma(p, e - 1, r);
      ModEqual(e, 1, p);
      ModUnique(1, 0, 1, p);
    }
  }

  /** Fermat's little theorem. */
  lemma Fermat(p: nat, a: nat)
    requires IsPrime(p) && a % p != 0
    ensures Power(a, p - 1) % p == 1
  {
    var u := Units(p);
    UnitsScaleToUnits(p, a);
    ScaledProduct(p, a, u);
    UnitsCount(p);
    ProductIsUnit(p, u);
    Cancel(p, Power(a, p - 1), Product(u));
  }

  lemma SubsetSameSize(a: set<nat>, b: set<nat>)
    requires a <= b && |a| == |b|
    ensures a == b
  {
    assert |b - a| == 0;
  }

  // ----- 65537 is prime -----

  /** None of the `n` odd numbers from `lo` on divides `p`. */
  predicate NoOddDivisor(p: nat, lo: nat, n: nat)
    decreases n
  {
    n == 0 || (lo > 0 && p % lo != 0 && NoOddDivisor(p, lo + 2, n - 1))
  }

  lemma {:induction false} NoOddDivisorAt(p: nat, lo: nat, n: nat, k: nat)
    requires NoOddDivisor(p, lo, n) && k < n
    decreases n
    ensures lo + 2 * k > 0 && p % (lo + 2 * k) != 0
  {
    if k > 0 {
      NoOddDivisorAt(p, lo + 2, n - 1, k - 1);
    }
  }

  lemma OddDivisors0()
    ensures NoOddDivisor(65537, 3, 8)
    ensures NoOddDivisor(65537, 19, 8)
    ensures NoOddDivisor(65537, 35, 8)
  {
  }

  lemma OddDivisors1()
    ensures NoOddDivisor(65537, 51, 8)
    ensures NoOddDivisor(65537, 67, 8)
    ensures NoOddDivisor(65537, 83, 8)
  {
  }

  lemma OddDivisors2()
    ensures NoOddDivisor(65537, 99, 8)
    ensures NoOddDivisor(65537, 115, 8)
    ensures NoOddDivisor(65537, 131, 8)
  {
  }

  lemma OddDivisors3()
    ensures NoOddDivisor(65537, 147, 8)
    ensures NoOddDivisor(65537, 163, 8)
    ensures NoOddDivisor(65537, 179, 8)
  {
  }

  lemma OddDivisors4()
    ensures NoOddDivisor(65537, 195, 8)
    ensures NoOddDivisor(65537, 211, 8)
    ensures NoOddDivisor(65537, 227, 8)
  {
  }

  lemma OddDivisors5()
    ensures NoOddDivisor(65537, 243, 8)
    ensures NoOddDivisor(65537, 259, 2)
  {
  }

  lemma NoSmallOddDivisor(k: nat)
    requires k < 130
    ensures 65537 % (3 + 2 * k) != 0
  {
    hide NoOddDivisor;
    OddDivisors0();
    OddDivisors1();
    OddDivisors2();
    OddDivisors3();
    OddDivisors4();
    OddDivisors5();
    var g := k / 8;
    EighthPart(k);
    assert NoOddDivisor(65537, 3 + 16 * g, if g < 16 then 8 else 2);
    NoOddDivisorAt(65537, 3 + 16 * g, if g < 16 then 8 else 2, k - 8 * g);
  }

  lemma EighthPart(k: nat)
    requires k < 130
    ensures 8 * (k / 8) <= k < 8 * (k / 8) + 8 && k / 8 < 17 && (k / 8 == 16 ==> k < 8 * 16 + 2)
  {
  }

  lemma NoSmallDivisor(d: nat)
    requires 2 <= d <= 256
    ensures 65537 % d != 0
  {
    if d % 2 == 1 {
      NoSmallOddDivisor((d - 3) / 2);
    } else if 65537 % d == 0 {
      var k := ModMultiple(65537, d);
      EvenMultiple(k, d / 2);
    }
  }

  lemma EvenMultiple(k: int, h: int)
    ensures (k * (2 * h)) % 2 == 0
  {
    assert k * (2 * h) == 2 * (k * h);
  }

  lemma FermatPrime()
    ensures IsPrime(65537)
  {
    forall d: nat | 2 <= d < 65537 ensures 65537 % d != 0 {
      if d <= 256 {
        NoSmallDivisor(d);
      } else if 65537 % d == 0 {
        var e := ModMultiple(65537, d);
        if e >= 256 {
          MulMono(256, e, d);
        } else if e <= 1 {
          MulMono(e, 1, d);
        } else {
          NoSmallDivisor(e);
          MultipleMod(d, e);
        }
      }
    }
  }
}
