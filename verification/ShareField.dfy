/**
 Arithmetic of the share field GF(65537), with the machine widths of the
 original: 32-bit field values, 64-bit intermediates.
 */
module ShareField {
  import opened NumberTheory
  import opened Outcomes

  const FIELD_MOD: nat := 65537
  const TWO32: nat := 0x1_0000_0000
  const TWO64: nat := 0x1_0000_0000_0000_0000

  type U32 = x: nat | x < 0x1_0000_0000
  type U64 = x: nat | x < 0x1_0000_0000_0000_0000
  type Felt = x: nat | x < 65537

  /** Unsigned 64-bit arithmetic wraps around. */
  function Wrap64(x: int): U64
  {
    x % TWO64
  }

  // ----- congruence modulo 65537 -----

  predicate Cong(a: int, b: int)
  {
    (a - b) % 65537 == 0
  }

  lemma CongTrans(a: int, b: int, c: int)
    requires Cong(a, b) && Cong(b, c)
    ensures Cong(a, c)
  {
  }

  lemma CongSym(a: int, b: int)
    requires Cong(a, b)
    ensures Cong(b, a)
  {
  }

  lemma CongResidue(a: int, b: int)
    requires Cong(a, b)
    ensures a % 65537 == b % 65537
  {
  }

  lemma ResidueCong(a: int, b: int)
    requires a % 65537 == b % 65537
    ensures Cong(a, b)
  {
  }

  lemma ResidueOf(a: int)
    ensures Cong(a % 65537, a)
  {
  }

  lemma CongDifference(a: int, b: int, c: int)
    requires Cong(a, c) && Cong(b, c)
    ensures Cong(a - b, 0)
  {
  }

  lemma CongOfDifference(a: int, b: int)
    requires Cong(a - b, 0)
    ensures Cong(a, b)
  {
  }

  lemma CongCancel(a: int, b: int)
    requires Cong(a + b, 0) && Cong(b, 0)
    ensures Cong(a, 0)
  {
    hide Cong;
    CongDifference(a + b, b, 0);
    assert a + b - b == a;
  }

  lemma CongAdd(a: int, b: int, c: int, d: int)
    requires Cong(a, b) && Cong(c, d)
    ensures Cong(a + c, b + d)
  {
  }

  lemma CongMul(a: int, b: int, c: int)
    requires Cong(a, b)
    ensures Cong(a * c, b * c) && Cong(c * a, c * b)
  {
    var k := (a - b) / 65537;
    assert a == b + 65537 * k;
    assert a * c == b * c + 65537 * (k * c);
  }

  lemma CongMul2(a: int, b: int, c: int, d: int)
    requires Cong(a, b) && Cong(c, d)
    ensures Cong(a * c, b * d)
  {
    CongMul(a, b, c);
    CongMul(c, d, b);
    CongTrans(a * c, b * c, b * d);
  }

  lemma CongProductZero(a: int, b: int)
    requires Cong(a * b, 0)
    ensures Cong(a, 0) || Cong(b, 0)
  {
    FermatPrime();
    EuclidsLemma(65537, a, b);
  }

  // ----- the machine operations -----

  function AddMod(a: U32, b: U32): (r: Felt)
    ensures Cong(r, a + b)
  {
    Wrap64(a + b) % FIELD_MOD
  }

  /** Never wraps for operands in the field: the only way it is called. */
  function SubMod(a: U32, b: U32): (r: Felt)
    ensures b <= a + FIELD_MOD ==> Cong(r, a - b)
  {
    Wrap64(Wrap64(a + FIELD_MOD) - b) % FIELD_MOD
  }

  function MulMod(a: U32, b: U32): (r: Felt)
    ensures Cong(r, a * b)
  {
    ProductFits(a, b);
    WrapFits(a * b);
    Wrap64(a * b) % FIELD_MOD
  }

  lemma WrapFits(x: int)
    requires 0 <= x < TWO64
    ensures Wrap64(x) == x && Cong(x % FIELD_MOD, x)
  {
  }

  /** A product of two 32-bit values fits in 64 bits. */
  lemma ProductFits(a: U32, b: U32)
    ensures 0 <= a * b < TWO64
  {
    MulMono(a, 0xFFFF_FFFF, b);
    MulMono(0, a, b);
  }

  /** Square-and-multiply is true exponentiation, for every base and exponent. */
  method PowMod(base: U32, exp: U64) returns (out: Felt)
    ensures out == Power(base, exp) % FIELD_MOD
  {
    var b: U32, e: U64 := base, exp;
    out := 1;
    while e > 0
      invariant Cong(out * Power(b, e), Power(base, exp))
    {
      ghost var before := out * Power(b, e);
      SquareAndMultiply(out, b, e, MulMod(out, b), MulMod(b, b));
      if e % 2 == 1 {
        out := MulMod(out, b);
      }
      b := MulMod(b, b);
      e := e / 2;
      CongTrans(out * Power(b, e), before, Power(base, exp));
    }
    assert out * Power(b, e) == out;
  }

  /** One turn of the loop in `PowMod` keeps `out * b^e` modulo the field. */
  lemma SquareAndMultiply(out: nat, b: nat, e: nat, product: nat, square: nat)
    requires e > 0 && Cong(product, out * b) && Cong(square, b * b)
    ensures Cong((if e % 2 == 1 then product else out) * Power(square, e / 2), out * Power(b, e))
  {
    var h := e / 2;
    PowerCong(square, b * b, h);
    PowerSquare(b, h);
    if e % 2 == 1 {
      OddTurn(product, out, b, Power(square, h), Power(b, 2 * h));
      assert e == 2 * h + 1;
    } else {
      CongMul(Power(square, h), Power(b, e), out);
    }
  }

  lemma OddTurn(out': int, out: int, b: int, r: int, s: int)
    requires Cong(out', out * b) && Cong(r, s)
    ensures Cong(out' * r, out * (b * s))
  {
    CongMul2(out', out * b, r, s);
    Reassociate(out, b, s);
  }

  lemma Reassociate(x: int, y: int, z: int)
    ensures (x * y) * z == x * (y * z)
  {
  }

  lemma {:induction false} PowerCong(a: nat, b: nat, n: nat)
    requires Cong(a, b)
    ensures Cong(Power(a, n), Power(b, n))
  {
    if n > 0 {
      PowerCong(a, b, n - 1);
      CongMul2(a, b, Power(a, n - 1), Power(b, n - 1));
    }
  }

  // ----- inverses -----

  /** The value `inv_mod` computes for a non-zero argument: `x^(p-2)`. */
  function Inverse(x: nat): (r: Felt)
  {
    Power(x, FIELD_MOD - 2) % FIELD_MOD
  }

  method InvMod(x: U32) returns (r: Outcome<Felt>)
    ensures x == 0 <==> r == Throw("inverse_of_zero")
    ensures x != 0 ==> r == Ok(Inverse(x))
    ensures x % FIELD_MOD != 0 ==> Cong(x * r.value, 1)
  {
    if x == 0 {
      return Throw("inverse_of_zero");
    }
    var y := PowMod(x, FIELD_MOD - 2);
    if x % FIELD_MOD != 0 {
      InverseCorrect(x);
    }
    return Ok(y);
  }

  /** `x^(p-2)` is the multiplicative inverse of every `x` that is not a multiple of `p`. */
  lemma InverseCorrect(x: nat)
    requires !Cong(x, 0)
    ensures Cong(x * Inverse(x), 1)
  {
    FermatPrime();
    Fermat(65537, x);
    InverseStep(x, FIELD_MOD - 2);
  }

  lemma InverseStep(x: nat, n: nat)
    requires Power(x, n + 1) % 65537 == 1
    ensures Cong(x * (Power(x, n) % 65537), 1)
  {
    hide Cong;
    var r := Power(x, n) % 65537;
    ResidueOf(Power(x, n));
    CongMul(r, Power(x, n), x);
    ResidueCong(Power(x, n + 1), 1);
    CongTrans(x * r, Power(x, n + 1), 1);
  }

  /** ... and it is the only field value with that property. */
  lemma InverseUnique(x: nat, y: Felt)
    requires Cong(x * y, 1)
    ensures y == Inverse(x)
  {
    hide Cong, Inverse;
    var inverse := Inverse(x);
    if Cong(x, 0) {
      CongMul(x, 0, y);
      ZeroIsNotOne(x * y);
    } else {
      InverseCorrect(x);
      Difference(x, y, inverse);
      CongDifference(x * y, x * inverse, 1);
      CongProductZero(x, y - inverse);
      SameFelt(y, inverse);
    }
  }

  lemma ZeroIsNotOne(a: int)
    ensures !(Cong(a, 0) && Cong(a, 1))
  {
  }

  lemma SameFelt(a: Felt, b: Felt)
    requires Cong(a - b, 0)
    ensures a == b
  {
  }

  lemma Difference(x: int, y: int, z: int)
    ensures x * y - x * z == x * (y - z)
  {
  }
}
