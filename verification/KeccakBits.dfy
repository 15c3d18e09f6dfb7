/**
 Keccak-256 bit by bit: the step mappings, the permutation and the sponge of
 FIPS 202 on the state bits `A[x, y, z]`, and the lanes of the code as their image.
 */
module KeccakBits {
  import opened NumberTheory
  import opened Octets
  import opened Keccak

  // ----- bits of lanes -----

  function Half(a: Lane): Lane { a >> 1 }

  predicate Low(a: Lane) { a & 1 == 1 }

  /** Bit `z` of a lane. */
  predicate Bit(a: Lane, z: nat)
  {
    if z == 0 then Low(a) else Bit(Half(a), z - 1)
  }

  lemma XorLow(a: Lane, b: Lane)
    ensures Low(Xor(a, b)) == (Low(a) != Low(b))
  {
  }

  lemma XorHalf(a: Lane, b: Lane)
    ensures Half(Xor(a, b)) == Xor(Half(a), Half(b))
  {
  }

  lemma {:induction false} BitXor(a: Lane, b: Lane, z: nat)
    ensures Bit(Xor(a, b), z) == (Bit(a, z) != Bit(b, z))
    decreases z
  {
    hide Xor, Half, Low;
    XorLow(a, b);
    XorHalf(a, b);
    if z > 0 {
      BitXor(Half(a), Half(b), z - 1);
    }
  }

  lemma AndNotLow(a: Lane, b: Lane)
    ensures Low(AndNot(a, b)) == (!Low(a) && Low(b))
  {
  }

  lemma AndNotHalf(a: Lane, b: Lane)
    ensures Half(AndNot(a, b)) == AndNot(Half(a), Half(b))
  {
  }

  lemma {:induction false} BitAndNot(a: Lane, b: Lane, z: nat)
    ensures Bit(AndNot(a, b), z) == (!Bit(a, z) && Bit(b, z))
    decreases z
  {
    hide AndNot, Half, Low;
    AndNotLow(a, b);
    AndNotHalf(a, b);
    if z > 0 {
      BitAndNot(Half(a), Half(b), z - 1);
    }
  }

  lemma ZeroHalf()
    ensures Half(0) == 0 && !Low(0)
  {
  }

  lemma {:induction false} BitZero(z: nat)
    ensures !Bit(0, z)
  {
    hide Half, Low;
    ZeroHalf();
    if z > 0 {
      BitZero(z - 1);
    }
  }

  // ----- shifting out groups of bits -----

  function Drop2(a: Lane): Lane { a >> 2 }

  function Drop4(a: Lane): Lane { a >> 4 }

  function Drop8(a: Lane): Lane { a >> 8 }

  function Drop16(a: Lane): Lane { a >> 16 }

  function Drop32(a: Lane): Lane { a >> 32 }

  lemma DropTwice1(a: Lane)
    ensures Half(Half(a)) == Drop2(a)
  {
  }

  lemma DropTwice2(a: Lane)
    ensures Drop2(Drop2(a)) == Drop4(a)
  {
  }

  lemma DropTwice4(a: Lane)
    ensures Drop4(Drop4(a)) == Drop8(a)
  {
  }

  lemma DropTwice8(a: Lane)
    ensures Drop8(Drop8(a)) == Drop16(a)
  {
  }

  lemma DropTwice16(a: Lane)
    ensures Drop16(Drop16(a)) == Drop32(a)
  {
  }

  lemma BitDrop2(a: Lane, z: nat)
    ensures Bit(a, z + 2) == Bit(Drop2(a), z)
  {
    hide Half, Low, Drop2;
    DropTwice1(a);
    assert Bit(a, z + 2) == Bit(Half(a), z + 1);
  }

  lemma BitDrop4(a: Lane, z: nat)
    ensures Bit(a, z + 4) == Bit(Drop4(a), z)
  {
    hide Bit, Drop2, Drop4;
    DropTwice2(a);
    BitDrop2(a, z + 2);
    BitDrop2(Drop2(a), z);
  }

  lemma BitDrop8(a: Lane, z: nat)
    ensures Bit(a, z + 8) == Bit(Drop8(a), z)
  {
    hide Bit, Drop4, Drop8;
    DropTwice4(a);
    BitDrop4(a, z + 4);
    BitDrop4(Drop4(a), z);
  }

  lemma BitDrop16(a: Lane, z: nat)
    ensures Bit(a, z + 16) == Bit(Drop16(a), z)
  {
    hide Bit, Drop8, Drop16;
    DropTwice8(a);
    BitDrop8(a, z + 8);
    BitDrop8(Drop8(a), z);
  }

  lemma BitDrop32(a: Lane, z: nat)
    ensures Bit(a, z + 32) == Bit(Drop32(a), z)
  {
    hide Bit, Drop16, Drop32;
    DropTwice16(a);
    BitDrop16(a, z + 16);
    BitDrop16(Drop16(a), z);
  }

  lemma BitOne(a: Lane)
    ensures Bit(a, 1) == Low(Half(a))
  {
    hide Half, Low;
  }

  lemma TopBit(a: Lane)
    ensures Bit(a, 63) == Low(Half(Drop2(Drop4(Drop8(Drop16(Drop32(a)))))))
  {
    hide Bit, Half, Low, Drop2, Drop4, Drop8, Drop16, Drop32;
    BitDrop32(a, 31);
    BitDrop16(Drop32(a), 15);
    BitDrop8(Drop16(Drop32(a)), 7);
    BitDrop4(Drop8(Drop16(Drop32(a))), 3);
    BitDrop2(Drop4(Drop8(Drop16(Drop32(a)))), 1);
    BitOne(Drop2(Drop4(Drop8(Drop16(Drop32(a))))));
  }

  lemma TopOfHalf(a: Lane)
    ensures Low(Half(Drop2(Drop4(Drop8(Drop16(Drop32(a))))))) == Low(TopDown(a))
  {
  }

  // ----- the top bit alone -----

  predicate Zero2(a: Lane) { a & 3 == 0 }

  predicate Zero4(a: Lane) { a & 0xf == 0 }

  predicate Zero8(a: Lane) { a & 0xff == 0 }

  predicate Zero16(a: Lane) { a & 0xffff == 0 }

  predicate Zero32(a: Lane) { a & 0xffff_ffff == 0 }

  lemma ZeroLow2(a: Lane, z: nat)
    requires Zero2(a) && z < 2
    ensures !Bit(a, z)
  {
    assert !Low(a) && !Low(Half(a));
  }

  lemma ZeroParts4(a: Lane)
    requires Zero4(a)
    ensures Zero2(a) && Zero2(Drop2(a))
  {
  }

  lemma ZeroLow4(a: Lane, z: nat)
    requires Zero4(a) && z < 4
    ensures !Bit(a, z)
  {
    hide Bit, Zero2, Zero4, Drop2;
    ZeroParts4(a);
    if z < 2 {
      ZeroLow2(a, z);
    } else {
      BitDrop2(a, z - 2);
      ZeroLow2(Drop2(a), z - 2);
    }
  }

  lemma ZeroParts8(a: Lane)
    requires Zero8(a)
    ensures Zero4(a) && Zero4(Drop4(a))
  {
  }

  lemma ZeroLow8(a: Lane, z: nat)
    requires Zero8(a) && z < 8
    ensures !Bit(a, z)
  {
    hide Bit, Zero4, Zero8, Drop4;
    ZeroParts8(a);
    if z < 4 {
      ZeroLow4(a, z);
    } else {
      BitDrop4(a, z - 4);
      ZeroLow4(Drop4(a), z - 4);
    }
  }

  lemma ZeroParts16(a: Lane)
    requires Zero16(a)
    ensures Zero8(a) && Zero8(Drop8(a))
  {
  }

  lemma ZeroLow16(a: Lane, z: nat)
    requires Zero16(a) && z < 16
    ensures !Bit(a, z)
  {
    hide Bit, Zero8, Zero16, Drop8;
    ZeroParts16(a);
    if z < 8 {
      ZeroLow8(a, z);
    } else {
      BitDrop8(a, z - 8);
      ZeroLow8(Drop8(a), z - 8);
    }
  }

  lemma ZeroParts32(a: Lane)
    requires Zero32(a)
    ensures Zero16(a) && Zero16(Drop16(a))
  {
  }

  lemma ZeroLow32(a: Lane, z: nat)
    requires Zero32(a) && z < 32
    ensures !Bit(a, z)
  {
    hide Bit, Zero16, Zero32, Drop16;
    ZeroParts32(a);
    if z < 16 {
      ZeroLow16(a, z);
    } else {
      BitDrop16(a, z - 16);
      ZeroLow16(Drop16(a), z - 16);
    }
  }

  lemma TopDrops()
    ensures Zero32(0x8000_0000_0000_0000) && Drop32(0x8000_0000_0000_0000) == 0x8000_0000
    ensures Zero16(0x8000_0000) && Drop16(0x8000_0000) == 0x8000
    ensures Zero8(0x8000) && Drop8(0x8000) == 0x80
    ensures Zero4(0x80) && Drop4(0x80) == 8
    ensures Zero2(8) && Drop2(8) == 2 && !Low(2)
  {
  }

  lemma TopOnly(z: nat)
    requires z < 63
    ensures !Bit(0x8000_0000_0000_0000, z)
  {
    hide Drop2, Drop4, Drop8, Drop16, Drop32, Zero2, Zero4, Zero8, Zero16, Zero32, Low, Half;
    TopDrops();
    if z < 32 {
      ZeroLow32(0x8000_0000_0000_0000, z);
    } else if z < 48 {
      BitDrop32(0x8000_0000_0000_0000, z - 32);
      ZeroLow16(0x8000_0000, z - 32);
    } else if z < 56 {
      BitDrop32(0x8000_0000_0000_0000, z - 32);
      BitDrop16(0x8000_0000, z - 48);
      ZeroLow8(0x8000, z - 48);
    } else {
      BitDrop32(0x8000_0000_0000_0000, z - 32);
      BitDrop16(0x8000_0000, z - 48);
      BitDrop8(0x8000, z - 56);
      LastByte(z - 56);
    }
  }

  lemma LastByte(z: nat)
    requires z < 7
    ensures !Bit(0x80, z)
  {
    hide Drop2, Drop4, Zero2, Zero4, Low, Half;
    TopDrops();
    if z < 4 {
      ZeroLow4(0x80, z);
    } else {
      BitDrop4(0x80, z - 4);
      if z < 6 {
        ZeroLow2(8, z - 4);
      } else {
        BitDrop2(8, 0);
      }
    }
  }

  // ----- rotation -----

  function RotOne(a: Lane): Lane
  {
    (a << 1) | (a >> 63)
  }

  function TopDown(a: Lane): Lane { a >> 63 }

  function TopPart(a: Lane): Lane
  {
    a & 0x8000_0000_0000_0000
  }

  lemma RotOneLow(a: Lane)
    ensures Low(RotOne(a)) == Low(TopDown(a))
  {
  }

  lemma RotOneHalf(a: Lane)
    ensures Half(RotOne(a)) == Xor(a, TopPart(a))
  {
  }

  lemma TopOrNothing(a: Lane)
    ensures TopPart(a) == 0x8000_0000_0000_0000 || TopPart(a) == 0
  {
  }

  lemma BitRotOneLow(a: Lane)
    ensures Bit(RotOne(a), 0) == Bit(a, 63)
  {
    hide RotOne, Half, Low, TopDown, Drop2, Drop4, Drop8, Drop16, Drop32;
    RotOneLow(a);
    TopBit(a);
    TopOfHalf(a);
  }

  lemma BitRotOneRest(a: Lane, z: nat)
    requires 0 < z < 64
    ensures Bit(RotOne(a), z) == Bit(a, z - 1)
  {
    hide RotOne, Xor, Half, Low, TopPart;
    RotOneHalf(a);
    BitXor(a, TopPart(a), z - 1);
    TopPartBits(a, z - 1);
  }

  function Below(z: nat): nat
    requires z < 64
  {
    if z == 0 then 63 else z - 1
  }

  /** Rotating by one moves every bit one place up, and the top bit to the bottom. */
  lemma BitRotOne(a: Lane, z: nat)
    requires z < 64
    ensures Bit(RotOne(a), z) == Bit(a, Below(z))
  {
    hide RotOne, Bit;
    if z == 0 {
      BitRotOneLow(a);
    } else {
      BitRotOneRest(a, z);
    }
  }

  lemma TopPartBits(a: Lane, z: nat)
    requires z < 63
    ensures !Bit(TopPart(a), z)
  {
    hide TopPart, Bit;
    TopOrNothing(a);
    BitZero(z);
    TopOnly(z);
  }

  lemma NextAmount(n: nat)
    requires n < 63
    ensures (n + 1) as bv7 == (n as bv7) + 1
  {
    var b := n as bv7;
    AmountUp(b);
    assert (b + 1) as nat == n + 1;
  }

  lemma AmountUp(b: bv7)
    requires b < 63
    ensures (b + 1) as nat == b as nat + 1
  {
  }

  lemma SmallAmount(n: nat)
    requires n < 63
    ensures (n as bv7) < 63
  {
  }

  function Up(a: Lane, w: bv7): Lane
    requires w <= 64
  {
    a << w
  }

  function Down(a: Lane, w: bv7): Lane
    requires w <= 64
  {
    a >> w
  }

  function Double(a: Lane): Lane { a << 1 }

  function LowLane(a: Lane): Lane { a & 1 }

  function Or(a: Lane, b: Lane): Lane { a | b }

  lemma ShiftUpOn(a: Lane, w: bv7)
    requires w < 63
    ensures (a << w) << 1 == a << (w + 1)
  {
  }

  lemma UpMore(a: Lane, w: bv7)
    requires w < 63
    ensures Double(Up(a, w)) == Up(a, w + 1)
  {
    ShiftUpOn(a, w);
  }

  lemma ShiftDownOn(a: Lane, u: bv7)
    requires u < 64
    ensures (a >> u) >> 1 == a >> (u + 1)
  {
  }

  lemma DownRest(a: Lane, u: bv7)
    requires u < 64 && u + 1 <= 64
    ensures Half(Down(a, u)) == Down(a, u + 1)
  {
    ShiftDownOn(a, u);
  }

  lemma DownLow(a: Lane, w: bv7)
    requires w < 63
    ensures LowLane(Down(a, 63 - w)) == TopDown(Up(a, w))
  {
  }

  lemma DownTop(a: Lane, w: bv7)
    requires w < 63
    ensures TopDown(Down(a, 64 - w)) == 0
  {
  }

  /** Two parts that do not overlap, moved on by one place. */
  lemma MovedOn(l: Lane, r: Lane, x: Lane)
    requires Half(x) == r && LowLane(x) == TopDown(l) && TopDown(r) == 0
    ensures Or(Double(l), x) == RotOne(Or(l, r))
  {
  }

  lemma AmountsLeft(w: bv7)
    requires w < 63
    ensures 64 - (w + 1) == 63 - w && (63 - w) + 1 == 64 - w && 63 - w < 64
  {
  }

  lemma AmountFits(w: bv7)
    requires w < 63
    ensures w + 1 <= 64
  {
  }

  lemma AsParts(a: Lane, w: bv7)
    requires w <= 64
    ensures Rotated(a, w) == Or(Up(a, w), Down(a, 64 - w))
  {
  }

  lemma RotatedOn(a: Lane, w: bv7)
    requires w < 63
    ensures w + 1 <= 64
    ensures Rotated(a, w + 1) == RotOne(Rotated(a, w))
  {
    hide RotOne, Up, Down, Rotated, Or, Double, Half, LowLane, TopDown;
    AmountFits(w);
    AmountsLeft(w);
    AsParts(a, w);
    AsParts(a, w + 1);
    UpMore(a, w);
    DownRest(a, 63 - w);
    DownLow(a, w);
    DownTop(a, w);
    MovedOn(Up(a, w), Down(a, 64 - w), Down(a, 63 - w));
  }

  /** One more place. */
  lemma RotStep(a: Lane, n: nat)
    requires n < 63
    ensures RotL(a, n + 1) == RotOne(RotL(a, n))
  {
    hide RotOne, Rotated;
    NextAmount(n);
    SmallAmount(n);
    RotatedOn(a, n as bv7);
  }

  lemma RotNone(a: Lane)
    ensures RotL(a, 0) == a
  {
  }

  /** Rotation by `n` moves bit `z - n`, modulo 64, to place `z`. */
  lemma {:induction false} BitRotL(a: Lane, n: nat, z: nat)
    requires n < 64 && z < 64
    ensures Bit(RotL(a, n), z) == Bit(a, (z - n) % 64)
  {
    hide Bit, RotL, RotOne;
    if n == 0 {
      RotNone(a);
    } else {
      RotStep(a, n - 1);
      BitRotOne(RotL(a, n - 1), z);
      BitRotL(a, n - 1, Below(z));
      PlacesAdd(z, n);
    }
  }

  lemma PlacesAdd(z: nat, n: nat)
    requires 0 < n < 64 && z < 64
    ensures (Below(z) - (n - 1)) % 64 == (z - n) % 64
  {
  }
}
