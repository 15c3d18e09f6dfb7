/**
 Keccak-256 as FIPS 202 defines it on the bits `A[x, y, z]` and on bit strings,
 and the proof that the lane form of the code computes exactly that.
 */
module KeccakCube {
  import opened NumberTheory
  import opened Octets
  import opened Keccak
  import opened KeccakBits

  /** Section 3.1: the bit `A[x, y, z]`. */
  type Cube = (nat, nat, nat) -> bool

  predicate Inside(x: nat, y: nat, z: nat)
  {
    x < 5 && y < 5 && z < 64
  }

  /** The bits of a state of lanes. */
  function CubeOf(a: State): Cube
  {
    (x: nat, y: nat, z: nat) => x < 5 && y < 5 && Bit(a[x + 5 * y], z)
  }

  ghost predicate Same(A: Cube, B: Cube)
  {
    forall x: nat, y: nat, z: nat :: Inside(x, y, z) ==> A(x, y, z) == B(x, y, z)
  }

  /** The sum of two bits. */
  function Plus(a: bool, b: bool): bool
  {
    a != b
  }

  /** First and second coordinates are taken modulo 5, the third modulo 64. */
  function Mod5(x: nat): (r: nat)
    ensures r < 5
  {
    x % 5
  }

  function Mod64(z: int): (r: nat)
    ensures r < 64
  {
    z % 64
  }

  // ----- section 3.2: the step mappings on bits -----

  /** `C[x, z]` of algorithm 1. */
  function ColumnParity(A: Cube, x: nat, z: nat): bool
  {
    Plus(Plus(Plus(Plus(A(x, 0, z), A(x, 1, z)), A(x, 2, z)), A(x, 3, z)), A(x, 4, z))
  }

  /** Algorithm 1. */
  function ThetaAt(A: Cube, x: nat, y: nat, z: nat): bool
  {
    Plus(A(x, y, z), Plus(ColumnParity(A, Mod5(x + 4), z), ColumnParity(A, Mod5(x + 1), Mod64(z - 1))))
  }

  function ThetaCube(A: Cube): Cube
  {
    (x: nat, y: nat, z: nat) => ThetaAt(A, x, y, z)
  }

  /** Algorithm 2: lane `(x, y)` is reached at step `t` of the walk and moves by `(t + 1)(t + 2) / 2`; the centre stays. */
  function RhoOffset(x: nat, y: nat): nat
    requires x < 5 && y < 5
  {
    if x == 0 && y == 0 then 0 else var t := VISIT[x + 5 * y]; (t + 1) * (t + 2) / 2
  }

  function RhoCube(A: Cube): Cube
  {
    (x: nat, y: nat, z: nat) => x < 5 && y < 5 && A(x, y, Mod64(z - RhoOffset(x, y)))
  }

  function PiColumn(x: nat, y: nat): (r: nat)
    ensures r < 5
  {
    (x + 3 * y) % 5
  }

  /** Algorithm 3. */
  function PiCube(A: Cube): Cube
  {
    (x: nat, y: nat, z: nat) => A(PiColumn(x, y), x, z)
  }

  /** Algorithm 4. */
  function ChiAt(A: Cube, x: nat, y: nat, z: nat): bool
  {
    Plus(A(x, y, z), Plus(A(Mod5(x + 1), y, z), true) && A(Mod5(x + 2), y, z))
  }

  function ChiCube(A: Cube): Cube
  {
    (x: nat, y: nat, z: nat) => ChiAt(A, x, y, z)
  }

  /** Algorithm 6, with the round constant as a lane. */
  function IotaCube(A: Cube, constant: Lane): Cube
  {
    (x: nat, y: nat, z: nat) => if x == 0 && y == 0 then Plus(A(x, y, z), Bit(constant, z)) else A(x, y, z)
  }

  function RoundCube(A: Cube, round: nat): Cube
    requires round < 24
  {
    IotaCube(ChiCube(PiCube(RhoCube(ThetaCube(A)))), ConstantOf(Register(round)))
  }

  /** Keccak-f[1600] after its first rounds. */
  function PermutedCube(A: Cube, rounds: nat): Cube
    requires rounds <= 24
  {
    if rounds == 0 then A else RoundCube(PermutedCube(A, rounds - 1), rounds - 1)
  }

  // ----- equal cubes have equal images -----

  lemma ThetaSame(A: Cube, B: Cube)
    requires Same(A, B)
    ensures Same(ThetaCube(A), ThetaCube(B))
  {
    hide Plus, ColumnParity, Mod5, Mod64;
    forall x: nat, y: nat, z: nat | Inside(x, y, z) ensures ThetaAt(A, x, y, z) == ThetaAt(B, x, y, z) {
      ParitySame(A, B, Mod5(x + 4), z);
      ParitySame(A, B, Mod5(x + 1), Mod64(z - 1));
    }
  }

  lemma ParitySame(A: Cube, B: Cube, x: nat, z: nat)
    requires Same(A, B) && x < 5 && z < 64
    ensures ColumnParity(A, x, z) == ColumnParity(B, x, z)
  {
    hide Plus;
    assert Inside(x, 0, z) && Inside(x, 1, z) && Inside(x, 2, z) && Inside(x, 3, z) && Inside(x, 4, z);
  }

  lemma RhoSame(A: Cube, B: Cube)
    requires Same(A, B)
    ensures Same(RhoCube(A), RhoCube(B))
  {
    hide RhoOffset, Mod64;
    forall x: nat, y: nat, z: nat | Inside(x, y, z) ensures RhoCube(A)(x, y, z) == RhoCube(B)(x, y, z) {
      assert Inside(x, y, Mod64(z - RhoOffset(x, y)));
    }
  }

  lemma PiSame(A: Cube, B: Cube)
    requires Same(A, B)
    ensures Same(PiCube(A), PiCube(B))
  {
    hide PiColumn;
    forall x: nat, y: nat, z: nat | Inside(x, y, z) ensures PiCube(A)(x, y, z) == PiCube(B)(x, y, z) {
      assert Inside(PiColumn(x, y), x, z);
    }
  }

  lemma ChiSame(A: Cube, B: Cube)
    requires Same(A, B)
    ensures Same(ChiCube(A), ChiCube(B))
  {
    hide Plus, Mod5;
    forall x: nat, y: nat, z: nat | Inside(x, y, z) ensures ChiAt(A, x, y, z) == ChiAt(B, x, y, z) {
      assert Inside(Mod5(x + 1), y, z) && Inside(Mod5(x + 2), y, z);
    }
  }

  lemma IotaSame(A: Cube, B: Cube, constant: Lane)
    requires Same(A, B)
    ensures Same(IotaCube(A, constant), IotaCube(B, constant))
  {
    hide Plus, Bit;
  }

  lemma SameTrans(A: Cube, B: Cube, C: Cube)
    requires Same(A, B) && Same(B, C)
    ensures Same(A, C)
  {
  }

  // ----- the lane forms on bits -----

  lemma ColumnBits(a: State, x: nat, z: nat)
    requires x < 5 && z < 64
    ensures Bit(Column(a, x), z) == ColumnParity(CubeOf(a), x, z)
  {
    hide Xor, Bit;
    var c1 := Xor(a[x], a[x + 5]);
    var c2 := Xor(c1, a[x + 10]);
    var c3 := Xor(c2, a[x + 15]);
    BitXor(a[x], a[x + 5], z);
    BitXor(c1, a[x + 10], z);
    BitXor(c2, a[x + 15], z);
    BitXor(c3, a[x + 20], z);
  }

  lemma ParityBits(a: State, x: nat, z: nat)
    requires x < 5 && z < 64
    ensures Bit(Parity(a, x), z)
         == Plus(ColumnParity(CubeOf(a), Mod5(x + 4), z), ColumnParity(CubeOf(a), Mod5(x + 1), Mod64(z - 1)))
  {
    hide Xor, Bit, RotL, Column, ColumnParity;
    var b, c := Column(a, Mod5(x + 4)), Column(a, Mod5(x + 1));
    BitXor(b, RotL(c, 1), z);
    BitRotL(c, 1, z);
    ColumnBits(a, Mod5(x + 4), z);
    ColumnBits(a, Mod5(x + 1), Mod64(z - 1));
  }

  lemma LaneIndex(x: nat, y: nat)
    requires x < 5 && y < 5
    ensures (x + 5 * y) % 5 == x && (x + 5 * y) / 5 == y && x + 5 * y < 25
  {
  }

  lemma ThetaLane(a: State, x: nat, y: nat)
    requires x < 5 && y < 5
    ensures Theta(a)[x + 5 * y] == Xor(a[x + 5 * y], Parity(a, x))
  {
    hide Xor, Parity;
    LaneIndex(x, y);
  }

  /** Theta adds to each bit the parities of two columns. */
  lemma ThetaBits(a: State)
    ensures Same(CubeOf(Theta(a)), ThetaCube(CubeOf(a)))
  {
    hide Xor, Bit, Parity, ColumnParity, Theta, Mod5, Mod64;
    forall x: nat, y: nat, z: nat | Inside(x, y, z) ensures CubeOf(Theta(a))(x, y, z) == ThetaAt(CubeOf(a), x, y, z) {
      ThetaLane(a, x, y);
      BitXor(a[x + 5 * y], Parity(a, x), z);
      ParityBits(a, x, z);
    }
  }

  lemma VisitTable(t: nat)
    requires t < 24
    ensures VISIT[WalkLane(t)] == t
  {
    hide WalkLane, Offset;
    Tables(t);
  }

  lemma RhoLane(a: State, x: nat, y: nat)
    requires x < 5 && y < 5
    ensures Rho(a)[x + 5 * y] == RotL(a[x + 5 * y], RhoOffset(x, y) % 64)
  {
    hide RotL, WalkLane;
    var l := x + 5 * y;
    RhoAt(a, 24, l);
    if l == 0 {
      forall t | 0 <= t < 24 ensures l != WalkLane(t) {
        CentreNotVisited(t);
      }
      RotNone(a[0]);
    } else {
      var t := Covered(l);
      VisitTable(t);
    }
  }

  lemma Modulo64(z: nat, n: nat)
    ensures (z - n % 64) % 64 == Mod64(z - n)
  {
    ModUnique(z - n, (z - n % 64) / 64 - n / 64, (z - n % 64) % 64, 64);
  }

  /** Rho moves each lane along `z` by the offset of the standard. */
  lemma RhoBits(a: State)
    ensures Same(CubeOf(Rho(a)), RhoCube(CubeOf(a)))
  {
    hide Bit, RotL, RhoOffset, Rho, Mod64;
    forall x: nat, y: nat, z: nat | Inside(x, y, z) ensures CubeOf(Rho(a))(x, y, z) == RhoCube(CubeOf(a))(x, y, z) {
      var n := RhoOffset(x, y);
      RhoLane(a, x, y);
      BitRotL(a[x + 5 * y], n % 64, z);
      Modulo64(z, n);
    }
  }

  lemma PiLane(a: State, x: nat, y: nat)
    requires x < 5 && y < 5
    ensures Pi(a)[x + 5 * y] == a[PiColumn(x, y) + 5 * x]
  {
    LaneIndex(x, y);
  }

  /** Pi takes each lane from `(x + 3y, x)`. */
  lemma PiBits(a: State)
    ensures Same(CubeOf(Pi(a)), PiCube(CubeOf(a)))
  {
    hide Bit, Pi, PiColumn;
    forall x: nat, y: nat, z: nat | Inside(x, y, z) ensures CubeOf(Pi(a))(x, y, z) == PiCube(CubeOf(a))(x, y, z) {
      PiLane(a, x, y);
    }
  }

  lemma ChiAtLane(a: State, x: nat, y: nat)
    requires x < 5 && y < 5
    ensures Chi(a)[x + 5 * y] == Xor(a[x + 5 * y], AndNot(a[Mod5(x + 1) + 5 * y], a[Mod5(x + 2) + 5 * y]))
  {
    hide Xor, AndNot;
    LaneIndex(x, y);
    RowAt(a, x, y);
    RowAt(a, Mod5(x + 1), y);
    RowAt(a, Mod5(x + 2), y);
  }

  lemma RowAt(a: State, x: nat, y: nat)
    requires x < 5 && y < 5
    ensures Row(a, y)[x] == a[x + 5 * y]
  {
  }

  lemma ChiBit(a: State, x: nat, y: nat, z: nat)
    requires Inside(x, y, z)
    ensures CubeOf(Chi(a))(x, y, z) == ChiAt(CubeOf(a), x, y, z)
  {
    hide Bit, Xor, AndNot, Chi, Mod5;
    var p, q := Mod5(x + 1), Mod5(x + 2);
    ChiAtLane(a, x, y);
    BitXor(a[x + 5 * y], AndNot(a[p + 5 * y], a[q + 5 * y]), z);
    BitAndNot(a[p + 5 * y], a[q + 5 * y], z);
  }

  /** Chi combines three bits of a row. */
  lemma ChiBits(a: State)
    ensures Same(CubeOf(Chi(a)), ChiCube(CubeOf(a)))
  {
    hide CubeOf, Chi, ChiAt;
    forall x: nat, y: nat, z: nat | Inside(x, y, z) ensures CubeOf(Chi(a))(x, y, z) == ChiAt(CubeOf(a), x, y, z) {
      ChiBit(a, x, y, z);
    }
  }

  /** Iota adds the round constant of the standard's shift register to the centre lane. */
  lemma IotaBits(a: State, round: nat)
    requires round < 24
    ensures Same(CubeOf(Iota(a, round)), IotaCube(CubeOf(a), ConstantOf(Register(round))))
  {
    hide Bit, Xor, ConstantOf, Register, Iota;
    RoundConstants(round);
    var constant := ConstantOf(Register(round));
    forall x: nat, y: nat, z: nat | Inside(x, y, z)
      ensures CubeOf(Iota(a, round))(x, y, z) == IotaCube(CubeOf(a), constant)(x, y, z)
    {
      IotaLane(a, round, x, y);
      BitXor(a[0], RC[round], z);
      assert CubeOf(Iota(a, round))(x, y, z) == Bit(Iota(a, round)[x + 5 * y], z);
      assert CubeOf(a)(x, y, z) == Bit(a[x + 5 * y], z);
      if x == 0 && y == 0 {
        assert x + 5 * y == 0;
        assert IotaCube(CubeOf(a), constant)(x, y, z) == Plus(Bit(a[0], z), Bit(constant, z));
      }
    }
  }

  lemma IotaLane(a: State, round: nat, x: nat, y: nat)
    requires round < 24 && x < 5 && y < 5
    ensures Iota(a, round)[x + 5 * y] == if x == 0 && y == 0 then Xor(a[0], RC[round]) else a[x + 5 * y]
  {
    hide Xor;
    assert x + 5 * y == 0 <==> x == 0 && y == 0;
  }

  lemma RoundBits(a: State, round: nat)
    requires round < 24
    ensures Same(CubeOf(Rnd(a, round)), RoundCube(CubeOf(a), round))
  {
    hide Same, CubeOf, Theta, Rho, Pi, Chi, Iota, ThetaCube, RhoCube, PiCube, ChiCube, IotaCube, ConstantOf, Register;
    var t := Theta(a);
    var r := Rho(t);
    var p := Pi(r);
    var c := Chi(p);
    var A := ThetaCube(CubeOf(a));
    var B := RhoCube(A);
    var C := PiCube(B);
    ThetaBits(a);
    RhoBits(t);
    RhoSame(CubeOf(t), A);
    SameTrans(CubeOf(r), RhoCube(CubeOf(t)), B);
    PiBits(r);
    PiSame(CubeOf(r), B);
    SameTrans(CubeOf(p), PiCube(CubeOf(r)), C);
    ChiBits(p);
    ChiSame(CubeOf(p), C);
    SameTrans(CubeOf(c), ChiCube(CubeOf(p)), ChiCube(C));
    var constant := ConstantOf(Register(round));
    IotaBits(c, round);
    IotaSame(CubeOf(c), ChiCube(C), constant);
    SameTrans(CubeOf(Rnd(a, round)), IotaCube(CubeOf(c), constant), IotaCube(ChiCube(C), constant));
  }

  lemma RoundSame(A: Cube, B: Cube, round: nat)
    requires round < 24 && Same(A, B)
    ensures Same(RoundCube(A, round), RoundCube(B, round))
  {
    hide Same, ThetaCube, RhoCube, PiCube, ChiCube, IotaCube, ConstantOf, Register;
    ThetaSame(A, B);
    RhoSame(ThetaCube(A), ThetaCube(B));
    PiSame(RhoCube(ThetaCube(A)), RhoCube(ThetaCube(B)));
    ChiSame(PiCube(RhoCube(ThetaCube(A))), PiCube(RhoCube(ThetaCube(B))));
    IotaSame(ChiCube(PiCube(RhoCube(ThetaCube(A)))), ChiCube(PiCube(RhoCube(ThetaCube(B)))), ConstantOf(Register(round)));
  }

  lemma {:induction false} PermutedSame(A: Cube, B: Cube, rounds: nat)
    requires rounds <= 24 && Same(A, B)
    ensures Same(PermutedCube(A, rounds), PermutedCube(B, rounds))
  {
    hide Same, RoundCube;
    if rounds > 0 {
      PermutedSame(A, B, rounds - 1);
      RoundSame(PermutedCube(A, rounds - 1), PermutedCube(B, rounds - 1), rounds - 1);
    }
  }

  lemma PermutedNext(a: State, rounds: nat)
    requires 0 < rounds <= 24
    ensures Permuted(a, rounds) == Rnd(Permuted(a, rounds - 1), rounds - 1)
  {
    hide Rnd;
  }

  lemma PermutedCubeNext(A: Cube, rounds: nat)
    requires 0 < rounds <= 24
    ensures PermutedCube(A, rounds) == RoundCube(PermutedCube(A, rounds - 1), rounds - 1)
  {
    hide RoundCube;
  }

  lemma NoRounds(a: State)
    ensures Same(CubeOf(Permuted(a, 0)), PermutedCube(CubeOf(a), 0))
  {
  }

  /** The permutation of the code is Keccak-f[1600] of the standard, bit for bit. */
  lemma {:induction false} PermutationBits(a: State, rounds: nat)
    requires rounds <= 24
    ensures Same(CubeOf(Permuted(a, rounds)), PermutedCube(CubeOf(a), rounds))
  {
    hide Same, RoundCube, Rnd, CubeOf, Permuted, PermutedCube;
    if rounds == 0 {
      NoRounds(a);
    } else {
      var b := Permuted(a, rounds - 1);
      PermutedNext(a, rounds);
      PermutedCubeNext(CubeOf(a), rounds);
      PermutationBits(a, rounds - 1);
      RoundBits(b, rounds - 1);
      RoundSame(CubeOf(b), PermutedCube(CubeOf(a), rounds - 1), rounds - 1);
      SameTrans(CubeOf(Permuted(a, rounds)), RoundCube(CubeOf(b), rounds - 1), PermutedCube(CubeOf(a), rounds));
    }
  }

  // ----- bytes in lanes -----

  lemma OctetLow(b: Octet)
    ensures BitsOf(b)[0] == Low(b as Lane)
  {
  }

  lemma OctetHalf(b: Octet)
    ensures Half(b as Lane) == (b >> 1) as Lane
  {
  }

  lemma OctetShift(b: Octet, j: nat)
    requires 0 < j < 8
    ensures BitsOf(b)[j] == BitsOf(b >> 1)[j - 1]
  {
  }

  /** A byte keeps its bits when it is widened. */
  lemma {:induction false} OctetBits(b: Octet, j: nat)
    requires j < 8
    ensures Bit(b as Lane, j) == BitsOf(b)[j]
    decreases j
  {
    hide Low, Half, BitsOf;
    OctetLow(b);
    OctetHalf(b);
    if j > 0 {
      OctetShift(b, j);
      OctetBits(b >> 1, j - 1);
    }
  }

  lemma OctetDrop(b: Octet)
    ensures Drop8(b as Lane) == 0
  {
  }

  lemma NextByte(k: nat)
    requires k < 7
    ensures (k + 1) as bv7 == (k as bv7) + 1 && (k as bv7) < 7
  {
  }

  lemma ShiftOneByte(b: Octet, v: bv7)
    requires v < 7
    ensures ((b as Lane) << (8 * (v + 1))) >> 8 == (b as Lane) << (8 * v)
  {
  }

  lemma ShiftLeavesZeros(b: Octet, v: bv7)
    requires v < 7
    ensures ((b as Lane) << (8 * (v + 1))) & 0xff == 0
  {
  }

  lemma DropIn(b: Octet, k: nat)
    requires k < 7
    ensures Drop8(ShiftIn(b, k + 1)) == ShiftIn(b, k)
  {
    NextByte(k);
    ShiftOneByte(b, k as bv7);
  }

  lemma ZeroIn(b: Octet, k: nat)
    requires k < 7
    ensures Zero8(ShiftIn(b, k + 1))
  {
    NextByte(k);
    ShiftLeavesZeros(b, k as bv7);
  }

  lemma ShiftNone(b: Octet)
    ensures ShiftIn(b, 0) == b as Lane
  {
  }

  /** Shifted in at place `k`, a byte fills bits `8k` to `8k + 7` of the lane. */
  lemma {:induction false} ShiftInBits(b: Octet, k: nat, z: nat)
    requires k < 8 && z < 64
    ensures Bit(ShiftIn(b, k), z) == (8 * k <= z < 8 * k + 8 && BitsOf(b)[z - 8 * k])
    decreases k
  {
    hide ShiftIn, Bit, BitsOf, Drop8, Zero8;
    if k == 0 {
      ShiftNone(b);
      if z < 8 {
        OctetBits(b, z);
      } else {
        BitDrop8(b as Lane, z - 8);
        OctetDrop(b);
        BitZero(z - 8);
      }
    } else if z < 8 {
      ZeroIn(b, k - 1);
      ZeroLow8(ShiftIn(b, k), z);
    } else {
      DropIn(b, k - 1);
      BitDrop8(ShiftIn(b, k), z - 8);
      ShiftInBits(b, k - 1, z - 8);
    }
  }

  /** The lane of a block has the block's bits, lowest bit of the first byte first. */
  lemma {:induction false} LaneBits(block: seq<Octet>, l: nat, n: nat, z: nat)
    requires n <= 8 && 8 * l + n <= |block| && z < 64
    ensures Bit(LaneOf(block, l, n), z) == (z < 8 * n && BitsOf(block[8 * l + z / 8])[z % 8])
  {
    hide ShiftIn, Bit, BitsOf, Xor;
    if n == 0 {
      BitZero(z);
    } else {
      var b := block[8 * l + n - 1];
      LaneBits(block, l, n - 1, z);
      BitXor(LaneOf(block, l, n - 1), ShiftIn(b, n - 1), z);
      ShiftInBits(b, n - 1, z);
      assert 8 * (n - 1) <= z < 8 * n ==> z / 8 == n - 1 && z % 8 == z - 8 * (n - 1);
    }
  }

  lemma {:induction false} BitsAt(b: seq<Octet>, i: nat)
    requires i < 8 * |b|
    ensures Bits(b)[i] == BitsOf(b[i / 8])[i % 8]
  {
    hide BitsOf;
    if i < 8 * (|b| - 1) {
      BitsAt(b[..|b| - 1], i);
    } else {
      assert i / 8 == |b| - 1 && i % 8 == i - 8 * (|b| - 1);
    }
  }

  lemma NextByteOut(a: Lane, v: bv7)
    requires v < 7
    ensures (a >> (8 * (v + 1))) & 0xff == ((a >> 8) >> (8 * v)) & 0xff
  {
  }

  lemma ByteDrop(a: Lane, k: nat)
    requires k < 7
    ensures ByteAt(a, k + 1) == ByteAt(Drop8(a), k)
  {
    NextByte(k);
    NextByteOut(a, k as bv7);
  }

  lemma FirstByte(a: Lane)
    ensures ByteAt(a, 0) as Lane == a & 0xff
  {
  }

  lemma LowByteBits(a: Lane, j: nat)
    requires j < 8
    ensures BitsOf(ByteAt(a, 0))[j] == Bit(a, j)
  {
    hide Bit, BitsOf, ByteAt, Xor, Zero8;
    FirstByte(a);
    OctetBits(ByteAt(a, 0), j);
    Remainder(a);
    BitXor(a & 0xff, Xor(a, a & 0xff), j);
    ZeroLow8(Xor(a, a & 0xff), j);
    XorBack(a, a & 0xff);
  }

  lemma Remainder(a: Lane)
    ensures Zero8(Xor(a, a & 0xff))
  {
  }

  lemma XorBack(a: Lane, b: Lane)
    ensures Xor(b, Xor(a, b)) == a
  {
  }

  /** Byte `k` of a lane has bits `8k` to `8k + 7`. */
  lemma {:induction false} ByteAtBits(a: Lane, k: nat, j: nat)
    requires k < 8 && j < 8
    ensures BitsOf(ByteAt(a, k))[j] == Bit(a, 8 * k + j)
    decreases k
  {
    hide Bit, BitsOf, ByteAt, Drop8;
    if k == 0 {
      LowByteBits(a, j);
    } else {
      ByteDrop(a, k - 1);
      ByteAtBits(Drop8(a), k - 1, j);
      BitDrop8(a, 8 * (k - 1) + j);
    }
  }

  // ----- sections 4 and 5: the sponge on bit strings -----

  const RATE_BITS: nat := 1088

  /** Bit `64 (x + 5y) + z` of a string of the rate is added to `A[x, y, z]`. */
  function AbsorbCube(A: Cube, block: seq<bool>): Cube
    requires |block| == RATE_BITS
  {
    (x: nat, y: nat, z: nat) => Plus(A(x, y, z), 64 * (x + 5 * y) + z < RATE_BITS && block[64 * (x + 5 * y) + z])
  }

  const NO_BITS: Cube := (x, y, z) => false

  /** The state after absorbing the first `n` blocks of a padded string. */
  function SpongeCube(P: seq<bool>, n: nat): Cube
    requires RATE_BITS * n <= |P|
  {
    if n == 0 then NO_BITS
    else PermutedCube(AbsorbCube(SpongeCube(P, n - 1), P[RATE_BITS * (n - 1)..RATE_BITS * n]), 24)
  }

  /** Algorithm 8 with Keccak-f[1600], pad10*1, rate 1088 and 256 bits of output: bit `i`. */
  function DigestBit(M: seq<bool>, i: nat): bool
    requires i < 256
  {
    var P := M + Pad101(RATE_BITS, |M|);
    SpongeCube(P, |P| / RATE_BITS)((i / 64) % 5, i / 64 / 5, i % 64)
  }

  lemma BlockIndex(x: nat, y: nat, z: nat)
    requires Inside(x, y, z)
    ensures var i := 64 * (x + 5 * y) + z; i < RATE_BITS <==> x + 5 * y < 17
    ensures var i := 64 * (x + 5 * y) + z; i / 8 == 8 * (x + 5 * y) + z / 8 && i % 8 == z % 8
  {
    var i := 64 * (x + 5 * y) + z;
    ModUnique(i, 8 * (x + 5 * y) + z / 8, z % 8, 8);
  }

  lemma XorBlockLane(a: State, block: seq<Octet>, l: nat)
    requires |block| == RATE && l < 25
    ensures XorBlock(a, block)[l] == if l < 17 then Xor(a[l], LaneOf(block, l, 8)) else a[l]
  {
    hide Xor, LaneOf;
  }

  /** XORing a block into the lanes adds its bits to the cube. */
  lemma BlockBits(a: State, block: seq<Octet>)
    requires |block| == RATE
    ensures Same(CubeOf(XorBlock(a, block)), AbsorbCube(CubeOf(a), Bits(block)))
  {
    hide Bit, Bits, BitsOf, Xor, LaneOf, XorBlock;
    var A, B := CubeOf(XorBlock(a, block)), AbsorbCube(CubeOf(a), Bits(block));
    forall x: nat, y: nat, z: nat | Inside(x, y, z) ensures A(x, y, z) == B(x, y, z) {
      var l := x + 5 * y;
      BlockIndex(x, y, z);
      XorBlockLane(a, block, l);
      assert A(x, y, z) == Bit(XorBlock(a, block)[l], z) && CubeOf(a)(x, y, z) == Bit(a[l], z);
      assert B(x, y, z) == Plus(Bit(a[l], z), 64 * l + z < RATE_BITS && Bits(block)[64 * l + z]);
      if l < 17 {
        BitXor(a[l], LaneOf(block, l, 8), z);
        LaneBits(block, l, 8, z);
        BitsAt(block, 64 * l + z);
      }
    }
  }

  lemma AbsorbSame(A: Cube, B: Cube, block: seq<bool>)
    requires |block| == RATE_BITS && Same(A, B)
    ensures Same(AbsorbCube(A, block), AbsorbCube(B, block))
  {
    hide Plus;
  }

  lemma {:induction false} BitsPrefix(b: seq<Octet>, lo: nat, hi: nat)
    requires lo <= hi <= |b|
    ensures Bits(b[lo..hi]) == Bits(b)[8 * lo..8 * hi]
  {
    hide Bits;
    assert b == b[..lo] + b[lo..hi] + b[hi..];
    BitsConcat(b[..lo] + b[lo..hi], b[hi..]);
    BitsConcat(b[..lo], b[lo..hi]);
  }

  lemma NothingAbsorbed()
    ensures Same(CubeOf(ZeroState()), NO_BITS)
  {
    hide Bit;
    forall x: nat, y: nat, z: nat | Inside(x, y, z) ensures !CubeOf(ZeroState())(x, y, z) {
      BitZero(z);
    }
  }

  /** Absorbing whole blocks of bytes is absorbing their bits. */
  lemma {:induction false} SpongeBits(m: seq<Octet>, n: nat)
    requires RATE * n <= |m|
    ensures Same(CubeOf(Absorbed(m, n)), SpongeCube(Bits(m), n))
  {
    hide Same, CubeOf, XorBlock, AbsorbCube, PermutedCube, Bits, Permuted;
    if n == 0 {
      NothingAbsorbed();
    } else {
      var a, block := Absorbed(m, n - 1), m[RATE * (n - 1)..RATE * n];
      var A := SpongeCube(Bits(m), n - 1);
      SpongeBits(m, n - 1);
      BitsPrefix(m, RATE * (n - 1), RATE * n);
      BlockBits(a, block);
      AbsorbSame(CubeOf(a), A, Bits(block));
      SameTrans(CubeOf(XorBlock(a, block)), AbsorbCube(CubeOf(a), Bits(block)), AbsorbCube(A, Bits(block)));
      PermutationBits(XorBlock(a, block), 24);
      PermutedSame(CubeOf(XorBlock(a, block)), AbsorbCube(A, Bits(block)), 24);
      SameTrans(CubeOf(Absorbed(m, n)), PermutedCube(CubeOf(XorBlock(a, block)), 24), SpongeCube(Bits(m), n));
    }
  }

  lemma SqueezedBits(a: State, i: nat)
    requires i < 256
    ensures Bits(Squeezed(a))[i] == CubeOf(a)((i / 64) % 5, i / 64 / 5, i % 64)
  {
    hide Bit, Bits, BitsOf, ByteAt;
    BitsAt(Squeezed(a), i);
    var k := i / 8;
    ByteAtBits(a[k / 8], k % 8, i % 8);
    assert 8 * (k % 8) + i % 8 == i % 64 && k / 8 == i / 64;
    assert (i / 64) % 5 + 5 * (i / 64 / 5) == i / 64;
  }

  /**
   The digest of the code is the standard's sponge on the bits of the message: bit for
   bit Keccak with capacity 512, pad10*1 and 256 bits of output.
   */
  lemma DigestBits(m: seq<Octet>, i: nat)
    requires i < 256
    ensures Bits(Digest(m))[i] == DigestBit(Bits(m), i)
  {
    hide Same, CubeOf, SpongeCube, Squeezed, Absorbed, Bits, Pad101, PadBytes;
    var n, p := |m| / RATE + 1, Padded(m);
    PaddingIsPad101(|m|);
    BitsConcat(m, PadBytes(RATE - |m| % RATE));
    SpongeBits(p, n);
    SqueezedBits(Absorbed(p, n), i);
    InsideSame(CubeOf(Absorbed(p, n)), SpongeCube(Bits(p), n), i);
  }

  lemma InsideSame(A: Cube, B: Cube, i: nat)
    requires i < 256 && Same(A, B)
    ensures A((i / 64) % 5, i / 64 / 5, i % 64) == B((i / 64) % 5, i / 64 / 5, i % 64)
  {
    assert Inside((i / 64) % 5, i / 64 / 5, i % 64);
  }
}
