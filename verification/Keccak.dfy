/** Keccak-256: the definition of FIPS 202 (sections 3 to 5) and the in-place code that must equal it. */
module Keccak {

  import opened NumberTheory
  import opened Octets

  type Lane = bv64

  /** Lane `(x, y)` of section 3.1.2 stands at index `x + 5 * y`. */
  type State = a: seq<Lane> | |a| == 25 witness seq(25, _ => 0)

  // ----- lane operations -----

  function Xor(a: Lane, b: Lane): Lane { a ^ b }

  function AndNot(a: Lane, b: Lane): Lane { (!a) & b }

  /** Rotation towards higher bits; the amount is an unsigned machine number. */
  function RotL(a: Lane, n: nat): Lane
    requires n < 64
  {
    Rotated(a, n as bv7)
  }

  function Rotated(a: Lane, shift: bv7): Lane
    requires shift <= 64
  {
    (a << shift) | (a >> (64 - shift))
  }

  // ----- section 3.2: the step mappings -----

  function Column(a: State, x: nat): Lane
    requires x < 5
  {
    Xor(Xor(Xor(Xor(a[x], a[x + 5]), a[x + 10]), a[x + 15]), a[x + 20])
  }

  /** What theta adds to every lane of column `x`. */
  function Parity(a: State, x: nat): Lane
    requires x < 5
  {
    Xor(Column(a, (x + 4) % 5), RotL(Column(a, (x + 1) % 5), 1))
  }

  function Theta(a: State): State
  {
    seq(25, i requires 0 <= i < 25 => Xor(a[i], Parity(a, i % 5)))
  }

  /** The walk of section 3.2.2 over all lanes but the centre: from `(1, 0)`, `(x, y)` to `(y, 2x + 3y)`. */
  function Walk(t: nat): (p: (nat, nat))
    ensures p.0 < 5 && p.1 < 5
  {
    if t == 0 then (1, 0) else var p := Walk(t - 1); (p.1, (2 * p.0 + 3 * p.1) % 5)
  }

  function WalkLane(t: nat): (l: nat)
    ensures l < 25
  {
    Walk(t).0 + 5 * Walk(t).1
  }

  function Offset(t: nat): (n: nat)
    ensures n < 64
  {
    ((t + 1) * (t + 2) / 2) % 64
  }

  /** Rho after its first `t` steps. */
  function RhoSteps(a: State, t: nat): State
  {
    if t == 0 then a else RhoSteps(a, t - 1)[WalkLane(t - 1) := RotL(a[WalkLane(t - 1)], Offset(t - 1))]
  }

  function Rho(a: State): State
  {
    RhoSteps(a, 24)
  }

  /** Section 3.2.3: lane `(x, y)` comes from `(x + 3y, x)`. */
  function PiSource(i: nat): (j: nat)
    requires i < 25
    ensures j < 25
  {
    (i % 5 + 3 * (i / 5)) % 5 + 5 * (i % 5)
  }

  function Pi(a: State): State
  {
    seq(25, i requires 0 <= i < 25 => a[PiSource(i)])
  }

  /** Lane `x` of a row after chi. */
  function ChiLane(row: seq<Lane>, x: nat): Lane
    requires |row| == 5 && x < 5
  {
    Xor(row[x], AndNot(row[(x + 1) % 5], row[(x + 2) % 5]))
  }

  function Row(a: State, y: nat): seq<Lane>
    requires y < 5
  {
    a[5 * y..5 * y + 5]
  }

  function Chi(a: State): State
  {
    seq(25, i requires 0 <= i < 25 => ChiLane(Row(a, i / 5), i % 5))
  }

  const RC: seq<Lane> := [
    0x0000000000000001, 0x0000000000008082, 0x800000000000808a, 0x8000000080008000,
    0x000000000000808b, 0x0000000080000001, 0x8000000080008081, 0x8000000000008009,
    0x000000000000008a, 0x0000000000000088, 0x0000000080008009, 0x000000008000000a,
    0x000000008000808b, 0x800000000000008b, 0x8000000000008089, 0x8000000000008003,
    0x8000000000008002, 0x8000000000000080, 0x000000000000800a, 0x800000008000000a,
    0x8000000080008081, 0x8000000000008080, 0x0000000080000001, 0x8000000080008008]

  function Iota(a: State, round: nat): State
    requires round < 24
  {
    a[0 := Xor(a[0], RC[round])]
  }

  function Rnd(a: State, round: nat): State
    requires round < 24
  {
    Iota(Chi(Pi(Rho(Theta(a)))), round)
  }

  function Permuted(a: State, rounds: nat): State
    requires rounds <= 24
  {
    if rounds == 0 then a else Rnd(Permuted(a, rounds - 1), rounds - 1)
  }

  function Permutation(a: State): State
  {
    Permuted(a, 24)
  }

  // ----- the walk visits every lane once -----

  /** Step of the walk at which a lane is visited. */
  const VISIT: seq<nat> := [24, 0, 18, 6, 12, 7, 23, 2, 9, 22, 1, 3, 17, 16, 20, 13, 8, 4, 5, 15, 19, 10, 21, 14, 11]

  /** The two tables of the code. */
  const ROTATION: seq<nat> := [1, 3, 6, 10, 15, 21, 28, 36, 45, 55, 2, 14, 27, 41, 56, 8, 25, 43, 62, 18, 39, 61, 20, 44]
  const PI_LANE: seq<nat> := [10, 7, 11, 17, 18, 3, 5, 16, 8, 21, 24, 4, 15, 23, 19, 13, 12, 2, 20, 14, 22, 9, 6, 1]

  lemma WalkStep(t: nat, x: nat, y: nat)
    requires Walk(t) == (x, y)
    ensures Walk(t + 1) == (y, (2 * x + 3 * y) % 5)
  {
  }

  lemma Walk0To4()
    ensures Walk(0) == (1, 0) && Walk(1) == (0, 2) && Walk(2) == (2, 1)
    ensures Walk(3) == (1, 2) && Walk(4) == (2, 3)
  {
    WalkStep(0, 1, 0);
    WalkStep(1, 0, 2);
    WalkStep(2, 2, 1);
    WalkStep(3, 1, 2);
  }

  lemma Walk4To8()
    ensures Walk(4) == (2, 3) && Walk(5) == (3, 3) && Walk(6) == (3, 0)
    ensures Walk(7) == (0, 1) && Walk(8) == (1, 3)
  {
    hide Walk;
    Walk0To4();
    WalkStep(4, 2, 3);
    WalkStep(5, 3, 3);
    WalkStep(6, 3, 0);
    WalkStep(7, 0, 1);
  }

  lemma Walk8To12()
    ensures Walk(8) == (1, 3) && Walk(9) == (3, 1) && Walk(10) == (1, 4)
    ensures Walk(11) == (4, 4) && Walk(12) == (4, 0)
  {
    hide Walk;
    Walk4To8();
    WalkStep(8, 1, 3);
    WalkStep(9, 3, 1);
    WalkStep(10, 1, 4);
    WalkStep(11, 4, 4);
  }

  lemma Walk12To16()
    ensures Walk(12) == (4, 0) && Walk(13) == (0, 3) && Walk(14) == (3, 4)
    ensures Walk(15) == (4, 3) && Walk(16) == (3, 2)
  {
    hide Walk;
    Walk8To12();
    WalkStep(12, 4, 0);
    WalkStep(13, 0, 3);
    WalkStep(14, 3, 4);
    WalkStep(15, 4, 3);
  }

  lemma Walk16To20()
    ensures Walk(16) == (3, 2) && Walk(17) == (2, 2) && Walk(18) == (2, 0)
    ensures Walk(19) == (0, 4) && Walk(20) == (4, 2)
  {
    hide Walk;
    Walk12To16();
    WalkStep(16, 3, 2);
    WalkStep(17, 2, 2);
    WalkStep(18, 2, 0);
    WalkStep(19, 0, 4);
  }

  lemma Walk20To24()
    ensures Walk(20) == (4, 2) && Walk(21) == (2, 4) && Walk(22) == (4, 1)
    ensures Walk(23) == (1, 1) && Walk(24) == (1, 0)
  {
    hide Walk;
    Walk16To20();
    WalkStep(20, 4, 2);
    WalkStep(21, 2, 4);
    WalkStep(22, 4, 1);
    WalkStep(23, 1, 1);
  }

  /** The tables agree with the walk at step `t`. */
  predicate TableRow(t: nat)
    requires t < 24
  {
    PI_LANE[t] == WalkLane(t + 1) && ROTATION[t] == Offset(t) && VISIT[WalkLane(t)] == t
  }

  lemma Tables0(t: nat)
    requires 0 <= t < 4
    ensures TableRow(t)
  {
    hide Walk;
    Walk0To4();
    assert TableRow(0);
    assert TableRow(1);
    assert TableRow(2);
    assert TableRow(3);
  }

  lemma Tables4(t: nat)
    requires 4 <= t < 8
    ensures TableRow(t)
  {
    hide Walk;
    Walk4To8();
    assert TableRow(4);
    assert TableRow(5);
    assert TableRow(6);
    assert TableRow(7);
  }

  lemma Tables8(t: nat)
    requires 8 <= t < 12
    ensures TableRow(t)
  {
    hide Walk;
    Walk8To12();
    assert TableRow(8);
    assert TableRow(9);
    assert TableRow(10);
    assert TableRow(11);
  }

  lemma Tables12(t: nat)
    requires 12 <= t < 16
    ensures TableRow(t)
  {
    hide Walk;
    Walk12To16();
    assert TableRow(12);
    assert TableRow(13);
    assert TableRow(14);
    assert TableRow(15);
  }

  lemma Tables16(t: nat)
    requires 16 <= t < 20
    ensures TableRow(t)
  {
    hide Walk;
    Walk16To20();
    assert TableRow(16);
    assert TableRow(17);
    assert TableRow(18);
    assert TableRow(19);
  }

  lemma Tables20(t: nat)
    requires 20 <= t < 24
    ensures TableRow(t)
  {
    hide Walk;
    Walk20To24();
    assert TableRow(20);
    assert TableRow(21);
    assert TableRow(22);
    assert TableRow(23);
  }

  lemma Tables(t: nat)
    requires t < 24
    ensures TableRow(t)
  {
    hide TableRow;
    if t < 4 {
      Tables0(t);
    } else if t < 8 {
      Tables4(t);
    } else if t < 12 {
      Tables8(t);
    } else if t < 16 {
      Tables12(t);
    } else if t < 20 {
      Tables16(t);
    } else {
      Tables20(t);
    }
  }

  lemma VisitedOnce(s: nat, t: nat)
    requires s < 24 && t < 24 && WalkLane(s) == WalkLane(t)
    ensures s == t
  {
    Tables(s);
    Tables(t);
  }

  ghost function Visited(n: nat): set<nat>
  {
    if n == 0 then {} else Visited(n - 1) + {WalkLane(n - 1)}
  }

  lemma {:induction false} VisitedAt(n: nat, l: nat) returns (t: nat)
    requires l in Visited(n)
    ensures t < n && WalkLane(t) == l
  {
    hide WalkLane;
    if l == WalkLane(n - 1) {
      t := n - 1;
    } else {
      t := VisitedAt(n - 1, l);
    }
  }

  lemma {:induction false} VisitedCount(n: nat)
    requires n <= 24
    ensures |Visited(n)| == n && Visited(n) <= Units(25)
  {
    hide WalkLane;
    if n > 0 {
      VisitedCount(n - 1);
      var l := WalkLane(n - 1);
      if l in Visited(n - 1) {
        var t := VisitedAt(n - 1, l);
        VisitedOnce(t, n - 1);
      }
      CentreNotVisited(n - 1);
      assert IsUnit(l, 25);
    }
  }

  lemma CentreNotVisited(t: nat)
    requires t < 24
    ensures WalkLane(t) != 0
  {
    hide WalkLane;
    Tables(t);
    assert VISIT[0] == 24;
  }

  /** Every lane but the centre is on the walk. */
  lemma Covered(l: nat) returns (t: nat)
    requires 0 < l < 25
    ensures t < 24 && WalkLane(t) == l
  {
    hide WalkLane, Visited;
    VisitedCount(24);
    UnitsCount(25);
    SubsetSameSize(Visited(24), Units(25));
    assert IsUnit(l, 25);
    t := VisitedAt(24, l);
  }

  /** Pi moves every lane one step along the walk. */
  lemma PiFollowsWalk(t: nat)
    ensures PiSource(WalkLane(t + 1)) == WalkLane(t)
  {
    hide PiSource;
    var x, y := Walk(t).0, Walk(t).1;
    var z := (2 * x + 3 * y) % 5;
    StepBack(x, y);
    PiSourceAt(y, z);
  }

  lemma PiSourceAt(y: nat, z: nat)
    requires y < 5 && z < 5
    ensures PiSource(y + 5 * z) == (y + 3 * z) % 5 + 5 * y
  {
    assert (y + 5 * z) % 5 == y && (y + 5 * z) / 5 == z;
  }

  lemma StepBack(x: nat, y: nat)
    requires x < 5 && y < 5
    ensures var z := (2 * x + 3 * y) % 5; (y + 3 * z) % 5 == x
  {
  }

  /** Rho rotates the lane visited at step `t` by the offset of that step, and no other. */
  lemma {:induction false} RhoAt(a: State, n: nat, l: nat)
    requires n <= 24 && l < 25
    ensures forall t :: 0 <= t < n && l == WalkLane(t) ==> RhoSteps(a, n)[l] == RotL(a[l], Offset(t))
    ensures (forall t :: 0 <= t < n ==> l != WalkLane(t)) ==> RhoSteps(a, n)[l] == a[l]
  {
    hide WalkLane, Offset, RotL;
    if n > 0 {
      RhoAt(a, n - 1, l);
      forall t | 0 <= t < n && l == WalkLane(t) ensures RhoSteps(a, n)[l] == RotL(a[l], Offset(t)) {
        if l == WalkLane(n - 1) {
          VisitedOnce(t, n - 1);
        }
      }
    }
  }

  /** Rho then pi: lane `t + 1` of the walk holds lane `t`, rotated; the centre stays. */
  lemma RhoPiAt(a: State, t: nat)
    requires t < 24
    ensures Pi(Rho(a))[WalkLane(t + 1)] == RotL(a[WalkLane(t)], Offset(t))
    ensures Pi(Rho(a))[0] == a[0]
  {
    hide WalkLane, Offset, RotL;
    PiFollowsWalk(t);
    RhoAt(a, 24, WalkLane(t));
    forall s | 0 <= s < 24 ensures WalkLane(s) != 0 {
      CentreNotVisited(s);
    }
    RhoAt(a, 24, 0);
  }

  // ----- section 3.2.5: the round constants -----

  /** One step of algorithm 5, bit `i` of the byte being `R[i]`. */
  function LfsrStep(r: bv8): bv8
  {
    (r << 1) ^ (if r & 0x80 == 0x80 then 0x71 else 0)
  }

  function LfsrSeven(r: bv8): bv8
  {
    LfsrStep(LfsrStep(LfsrStep(LfsrStep(LfsrStep(LfsrStep(LfsrStep(r)))))))
  }

  /** The register after `7 * round` steps. */
  function Register(round: nat): bv8
  {
    if round == 0 then 1 else LfsrSeven(Register(round - 1))
  }

  /** Output bit `j` of the register goes to bit `2^j - 1` of the round constant. */
  function ConstantOf(r0: bv8): Lane
  {
    var r1 := LfsrStep(r0);
    var r2 := LfsrStep(r1);
    var r3 := LfsrStep(r2);
    var r4 := LfsrStep(r3);
    var r5 := LfsrStep(r4);
    var r6 := LfsrStep(r5);
    ((r0 & 1) as Lane) | (((r1 & 1) as Lane) << 1) | (((r2 & 1) as Lane) << 3) | (((r3 & 1) as Lane) << 7)
    | (((r4 & 1) as Lane) << 15) | (((r5 & 1) as Lane) << 31) | (((r6 & 1) as Lane) << 63)
  }

  lemma NextRegister(round: nat, r: bv8, s: bv8)
    requires Register(round) == r && LfsrSeven(r) == s
    ensures Register(round + 1) == s
  {
    hide LfsrSeven;
  }

  lemma Constants0()
    ensures LfsrSeven(0x01) == 0x80 && ConstantOf(0x01) == 0x0000000000000001
    ensures LfsrSeven(0x80) == 0xd8 && ConstantOf(0x80) == 0x0000000000008082
    ensures LfsrSeven(0xd8) == 0x1a && ConstantOf(0xd8) == 0x800000000000808a
    ensures LfsrSeven(0x1a) == 0xdf && ConstantOf(0x1a) == 0x8000000080008000
    ensures LfsrSeven(0xdf) == 0x09 && ConstantOf(0xdf) == 0x000000000000808b
    ensures LfsrSeven(0x09) == 0x35 && ConstantOf(0x09) == 0x0000000080000001
  {
  }

  lemma RoundConstants0()
    ensures Register(6) == 0x35
    ensures forall round :: 0 <= round < 6 ==> RC[round] == ConstantOf(Register(round))
  {
    hide Register, LfsrSeven, ConstantOf;
    Constants0();
    FirstRegister();
    NextRegister(0, 0x01, 0x80);
    NextRegister(1, 0x80, 0xd8);
    NextRegister(2, 0xd8, 0x1a);
    NextRegister(3, 0x1a, 0xdf);
    NextRegister(4, 0xdf, 0x09);
    NextRegister(5, 0x09, 0x35);
    assert RC[0] == 0x0000000000000001 && RC[1] == 0x0000000000008082 && RC[2] == 0x800000000000808a;
    assert RC[3] == 0x8000000080008000 && RC[4] == 0x000000000000808b && RC[5] == 0x0000000080000001;
  }

  lemma Constants6()
    ensures LfsrSeven(0x35) == 0x4f && ConstantOf(0x35) == 0x8000000080008081
    ensures LfsrSeven(0x4f) == 0xca && ConstantOf(0x4f) == 0x8000000000008009
    ensures LfsrSeven(0xca) == 0x70 && ConstantOf(0xca) == 0x000000000000008a
    ensures LfsrSeven(0x70) == 0x41 && ConstantOf(0x70) == 0x0000000000000088
    ensures LfsrSeven(0x41) == 0xec && ConstantOf(0x41) == 0x0000000080008009
    ensures LfsrSeven(0xec) == 0xd5 && ConstantOf(0xec) == 0x000000008000000a
  {
  }

  lemma RoundConstants6()
    ensures Register(12) == 0xd5
    ensures forall round :: 6 <= round < 12 ==> RC[round] == ConstantOf(Register(round))
  {
    hide Register, LfsrSeven, ConstantOf;
    Constants6();
    RoundConstants0();
    NextRegister(6, 0x35, 0x4f);
    NextRegister(7, 0x4f, 0xca);
    NextRegister(8, 0xca, 0x70);
    NextRegister(9, 0x70, 0x41);
    NextRegister(10, 0x41, 0xec);
    NextRegister(11, 0xec, 0xd5);
    assert RC[6] == 0x8000000080008081 && RC[7] == 0x8000000000008009 && RC[8] == 0x000000000000008a;
    assert RC[9] == 0x0000000000000088 && RC[10] == 0x0000000080008009 && RC[11] == 0x000000008000000a;
  }

  lemma Constants12()
    ensures LfsrSeven(0xd5) == 0xcd && ConstantOf(0xd5) == 0x000000008000808b
    ensures LfsrSeven(0xcd) == 0x63 && ConstantOf(0xcd) == 0x800000000000008b
    ensures LfsrSeven(0x63) == 0xab && ConstantOf(0x63) == 0x8000000000008089
    ensures LfsrSeven(0xab) == 0xaa && ConstantOf(0xab) == 0x8000000000008003
    ensures LfsrSeven(0xaa) == 0x2a && ConstantOf(0xaa) == 0x8000000000008002
    ensures LfsrSeven(0x2a) == 0xf2 && ConstantOf(0x2a) == 0x8000000000000080
  {
  }

  lemma RoundConstants12()
    ensures Register(18) == 0xf2
    ensures forall round :: 12 <= round < 18 ==> RC[round] == ConstantOf(Register(round))
  {
    hide Register, LfsrSeven, ConstantOf;
    Constants12();
    RoundConstants6();
    NextRegister(12, 0xd5, 0xcd);
    NextRegister(13, 0xcd, 0x63);
    NextRegister(14, 0x63, 0xab);
    NextRegister(15, 0xab, 0xaa);
    NextRegister(16, 0xaa, 0x2a);
    NextRegister(17, 0x2a, 0xf2);
    assert RC[12] == 0x000000008000808b && RC[13] == 0x800000000000008b && RC[14] == 0x8000000000008089;
    assert RC[15] == 0x8000000000008003 && RC[16] == 0x8000000000008002 && RC[17] == 0x8000000000000080;
  }

  lemma Constants18()
    ensures LfsrSeven(0xf2) == 0xe8 && ConstantOf(0xf2) == 0x000000000000800a
    ensures LfsrSeven(0xe8) == 0x37 && ConstantOf(0xe8) == 0x800000008000000a
    ensures LfsrSeven(0x37) == 0x3e && ConstantOf(0x37) == 0x8000000080008081
    ensures LfsrSeven(0x3e) == 0x0b && ConstantOf(0x3e) == 0x8000000000008080
    ensures LfsrSeven(0x0b) == 0x44 && ConstantOf(0x0b) == 0x0000000080000001
    ensures LfsrSeven(0x44) == 0x8e && ConstantOf(0x44) == 0x8000000080008008
  {
  }

  lemma RoundConstants18()
    ensures Register(24) == 0x8e
    ensures forall round :: 18 <= round < 24 ==> RC[round] == ConstantOf(Register(round))
  {
    hide Register, LfsrSeven, ConstantOf;
    Constants18();
    RoundConstants12();
    NextRegister(18, 0xf2, 0xe8);
    NextRegister(19, 0xe8, 0x37);
    NextRegister(20, 0x37, 0x3e);
    NextRegister(21, 0x3e, 0x0b);
    NextRegister(22, 0x0b, 0x44);
    NextRegister(23, 0x44, 0x8e);
    assert RC[18] == 0x000000000000800a && RC[19] == 0x800000008000000a && RC[20] == 0x8000000080008081;
    assert RC[21] == 0x8000000000008080 && RC[22] == 0x0000000080000001 && RC[23] == 0x8000000080008008;
  }

  lemma FirstRegister()
    ensures Register(0) == 1
  {
  }

  /** The table holds the constants that the standard's shift register produces. */
  lemma RoundConstants(round: nat)
    requires round < 24
    ensures RC[round] == ConstantOf(Register(round))
  {
    hide ConstantOf, Register;
    RoundConstants0();
    RoundConstants6();
    RoundConstants12();
    RoundConstants18();
  }

  // ----- the permutation, in place -----

  /** Where the lane visited at step `t` goes. */
  function Target(t: nat): (l: nat)
    ensures l < 25
  {
    WalkLane(t + 1)
  }

  /** One pass along the walk with a single spare lane. */
  method RhoPi(st: array<Lane>)
    requires st.Length == 25
    modifies st
    ensures st[..] == Pi(Rho(old(st[..])))
  {
    hide WalkLane, Offset, RotL, Target, Pi, Rho;
    ghost var a: State := st[..];
    WalkEnds();
    var t := st[1];
    var i := 0;
    while i < 24
      invariant 0 <= i <= 24 && t == a[WalkLane(i)]
      invariant forall k :: 0 <= k < i ==> st[Target(k)] == RotL(a[WalkLane(k)], Offset(k))
      invariant forall l :: 0 <= l < 25 && (forall k :: 0 <= k < i ==> l != Target(k)) ==> st[l] == a[l]
    {
      TableEntries(i);
      var j := PI_LANE[i];
      var cur := st[j];
      forall k | 0 <= k < i ensures Target(k) != Target(i) {
        StepDistinct(k, i);
      }
      st[j] := RotL(t, ROTATION[i]);
      t := cur;
      i := i + 1;
    }
    forall k | 0 <= k < 24 ensures Target(k) != 0 {
      TargetNotCentre(k);
    }
    RhoPiDone(a, st[..]);
  }

  /** The walk is a cycle through lane 1. */
  lemma WalkEnds()
    ensures WalkLane(0) == 1 && WalkLane(24) == 1
  {
    Walk20To24();
  }

  lemma TableEntries(t: nat)
    requires t < 24
    ensures PI_LANE[t] == Target(t) == WalkLane(t + 1) && ROTATION[t] == Offset(t)
  {
    hide WalkLane, Offset;
    Tables(t);
  }

  lemma TargetNotCentre(t: nat)
    requires t < 24
    ensures Target(t) != 0
  {
    hide WalkLane;
    if t == 23 {
      WalkEnds();
    } else {
      CentreNotVisited(t + 1);
    }
  }

  lemma StepDistinct(s: nat, t: nat)
    requires s < t < 24
    ensures Target(s) != Target(t)
  {
    hide WalkLane;
    if Target(s) == Target(t) {
      PiFollowsWalk(s);
      PiFollowsWalk(t);
      VisitedOnce(s, t);
    }
  }

  lemma RhoPiDone(a: State, b: State)
    requires forall k :: 0 <= k < 24 ==> b[Target(k)] == RotL(a[WalkLane(k)], Offset(k))
    requires b[0] == a[0]
    ensures b == Pi(Rho(a))
  {
    hide WalkLane, Offset, RotL, Pi, Rho;
    RhoPiAt(a, 0);
    forall l | 0 < l < 25 ensures b[l] == Pi(Rho(a))[l] {
      var s := ReachedFrom(l);
      RhoPiAt(a, s);
      assert b[Target(s)] == RotL(a[WalkLane(s)], Offset(s));
    }
  }

  /** Every lane but the centre is the target of a step. */
  lemma ReachedFrom(l: nat) returns (s: nat)
    requires 0 < l < 25
    ensures s < 24 && Target(s) == l
  {
    hide WalkLane;
    var t := Covered(l);
    WalkEnds();
    s := if t == 0 then 23 else t - 1;
  }

  method Columns(st: array<Lane>, bc: array<Lane>)
    requires st.Length == 25 && bc.Length == 5 && st != bc
    modifies bc
    ensures forall x :: 0 <= x < 5 ==> bc[x] == Column(st[..], x)
  {
    hide Xor;
    var i := 0;
    while i < 5
      invariant 0 <= i <= 5
      invariant forall x :: 0 <= x < i ==> bc[x] == Column(st[..], x)
    {
      bc[i] := Xor(Xor(Xor(Xor(st[i], st[i + 5]), st[i + 10]), st[i + 15]), st[i + 20]);
      i := i + 1;
    }
  }

  method XorColumn(st: array<Lane>, i: nat, t: Lane)
    requires st.Length == 25 && i < 5
    modifies st
    ensures forall l :: 0 <= l < 25 ==> st[l] == if l % 5 == i then Xor(old(st[l]), t) else old(st[l])
  {
    hide Xor;
    var j := 0;
    while j < 25
      invariant 0 <= j <= 25 && j % 5 == 0
      invariant forall l :: 0 <= l < 25 ==> st[l] == if l % 5 == i && l < j then Xor(old(st[l]), t) else old(st[l])
    {
      st[j + i] := Xor(st[j + i], t);
      j := j + 5;
    }
  }

  method ThetaInPlace(st: array<Lane>, bc: array<Lane>)
    requires st.Length == 25 && bc.Length == 5 && st != bc
    modifies st, bc
    ensures st[..] == Theta(old(st[..]))
  {
    hide Xor, RotL, Column;
    ghost var a: State := st[..];
    Columns(st, bc);
    var i := 0;
    while i < 5
      invariant 0 <= i <= 5
      invariant forall x :: 0 <= x < 5 ==> bc[x] == Column(a, x)
      invariant forall l :: 0 <= l < 25 ==> st[l] == if l % 5 < i then Xor(a[l], Parity(a, l % 5)) else a[l]
    {
      var t := Xor(bc[(i + 4) % 5], RotL(bc[(i + 1) % 5], 1));
      assert t == Parity(a, i);
      XorColumn(st, i, t);
      i := i + 1;
    }
  }

  method CopyRow(st: array<Lane>, bc: array<Lane>, j: nat)
    requires st.Length == 25 && bc.Length == 5 && st != bc && j <= 20
    modifies bc
    ensures bc[..] == st[j..j + 5]
  {
    var i := 0;
    while i < 5
      invariant 0 <= i <= 5
      invariant bc[..i] == st[j..j + i]
    {
      bc[i] := st[j + i];
      i := i + 1;
    }
  }

  method ChiRow(st: array<Lane>, bc: array<Lane>, j: nat)
    requires st.Length == 25 && bc.Length == 5 && st != bc && j <= 20
    modifies st, bc
    ensures st[..j] == old(st[..j]) && st[j + 5..] == old(st[j + 5..])
    ensures forall x :: j <= x < j + 5 ==> st[x] == ChiLane(old(st[j..j + 5]), x - j)
  {
    hide ChiLane, Xor, AndNot;
    ghost var row := st[j..j + 5];
    CopyRow(st, bc, j);
    var i := 0;
    while i < 5
      invariant 0 <= i <= 5 && bc[..] == row
      invariant st[..j] == old(st[..j]) && st[j + 5..] == old(st[j + 5..])
      invariant forall x :: j <= x < j + i ==> st[x] == ChiLane(row, x - j)
    {
      var lane := Xor(bc[i], AndNot(bc[(i + 1) % 5], bc[(i + 2) % 5]));
      ChiLaneOf(row, i);
      st[j + i] := lane;
      i := i + 1;
    }
  }

  lemma ChiLaneOf(row: seq<Lane>, x: nat)
    requires |row| == 5 && x < 5
    ensures ChiLane(row, x) == Xor(row[x], AndNot(row[(x + 1) % 5], row[(x + 2) % 5]))
  {
    hide Xor, AndNot;
  }

  /** Rows below index `j` are mapped, the others are still those of `a`. */
  ghost predicate ChiUpTo(a: State, b: State, j: nat)
    requires j <= 25
  {
    b[j..] == a[j..] && forall l :: 0 <= l < j ==> b[l] == ChiLane(Row(a, l / 5), l % 5)
  }

  lemma ChiStep(a: State, b: State, c: State, y: nat)
    requires y < 5 && ChiUpTo(a, b, 5 * y)
    requires c[..5 * y] == b[..5 * y] && c[5 * y + 5..] == b[5 * y + 5..]
    requires forall l :: 5 * y <= l < 5 * y + 5 ==> c[l] == ChiLane(b[5 * y..5 * y + 5], l - 5 * y)
    ensures ChiUpTo(a, c, 5 * y + 5)
  {
    hide ChiLane;
    var j := 5 * y;
    assert b[j..j + 5] == b[j..][..5] == a[j..][..5] == Row(a, y);
    assert c[j + 5..] == b[j..][5..] == a[j..][5..] == a[j + 5..];
    forall l | 0 <= l < j + 5 ensures c[l] == ChiLane(Row(a, l / 5), l % 5) {
      if l < j {
        assert c[..j][l] == b[..j][l];
      } else {
        RowOf(l, y);
      }
    }
  }

  lemma RowOf(l: nat, y: nat)
    requires 5 * y <= l < 5 * y + 5
    ensures l / 5 == y && l % 5 == l - 5 * y
  {
  }

  method ChiInPlace(st: array<Lane>, bc: array<Lane>)
    requires st.Length == 25 && bc.Length == 5 && st != bc
    modifies st, bc
    ensures st[..] == Chi(old(st[..]))
  {
    hide ChiLane, ChiUpTo;
    ghost var a: State := st[..];
    ghost var y := 0;
    ChiStart(a);
    var j := 0;
    while j < 25
      invariant 0 <= j <= 25 && j == 5 * y
      invariant ChiUpTo(a, st[..], j)
    {
      ghost var b: State := st[..];
      ChiRow(st, bc, j);
      ChiStep(a, b, st[..], y);
      j := j + 5;
      y := y + 1;
    }
    ChiEnd(a, st[..]);
  }

  lemma ChiStart(a: State)
    ensures ChiUpTo(a, a, 0)
  {
  }

  lemma ChiEnd(a: State, b: State)
    requires ChiUpTo(a, b, 25)
    ensures b == Chi(a)
  {
    hide ChiLane;
  }

  method KeccakF(st: array<Lane>)
    requires st.Length == 25
    modifies st
    ensures st[..] == Permutation(old(st[..]))
  {
    hide Theta, Chi, Pi, Rho, Xor;
    ghost var a: State := st[..];
    var bc := new Lane[5](_ => 0);
    var round := 0;
    while round < 24
      invariant 0 <= round <= 24
      invariant st[..] == Permuted(a, round)
    {
      ThetaInPlace(st, bc);
      RhoPi(st);
      ChiInPlace(st, bc);
      st[0] := Xor(st[0], RC[round]);
      assert st[..] == Rnd(Permuted(a, round), round);
      round := round + 1;
    }
  }

  // ----- sections 4 and 5.1: the sponge with pad10*1 at rate 136 -----

  const RATE: nat := 136

  /** The padding as `q` whole bytes, least significant bit first; no domain suffix. */
  function PadBytes(q: nat): (p: seq<Octet>)
    requires q >= 1
    ensures |p| == q
  {
    if q == 1 then [0x81] else [0x01] + Zeros(q - 2) + [0x80]
  }

  function Padded(m: seq<Octet>): (p: seq<Octet>)
    ensures |p| == RATE * (|m| / RATE + 1)
  {
    m + PadBytes(RATE - |m| % RATE)
  }

  /** Byte `k` of a lane, lowest first. */
  function ShiftIn(b: Octet, k: nat): Lane
    requires k < 8
  {
    (b as Lane) << (8 * (k as bv7))
  }

  function ByteAt(a: Lane, k: nat): Octet
    requires k < 8
  {
    ((a >> (8 * (k as bv7))) & 0xff) as Octet
  }

  /** The first `n` bytes of lane `l` of a block. */
  function LaneOf(block: seq<Octet>, l: nat, n: nat): Lane
    requires n <= 8 && 8 * l + n <= |block|
  {
    if n == 0 then 0 else Xor(LaneOf(block, l, n - 1), ShiftIn(block[8 * l + n - 1], n - 1))
  }

  function XorBlock(a: State, block: seq<Octet>): State
    requires |block| == RATE
  {
    seq(25, l requires 0 <= l < 25 => if l < 17 then Xor(a[l], LaneOf(block, l, 8)) else a[l])
  }

  function ZeroState(): State
  {
    seq(25, _ => 0)
  }

  /** The state after the first `n` blocks. */
  function Absorbed(m: seq<Octet>, n: nat): State
    requires RATE * n <= |m|
  {
    if n == 0 then ZeroState()
    else Permutation(XorBlock(Absorbed(m, n - 1), m[RATE * (n - 1)..RATE * n]))
  }

  function Squeezed(a: State): seq<Octet>
  {
    seq(32, i requires 0 <= i < 32 => ByteAt(a[i / 8], i % 8))
  }

  function Digest(m: seq<Octet>): (d: seq<Octet>)
    ensures |d| == 32
  {
    Squeezed(Absorbed(Padded(m), |m| / RATE + 1))
  }

  // ----- what the sponge's pieces mean -----

  /** Bits of a byte string, least significant bit of each byte first (appendix B.1). */
  function Bits(b: seq<Octet>): (bits: seq<bool>)
    ensures |bits| == 8 * |b|
  {
    if b == [] then [] else Bits(b[..|b| - 1]) + BitsOf(b[|b| - 1])
  }

  function BitsOf(b: Octet): (bits: seq<bool>)
    ensures |bits| == 8
  {
    [b & 1 == 1, b & 2 == 2, b & 4 == 4, b & 8 == 8, b & 16 == 16, b & 32 == 32, b & 64 == 64, b & 128 == 128]
  }

  function Falses(n: nat): seq<bool>
  {
    seq(n, _ => false)
  }

  /** Algorithm 9 of FIPS 202: a one, the fewest zeros, a one. */
  function Pad101(x: nat, m: nat): seq<bool>
    requires x > 0
  {
    [true] + Falses((-(m as int) - 2) % x) + [true]
  }

  lemma {:induction false} BitsOfZeros(n: nat)
    ensures Bits(Zeros(n)) == Falses(8 * n)
  {
    if n > 0 {
      BitsOfZeros(n - 1);
      assert Zeros(n)[..n - 1] == Zeros(n - 1);
      assert BitsOf(0) == Falses(8);
    }
  }

  lemma {:induction false} BitsConcat(a: seq<Octet>, b: seq<Octet>)
    ensures Bits(a + b) == Bits(a) + Bits(b)
  {
    hide BitsOf;
    if b == [] {
      assert a + b == a;
    } else {
      BitsConcat(a, b[..|b| - 1]);
      assert (a + b)[..|a + b| - 1] == a + b[..|b| - 1];
    }
  }

  /** The appended bytes are exactly pad10*1 for a message of whole bytes. */
  lemma PaddingIsPad101(n: nat)
    ensures Bits(PadBytes(RATE - n % RATE)) == Pad101(8 * RATE, 8 * n)
  {
    var q := RATE - n % RATE;
    PadLength(n);
    if q == 1 {
      LastByteBits();
    } else {
      PadBits(q);
    }
  }

  lemma PadLength(n: nat)
    ensures (-8 * n - 2) % 1088 == 8 * (136 - n % 136) - 2
  {
    var d, r := n / 136, n % 136;
    ModUnique(-8 * n - 2, -d - 1, 8 * (136 - r) - 2, 1088);
  }

  lemma LastByteBits()
    ensures Bits([0x81]) == [true] + Falses(6) + [true]
    ensures Bits([0x01]) == [true] + Falses(7)
    ensures Bits([0x80]) == Falses(7) + [true]
  {
    assert Bits([0x81]) == Bits([]) + BitsOf(0x81);
    assert Bits([0x01]) == Bits([]) + BitsOf(0x01);
    assert Bits([0x80]) == Bits([]) + BitsOf(0x80);
  }

  lemma PadBits(q: nat)
    requires q >= 2
    ensures Bits(PadBytes(q)) == [true] + Falses(8 * q - 2) + [true]
  {
    hide BitsOf, Bits;
    LastByteBits();
    BitsOfZeros(q - 2);
    BitsConcat([0x01] + Zeros(q - 2), [0x80]);
    BitsConcat([0x01], Zeros(q - 2));
  }

  // ----- absorbing byte by byte -----

  /** The state after XORing in a byte string, byte `i` into byte `i % 8` of lane `i / 8`. */
  function XorBytes(a: State, bytes: seq<Octet>): State
    requires |bytes| <= RATE
  {
    if bytes == [] then a
    else
      var i := |bytes| - 1;
      XorByte(XorBytes(a, bytes[..i]), i, bytes[i])
  }

  function XorByte(a: State, i: nat, b: Octet): State
    requires i < RATE
  {
    a[i / 8 := Xor(a[i / 8], ShiftIn(b, i % 8))]
  }

  lemma XorAlgebra(a: Lane, b: Lane, c: Lane)
    ensures Xor(Xor(a, b), c) == Xor(a, Xor(b, c)) && Xor(a, 0) == a
  {
  }

  lemma NoByte(k: nat)
    requires k < 8
    ensures ShiftIn(0, k) == 0
  {
  }

  /** A byte with both padding bits is the first bit's byte XOR the last bit's byte. */
  lemma BothPaddingBits()
    ensures ShiftIn(0x81, 7) == Xor(ShiftIn(0x01, 7), ShiftIn(0x80, 7))
  {
  }

  function Filled(n: nat, l: nat): (k: nat)
    ensures k <= 8 && (k == 0 || 8 * l + k <= n)
  {
    if n <= 8 * l then 0 else if n >= 8 * l + 8 then 8 else n - 8 * l
  }

  /** Lane by lane, the bytes so far are XORed in. */
  lemma {:induction false} XorBytesLane(a: State, block: seq<Octet>, n: nat, l: nat)
    requires |block| == RATE && n <= RATE && l < 25
    ensures XorBytes(a, block[..n])[l]
         == if l < 17 then Xor(a[l], LaneOf(block, l, Filled(n, l))) else a[l]
  {
    hide Xor, ShiftIn, Filled, XorBytes;
    XorAlgebra(a[l], 0, 0);
    FilledNone(l);
    XorNothing(a);
    if n > 0 {
      XorBytesLane(a, block, n - 1, l);
      XorBytesSnoc(a, block, n);
      var k := Filled(n, l);
      FilledStep(n, l);
      if 0 < k && 8 * l + k == n {
        XorAlgebra(a[l], LaneOf(block, l, k - 1), ShiftIn(block[n - 1], k - 1));
      }
    }
  }

  lemma XorNothing(a: State)
    ensures XorBytes(a, []) == a
  {
  }

  lemma XorBytesSnoc(a: State, block: seq<Octet>, n: nat)
    requires |block| == RATE && 0 < n <= RATE
    ensures XorBytes(a, block[..n]) == XorByte(XorBytes(a, block[..n - 1]), n - 1, block[n - 1])
  {
    hide XorByte;
    assert block[..n][..n - 1] == block[..n - 1];
  }

  lemma FilledNone(l: nat)
    ensures Filled(0, l) == 0
  {
  }

  lemma FilledStep(n: nat, l: nat)
    requires n > 0
    ensures var k := Filled(n, l);
            if 0 < k && 8 * l + k == n then (n - 1) / 8 == l && (n - 1) % 8 == k - 1 && Filled(n - 1, l) == k - 1
            else (n - 1) / 8 != l && Filled(n - 1, l) == k
  {
  }

  /** Byte by byte is block-wise. */
  lemma XorBytesIsBlock(a: State, block: seq<Octet>)
    requires |block| == RATE
    ensures XorBytes(a, block) == XorBlock(a, block)
  {
    hide Xor, LaneOf, XorBytes;
    assert block[..RATE] == block;
    forall l | 0 <= l < 25 ensures XorBytes(a, block)[l] == XorBlock(a, block)[l] {
      XorBytesLane(a, block, RATE, l);
    }
  }

  lemma {:induction false} XorZeros(a: State, bytes: seq<Octet>, n: nat)
    requires |bytes| + n <= RATE
    ensures XorBytes(a, bytes + Zeros(n)) == XorBytes(a, bytes)
  {
    hide Xor, ShiftIn;
    if n == 0 {
      assert bytes + Zeros(0) == bytes;
    } else {
      XorZeros(a, bytes, n - 1);
      var s, i := bytes + Zeros(n), |bytes| + n - 1;
      assert s[..i] == bytes + Zeros(n - 1);
      var b := XorBytes(a, s[..i]);
      NoByte(i % 8);
      XorAlgebra(b[i / 8], 0, 0);
      assert XorByte(b, i, 0) == b;
    }
  }

  /** Both padding bits in the last byte of the rate. */
  lemma PadInOneByte(a: State, tail: seq<Octet>)
    requires |tail| == RATE - 1
    ensures XorByte(XorByte(XorBytes(a, tail), RATE - 1, 0x01), RATE - 1, 0x80) == XorBytes(a, tail + [0x81])
  {
    hide Xor, ShiftIn;
    var block := tail + [0x81];
    assert block[..RATE - 1] == tail;
    var b := XorBytes(a, tail);
    BothPaddingBits();
    XorAlgebra(b[16], ShiftIn(0x01, 7), ShiftIn(0x80, 7));
  }

  /** The padding bits in two bytes, with zero bytes between them. */
  lemma PadInTwoBytes(a: State, tail: seq<Octet>)
    requires |tail| < RATE - 1
    ensures XorByte(XorByte(XorBytes(a, tail), |tail|, 0x01), RATE - 1, 0x80)
         == XorBytes(a, tail + PadBytes(RATE - |tail|))
  {
    hide XorByte;
    var first, n := tail + [0x01], RATE - |tail| - 2;
    assert first[..|tail|] == tail;
    XorZeros(a, first, n);
    var block := tail + PadBytes(RATE - |tail|);
    assert block == first + Zeros(n) + [0x80];
    assert block[..RATE - 1] == first + Zeros(n);
  }

  /** The two XORs of the finishing step absorb the padded last block, also when they meet in one byte. */
  lemma LastBlock(a: State, tail: seq<Octet>)
    requires |tail| < RATE
    ensures XorByte(XorByte(XorBytes(a, tail), |tail|, 0x01), RATE - 1, 0x80)
         == XorBlock(a, tail + PadBytes(RATE - |tail|))
  {
    hide XorByte, XorBytes, XorBlock;
    XorBytesIsBlock(a, tail + PadBytes(RATE - |tail|));
    if |tail| == RATE - 1 {
      PadInOneByte(a, tail);
    } else {
      PadInTwoBytes(a, tail);
    }
  }

  lemma {:induction false} AbsorbPrefix(m: seq<Octet>, p: seq<Octet>, n: nat)
    requires RATE * n <= |m| && RATE * n <= |p| && m[..RATE * n] == p[..RATE * n]
    ensures Absorbed(m, n) == Absorbed(p, n)
  {
    hide Permutation, XorBlock;
    if n > 0 {
      var k := RATE * (n - 1);
      assert m[..k] == m[..RATE * n][..k] && p[..k] == p[..RATE * n][..k];
      AbsorbPrefix(m, p, n - 1);
      assert m[k..RATE * n] == m[..RATE * n][k..] && p[k..RATE * n] == p[..RATE * n][k..];
    }
  }

  method AbsorbBytes(st: array<Lane>, data: seq<Octet>, offset: nat, n: nat)
    requires st.Length == 25 && n <= RATE && offset + n <= |data|
    modifies st
    ensures st[..] == XorBytes(old(st[..]), data[offset..offset + n])
  {
    hide Xor, ShiftIn;
    ghost var a: State := st[..];
    var i := 0;
    while i < n
      invariant 0 <= i <= n
      invariant st[..] == XorBytes(a, data[offset..offset + i])
    {
      assert data[offset..offset + (i + 1)][..i] == data[offset..offset + i];
      st[i / 8] := Xor(st[i / 8], ShiftIn(data[offset + i], i % 8));
      i := i + 1;
    }
  }

  /** The whole hash: absorb full blocks, XOR in the tail and the padding, permute, squeeze 32 bytes. */
  method Keccak256(data: seq<Octet>) returns (out: seq<Octet>)
    ensures out == Digest(data)
  {
    hide Permutation, XorBytes, XorBlock, Xor, ShiftIn, ByteAt, PadBytes;
    var st := new Lane[25](_ => 0);
    ghost var q := 0;
    var offset := 0;
    while offset + RATE <= |data|
      invariant offset == RATE * q <= |data|
      invariant st[..] == Absorbed(data, q)
      decreases |data| - offset
    {
      AbsorbBytes(st, data, offset, RATE);
      XorBytesIsBlock(Absorbed(data, q), data[offset..offset + RATE]);
      KeccakF(st);
      offset := offset + RATE;
      q := q + 1;
    }
    var rem := |data| - offset;
    AbsorbBytes(st, data, offset, rem);
    ghost var a: State := Absorbed(data, q);
    st[rem / 8] := Xor(st[rem / 8], ShiftIn(0x01, rem % 8));
    st[(RATE - 1) / 8] := Xor(st[(RATE - 1) / 8], ShiftIn(0x80, (RATE - 1) % 8));
    assert data[offset..offset + rem] == data[offset..];
    LastBlock(a, data[offset..]);
    KeccakF(st);
    PaddedTail(data, q);
    out := Squeeze(st);
  }

  /** The padded message ends in the padded tail, after the full blocks of the message. */
  lemma PaddedTail(m: seq<Octet>, q: nat)
    requires RATE * q <= |m| < RATE * (q + 1)
    ensures |m| / RATE == q
    ensures Absorbed(Padded(m), q + 1)
         == Permutation(XorBlock(Absorbed(m, q), m[RATE * q..] + PadBytes(RATE - (|m| - RATE * q))))
  {
    hide Permutation, XorBlock, PadBytes;
    var r := |m| - RATE * q;
    ModUnique(|m|, q, r, RATE);
    var p := Padded(m);
    assert p[..RATE * q] == m[..RATE * q];
    AbsorbPrefix(m, p, q);
    assert p[RATE * q..RATE * (q + 1)] == m[RATE * q..] + PadBytes(RATE - r);
  }

  method Squeeze(st: array<Lane>) returns (out: seq<Octet>)
    requires st.Length == 25
    ensures out == Squeezed(st[..])
  {
    hide ByteAt;
    var bytes := new Octet[32](_ => 0);
    var i := 0;
    while i < bytes.Length
      invariant 0 <= i <= 32
      invariant forall k :: 0 <= k < i ==> bytes[k] == ByteAt(st[k / 8], k % 8)
    {
      bytes[i] := ByteAt(st[i / 8], i % 8);
      i := i + 1;
    }
    out := bytes[..];
  }
}
