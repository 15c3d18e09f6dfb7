/**
 The constants of SHA-256. Sections 4.2.2 and 5.3.3 of FIPS 180-4 define them by
 roots of the first prime numbers; the tables are the ones written there.
 */
module ShaConstants {
  import opened NumberTheory
  import opened Sha256

  /** The first sixty-four primes, written out. */
  const PRIMES: seq<nat> := PRIMES_FIRST + PRIMES_SECOND + PRIMES_THIRD + PRIMES_FOURTH

  const PRIMES_FIRST: seq<nat> := [2, 3, 5, 7, 11, 13, 17, 19, 23, 29, 31, 37, 41, 43, 47, 53]

  const PRIMES_SECOND: seq<nat> := [59, 61, 67, 71, 73, 79, 83, 89, 97, 101, 103, 107, 109, 113, 127, 131]

  const PRIMES_THIRD: seq<nat> := [137, 139, 149, 151, 157, 163, 167, 173, 179, 181, 191, 193, 197, 199, 211, 223]

  const PRIMES_FOURTH: seq<nat> := [227, 229, 233, 239, 241, 251, 257, 263, 269, 271, 277, 281, 283, 293, 307, 311]

  /** `r` is the integer part of the square root of `p * 2^64`. */
  predicate SquareFloor(r: nat, p: nat)
  {
    r * r <= p * 0x1_0000_0000_0000_0000 < (r + 1) * (r + 1)
  }

  /** `r` is the integer part of the cube root of `p * 2^96`. */
  predicate CubeFloor(r: nat, p: nat)
  {
    r * r * r <= p * 0x1_0000_0000_0000_0000_0000_0000 < (r + 1) * (r + 1) * (r + 1)
  }

  /** The first 32 bits of the fractional part of the square root. */
  ghost predicate SquareRootBits(p: nat, v: nat)
  {
    exists r: nat :: SquareFloor(r, p) && r % 0x1_0000_0000 == v
  }

  /** The first 32 bits of the fractional part of the cube root. */
  ghost predicate CubeRootBits(p: nat, v: nat)
  {
    exists r: nat :: CubeFloor(r, p) && r % 0x1_0000_0000 == v
  }

  function SquareInt(p: nat): nat
  {
    if p < 4 then 1 else if p < 9 then 2 else if p < 16 then 3 else 4
  }

  function CubeInt(p: nat): nat
  {
    if p < 8 then 1 else if p < 27 then 2 else if p < 64 then 3 else if p < 125 then 4 else if p < 216 then 5 else 6
  }

  lemma Fraction(w: nat, v: nat)
    requires v < 0x1_0000_0000
    ensures (w * 0x1_0000_0000 + v) % 0x1_0000_0000 == v
  {
    ModUnique(w * 0x1_0000_0000 + v, w, v, 0x1_0000_0000);
  }

  lemma CubeEntry(t: nat, p: nat, v: nat)
    requires t < 64 && PRIMES[t] == p && K[t] as nat == v
    requires CubeFloor(CubeInt(p) * 0x1_0000_0000 + v, p)
    ensures CubeRootBits(PRIMES[t], K[t] as nat)
  {
    hide CubeFloor, CubeInt;
    Fraction(CubeInt(p), v);
  }

  lemma Cubes0(t: nat)
    requires 0 <= t < 8
    ensures CubeRootBits(PRIMES[t], K[t] as nat)
  {
    hide CubeRootBits;
    match t
    case 0 => CubeEntry(0, 2, 0x428a2f98);
    case 1 => CubeEntry(1, 3, 0x71374491);
    case 2 => CubeEntry(2, 5, 0xb5c0fbcf);
    case 3 => CubeEntry(3, 7, 0xe9b5dba5);
    case 4 => CubeEntry(4, 11, 0x3956c25b);
    case 5 => CubeEntry(5, 13, 0x59f111f1);
    case 6 => CubeEntry(6, 17, 0x923f82a4);
    case _ => CubeEntry(7, 19, 0xab1c5ed5);
  }

  lemma Cubes8(t: nat)
    requires 8 <= t < 16
    ensures CubeRootBits(PRIMES[t], K[t] as nat)
  {
    hide CubeRootBits;
    match t
    case 8 => CubeEntry(8, 23, 0xd807aa98);
    case 9 => CubeEntry(9, 29, 0x12835b01);
    case 10 => CubeEntry(10, 31, 0x243185be);
    case 11 => CubeEntry(11, 37, 0x550c7dc3);
    case 12 => CubeEntry(12, 41, 0x72be5d74);
    case 13 => CubeEntry(13, 43, 0x80deb1fe);
    case 14 => CubeEntry(14, 47, 0x9bdc06a7);
    case _ => CubeEntry(15, 53, 0xc19bf174);
  }

  lemma Cubes16(t: nat)
    requires 16 <= t < 24
    ensures CubeRootBits(PRIMES[t], K[t] as nat)
  {
    hide CubeRootBits;
    match t
    case 16 => CubeEntry(16, 59, 0xe49b69c1);
    case 17 => CubeEntry(17, 61, 0xefbe4786);
    case 18 => CubeEntry(18, 67, 0x0fc19dc6);
    case 19 => CubeEntry(19, 71, 0x240ca1cc);
    case 20 => CubeEntry(20, 73, 0x2de92c6f);
    case 21 => CubeEntry(21, 79, 0x4a7484aa);
    case 22 => CubeEntry(22, 83, 0x5cb0a9dc);
    case _ => CubeEntry(23, 89, 0x76f988da);
  }

  lemma Cubes24(t: nat)
    requires 24 <= t < 32
    ensures CubeRootBits(PRIMES[t], K[t] as nat)
  {
    hide CubeRootBits;
    match t
    case 24 => CubeEntry(24, 97, 0x983e5152);
    case 25 => CubeEntry(25, 101, 0xa831c66d);
    case 26 => CubeEntry(26, 103, 0xb00327c8);
    case 27 => CubeEntry(27, 107, 0xbf597fc7);
    case 28 => CubeEntry(28, 109, 0xc6e00bf3);
    case 29 => CubeEntry(29, 113, 0xd5a79147);
    case 30 => CubeEntry(30, 127, 0x06ca6351);
    case _ => CubeEntry(31, 131, 0x14292967);
  }

  lemma Cubes32(t: nat)
    requires 32 <= t < 40
    ensures CubeRootBits(PRIMES[t], K[t] as nat)
  {
    hide CubeRootBits;
    match t
    case 32 => CubeEntry(32, 137, 0x27b70a85);
    case 33 => CubeEntry(33, 139, 0x2e1b2138);
    case 34 => CubeEntry(34, 149, 0x4d2c6dfc);
    case 35 => CubeEntry(35, 151, 0x53380d13);
    case 36 => CubeEntry(36, 157, 0x650a7354);
    case 37 => CubeEntry(37, 163, 0x766a0abb);
    case 38 => CubeEntry(38, 167, 0x81c2c92e);
    case _ => CubeEntry(39, 173, 0x92722c85);
  }

  lemma Cubes40(t: nat)
    requires 40 <= t < 48
    ensures CubeRootBits(PRIMES[t], K[t] as nat)
  {
    hide CubeRootBits;
    match t
    case 40 => CubeEntry(40, 179, 0xa2bfe8a1);
    case 41 => CubeEntry(41, 181, 0xa81a664b);
    case 42 => CubeEntry(42, 191, 0xc24b8b70);
    case 43 => CubeEntry(43, 193, 0xc76c51a3);
    case 44 => CubeEntry(44, 197, 0xd192e819);
    case 45 => CubeEntry(45, 199, 0xd6990624);
    case 46 => CubeEntry(46, 211, 0xf40e3585);
    case _ => CubeEntry(47, 223, 0x106aa070);
  }

  lemma Cubes48(t: nat)
    requires 48 <= t < 56
    ensures CubeRootBits(PRIMES[t], K[t] as nat)
  {
    hide CubeRootBits;
    match t
    case 48 => CubeEntry(48, 227, 0x19a4c116);
    case 49 => CubeEntry(49, 229, 0x1e376c08);
    case 50 => CubeEntry(50, 233, 0x2748774c);
    case 51 => CubeEntry(51, 239, 0x34b0bcb5);
    case 52 => CubeEntry(52, 241, 0x391c0cb3);
    case 53 => CubeEntry(53, 251, 0x4ed8aa4a);
    case 54 => CubeEntry(54, 257, 0x5b9cca4f);
    case _ => CubeEntry(55, 263, 0x682e6ff3);
  }

  lemma Cubes56(t: nat)
    requires 56 <= t < 64
    ensures CubeRootBits(PRIMES[t], K[t] as nat)
  {
    hide CubeRootBits;
    match t
    case 56 => CubeEntry(56, 269, 0x748f82ee);
    case 57 => CubeEntry(57, 271, 0x78a5636f);
    case 58 => CubeEntry(58, 277, 0x84c87814);
    case 59 => CubeEntry(59, 281, 0x8cc70208);
    case 60 => CubeEntry(60, 283, 0x90befffa);
    case 61 => CubeEntry(61, 293, 0xa4506ceb);
    case 62 => CubeEntry(62, 307, 0xbef9a3f7);
    case _ => CubeEntry(63, 311, 0xc67178f2);
  }

  /** The round constants are the first 32 bits of the fractional parts of the cube roots of the primes. */
  lemma RoundConstantsAreCubeRoots(t: nat)
    requires t < 64
    ensures CubeRootBits(PRIMES[t], K[t] as nat)
  {
    hide CubeRootBits;
    if t < 8 { Cubes0(t); } else if t < 16 { Cubes8(t); }
    else if t < 24 { Cubes16(t); } else if t < 32 { Cubes24(t); }
    else if t < 40 { Cubes32(t); } else if t < 48 { Cubes40(t); }
    else if t < 56 { Cubes48(t); } else { Cubes56(t); }
  }

  lemma SquareEntry(p: nat, v: nat)
    requires v < 0x1_0000_0000 && SquareFloor(SquareInt(p) * 0x1_0000_0000 + v, p)
    ensures SquareRootBits(p, v)
  {
    hide SquareFloor;
    Fraction(SquareInt(p), v);
  }

  /** The initial hash value has the bits of the square roots of the first eight primes. */
  lemma InitialValueIsSquareRoots()
    ensures SquareRootBits(2, H0.a as nat) && SquareRootBits(3, H0.b as nat)
    ensures SquareRootBits(5, H0.c as nat) && SquareRootBits(7, H0.d as nat)
    ensures SquareRootBits(11, H0.e as nat) && SquareRootBits(13, H0.f as nat)
    ensures SquareRootBits(17, H0.g as nat) && SquareRootBits(19, H0.h as nat)
  {
    hide SquareRootBits;
    SquareEntry(2, H0.a as nat);
    SquareEntry(3, H0.b as nat);
    SquareEntry(5, H0.c as nat);
    SquareEntry(7, H0.d as nat);
    SquareEntry(11, H0.e as nat);
    SquareEntry(13, H0.f as nat);
    SquareEntry(17, H0.g as nat);
    SquareEntry(19, H0.h as nat);
  }
}
