/**
 The functions of SHA-256 bit by bit, as sections 3.2 and 4.1.2 of FIPS 180-4
 describe them: which bits of the operands each bit of the result is made of.
 */
module ShaBits {
  import opened NumberTheory
  import opened Octets
  import opened Sha256
  import opened KeccakBits
  import Keccak

  function Wide(x: Word): Keccak.Lane { x as Keccak.Lane }

  /** Bit `z` of a word, 0 being the least significant. */
  predicate WordBit(x: Word, z: nat)
  {
    Bit(Wide(x), z)
  }

  function Sum(a: bool, b: bool): bool
  {
    a != b
  }

  // ----- words as lanes -----

  function XorWords(x: Word, y: Word): Word { x ^ y }

  lemma WideXor(x: Word, y: Word)
    ensures Wide(XorWords(x, y)) == Keccak.Xor(Wide(x), Wide(y))
  {
  }

  lemma WordXor(x: Word, y: Word, z: nat)
    ensures WordBit(XorWords(x, y), z) == Sum(WordBit(x, z), WordBit(y, z))
  {
    hide Bit, Wide, XorWords;
    WideXor(x, y);
    BitXor(Wide(x), Wide(y), z);
  }

  function HalfWord(x: Word): Word { x >> 1 }

  lemma WideIs(x: Word)
    ensures Wide(x) == x as Keccak.Lane
  {
  }

  lemma HalfWordIs(x: Word)
    ensures HalfWord(x) == x >> 1
  {
  }

  lemma WidenedHalf(x: Word)
    ensures Half(x as Keccak.Lane) == (x >> 1) as Keccak.Lane
  {
  }

  lemma WideHalf(x: Word)
    ensures Half(Wide(x)) == Wide(HalfWord(x))
  {
    hide Half, Wide, HalfWord;
    HalfWordIs(x);
    WideIs(x);
    WideIs(x >> 1);
    WidenedHalf(x);
  }

  lemma WordShift(x: Word, z: nat)
    ensures WordBit(x, z + 1) == WordBit(HalfWord(x), z)
  {
    hide Half, Low, Wide, HalfWord;
    WideHalf(x);
  }

  lemma NoHighBits(x: Word)
    ensures Drop32(Wide(x)) == 0
  {
  }

  /** Above bit 31 there is nothing. */
  lemma WordEnds(x: Word, z: nat)
    requires z >= 32
    ensures !WordBit(x, z)
  {
    hide Bit, Wide, Drop32;
    BitDrop32(Wide(x), z - 32);
    NoHighBits(x);
    BitZero(z - 32);
  }

  // ----- rotation by one -----

  function RotrOne(x: Word): Word
  {
    (x >> 1) | (x << 31)
  }

  function TopIf(b: bool): Keccak.Lane
  {
    if b then 0x8000_0000 else 0
  }

  lemma WideRotrOne(x: Word)
    ensures Wide(RotrOne(x)) == Keccak.Xor(Half(Wide(x)), TopIf(Low(Wide(x))))
  {
  }

  lemma TopWordBit(b: bool, z: nat)
    requires z < 32
    ensures Bit(TopIf(b), z) == (b && z == 31)
  {
    hide Bit, Drop32;
    if b {
      TopWordShift();
      BitDrop32(0x8000_0000_0000_0000, z);
      if z < 31 {
        TopOnly(z + 32);
      } else {
        TopBit(0x8000_0000_0000_0000);
        TopOfHalf(0x8000_0000_0000_0000);
        TopIsSet();
      }
    } else {
      BitZero(z);
    }
  }

  lemma TopWordShift()
    ensures Drop32(0x8000_0000_0000_0000) == 0x8000_0000
  {
  }

  lemma TopIsSet()
    ensures Low(TopDown(0x8000_0000_0000_0000))
  {
  }

  lemma LowBit(x: Word)
    ensures Low(Wide(x)) == WordBit(x, 0)
  {
    hide Low, Wide;
  }

  lemma HalfBit(x: Word, z: nat)
    ensures Bit(Half(Wide(x)), z) == WordBit(x, z + 1)
  {
    hide Low, Half, Wide;
  }

  function Above(z: nat): nat
  {
    if z == 31 then 0 else z + 1
  }

  lemma BitRotrOne(x: Word, z: nat)
    requires z < 32
    ensures WordBit(RotrOne(x), z) == WordBit(x, Above(z))
  {
    hide RotrOne, Bit, Half, Low, Wide, TopIf;
    WideRotrOne(x);
    BitXor(Half(Wide(x)), TopIf(Low(Wide(x))), z);
    TopWordBit(Low(Wide(x)), z);
    LowBit(x);
    HalfBit(x, z);
    if z == 31 {
      WordEnds(x, 32);
    }
  }

  // ----- rotation by any amount -----

  lemma NextShift(n: nat)
    requires n < 31
    ensures (n + 1) as bv6 == (n as bv6) + 1
  {
  }

  lemma SmallShift(n: nat)
    requires n < 31
    ensures (n as bv6) < 31
  {
  }

  function RightBy(x: Word, w: bv6): Word
    requires w <= 32
  {
    x >> w
  }

  function LeftBy(x: Word, w: bv6): Word
    requires w <= 32
  {
    x << w
  }

  function DoubleWord(x: Word): Word { x << 1 }

  function LowPart(x: Word): Word { x & 1 }

  function HighPart(x: Word): Word { x >> 31 }

  function OrWords(x: Word, y: Word): Word { x | y }

  lemma ShiftedRightOn(x: Word, w: bv6)
    requires w < 31
    ensures (x >> w) >> 1 == x >> (w + 1)
  {
  }

  lemma RightOn(x: Word, w: bv6)
    requires w < 31
    ensures HalfWord(RightBy(x, w)) == RightBy(x, w + 1)
  {
    ShiftedRightOn(x, w);
  }

  lemma ShiftedLeftOn(x: Word, w: bv6)
    requires w < 32
    ensures (x << w) << 1 == x << (w + 1)
  {
  }

  lemma LeftOn(x: Word, w: bv6)
    requires w < 32
    ensures DoubleWord(LeftBy(x, w)) == LeftBy(x, w + 1)
  {
    ShiftedLeftOn(x, w);
  }

  lemma LeftTop(x: Word, w: bv6)
    requires w < 31
    ensures HighPart(LeftBy(x, 31 - w)) == LowPart(RightBy(x, w))
  {
  }

  /** Two parts that do not overlap, moved on by one place. */
  lemma OneOn(l: Word, r: Word, y: Word)
    requires DoubleWord(y) == r && HighPart(y) == LowPart(l)
    ensures OrWords(HalfWord(l), y) == RotrOne(OrWords(l, r))
  {
  }

  lemma ShiftsLeft(w: bv6)
    requires w < 31
    ensures 32 - (w + 1) == 31 - w && (31 - w) + 1 == 32 - w && 31 - w < 32
  {
  }

  lemma ShiftFits(w: bv6)
    requires w < 31
    ensures w + 1 <= 32
  {
  }

  lemma AsWords(x: Word, w: bv6)
    requires w <= 32
    ensures RotatedRight(x, w) == OrWords(RightBy(x, w), LeftBy(x, 32 - w))
  {
  }

  lemma RotatedRightOn(x: Word, w: bv6)
    requires w < 31
    ensures w + 1 <= 32
    ensures RotatedRight(x, w + 1) == RotrOne(RotatedRight(x, w))
  {
    hide RotrOne, RotatedRight, RightBy, LeftBy, DoubleWord, LowPart, HighPart, OrWords, HalfWord;
    ShiftFits(w);
    ShiftsLeft(w);
    AsWords(x, w);
    AsWords(x, w + 1);
    RightOn(x, w);
    LeftOn(x, 31 - w);
    LeftTop(x, w);
    OneOn(RightBy(x, w), LeftBy(x, 32 - w), LeftBy(x, 31 - w));
  }

  lemma RotrStep(x: Word, n: nat)
    requires n < 31
    ensures Rotr(x, n + 1) == RotrOne(Rotr(x, n))
  {
    hide RotrOne, RotatedRight;
    NextShift(n);
    SmallShift(n);
    RotatedRightOn(x, n as bv6);
  }

  lemma RotrNone(x: Word)
    ensures Rotr(x, 0) == x
  {
  }

  lemma AboveAgain(z: nat, n: nat)
    requires 0 < n < 32 && z < 32
    ensures (Above(z) + (n - 1)) % 32 == (z + n) % 32
  {
  }

  /** Rotation to the right by `n` brings bit `z + n`, modulo 32, to place `z`. */
  lemma {:induction false} BitRotr(x: Word, n: nat, z: nat)
    requires n < 32 && z < 32
    ensures WordBit(Rotr(x, n), z) == WordBit(x, (z + n) % 32)
  {
    hide WordBit, Rotr, RotrOne;
    if n == 0 {
      RotrNone(x);
    } else {
      RotrStep(x, n - 1);
      BitRotrOne(Rotr(x, n - 1), z);
      BitRotr(x, n - 1, Above(z));
      AboveAgain(z, n);
    }
  }

  function Shr3(x: Word): Word { x >> 3 }

  function Shr10(x: Word): Word { x >> 10 }

  lemma BitShr3(x: Word, z: nat)
    ensures WordBit(Shr3(x), z) == WordBit(x, z + 3)
  {
    hide Bit, WordBit, HalfWord, Shr3;
    WordShift(x, z + 2);
    WordShift(HalfWord(x), z + 1);
    WordShift(HalfWord(HalfWord(x)), z);
    ThreeHalves(x);
  }

  lemma ThreeHalves(x: Word)
    ensures HalfWord(HalfWord(HalfWord(x))) == Shr3(x)
  {
  }

  lemma WideShift10(x: Word)
    ensures Drop2(Drop8(Wide(x))) == Wide(Shr10(x))
  {
    hide Drop2, Drop8, Wide, Shr10;
    Shr10Is(x);
    WideIs(x);
    WideIs(x >> 10);
    WidenedShift10(x);
  }

  lemma Shr10Is(x: Word)
    ensures Shr10(x) == x >> 10
  {
  }

  lemma WidenedShift10(x: Word)
    ensures Drop2(Drop8(x as Keccak.Lane)) == (x >> 10) as Keccak.Lane
  {
  }

  lemma BitShr10(x: Word, z: nat)
    ensures WordBit(Shr10(x), z) == WordBit(x, z + 10)
  {
    hide Bit, Drop2, Drop8, Shr10, Wide;
    WideShift10(x);
    BitDrop8(Wide(x), z + 2);
    BitDrop2(Drop8(Wide(x)), z);
  }

  // ----- section 4.1.2 -----

  function Xor3(a: Word, b: Word, c: Word): Word
  {
    XorWords(XorWords(a, b), c)
  }

  lemma ThreeTerms(a: Word, b: Word, c: Word, z: nat)
    ensures WordBit(Xor3(a, b, c), z) == Sum(Sum(WordBit(a, z), WordBit(b, z)), WordBit(c, z))
  {
    hide WordBit, XorWords;
    WordXor(XorWords(a, b), c, z);
    WordXor(a, b, z);
  }

  lemma XorWordsIs(a: Word, b: Word)
    ensures XorWords(a, b) == a ^ b
  {
  }

  lemma Xor3Is(a: Word, b: Word, c: Word)
    ensures Xor3(a, b, c) == a ^ b ^ c
  {
    hide XorWords;
    XorWordsIs(a, b);
    XorWordsIs(a ^ b, c);
  }

  lemma BigSigma0Terms(x: Word)
    ensures BigSigma0(x) == Xor3(Rotr(x, 2), Rotr(x, 13), Rotr(x, 22))
  {
    hide Rotr, Xor3, XorWords;
    Xor3Is(Rotr(x, 2), Rotr(x, 13), Rotr(x, 22));
  }

  lemma BigSigma1Terms(x: Word)
    ensures BigSigma1(x) == Xor3(Rotr(x, 6), Rotr(x, 11), Rotr(x, 25))
  {
    hide Rotr, Xor3, XorWords;
    Xor3Is(Rotr(x, 6), Rotr(x, 11), Rotr(x, 25));
  }

  lemma SmallSigma0Terms(x: Word)
    ensures SmallSigma0(x) == Xor3(Rotr(x, 7), Rotr(x, 18), Shr3(x))
  {
    hide Rotr, Xor3, XorWords;
    Xor3Is(Rotr(x, 7), Rotr(x, 18), Shr3(x));
  }

  lemma SmallSigma1Terms(x: Word)
    ensures SmallSigma1(x) == Xor3(Rotr(x, 17), Rotr(x, 19), Shr10(x))
  {
    hide Rotr, Xor3, XorWords;
    Xor3Is(Rotr(x, 17), Rotr(x, 19), Shr10(x));
  }

  /** Each bit of the four sigma functions is the sum of the bits at the standard's distances. */
  lemma BigSigma0Bits(x: Word, z: nat)
    requires z < 32
    ensures WordBit(BigSigma0(x), z)
         == Sum(Sum(WordBit(x, (z + 2) % 32), WordBit(x, (z + 13) % 32)), WordBit(x, (z + 22) % 32))
  {
    hide WordBit, Rotr, Xor3, Shr3, Shr10, BigSigma0, BigSigma1, SmallSigma0, SmallSigma1;
    BigSigma0Terms(x);
    ThreeTerms(Rotr(x, 2), Rotr(x, 13), Rotr(x, 22), z);
    BitRotr(x, 2, z);
    BitRotr(x, 13, z);
    BitRotr(x, 22, z);
  }

  lemma BigSigma1Bits(x: Word, z: nat)
    requires z < 32
    ensures WordBit(BigSigma1(x), z)
         == Sum(Sum(WordBit(x, (z + 6) % 32), WordBit(x, (z + 11) % 32)), WordBit(x, (z + 25) % 32))
  {
    hide WordBit, Rotr, Xor3, Shr3, Shr10, BigSigma0, BigSigma1, SmallSigma0, SmallSigma1;
    BigSigma1Terms(x);
    ThreeTerms(Rotr(x, 6), Rotr(x, 11), Rotr(x, 25), z);
    BitRotr(x, 6, z);
    BitRotr(x, 11, z);
    BitRotr(x, 25, z);
  }

  lemma SmallSigma0Bits(x: Word, z: nat)
    requires z < 32
    ensures WordBit(SmallSigma0(x), z)
         == Sum(Sum(WordBit(x, (z + 7) % 32), WordBit(x, (z + 18) % 32)), z + 3 < 32 && WordBit(x, z + 3))
  {
    hide WordBit, Rotr, Xor3, Shr3, Shr10, BigSigma0, BigSigma1, SmallSigma0, SmallSigma1;
    SmallSigma0Terms(x);
    ThreeTerms(Rotr(x, 7), Rotr(x, 18), Shr3(x), z);
    BitRotr(x, 7, z);
    BitRotr(x, 18, z);
    BitShr3(x, z);
    if z + 3 >= 32 {
      WordEnds(x, z + 3);
    }
  }

  lemma SmallSigma1Bits(x: Word, z: nat)
    requires z < 32
    ensures WordBit(SmallSigma1(x), z)
         == Sum(Sum(WordBit(x, (z + 17) % 32), WordBit(x, (z + 19) % 32)), z + 10 < 32 && WordBit(x, z + 10))
  {
    hide WordBit, Rotr, Xor3, Shr3, Shr10, BigSigma0, BigSigma1, SmallSigma0, SmallSigma1;
    SmallSigma1Terms(x);
    ThreeTerms(Rotr(x, 17), Rotr(x, 19), Shr10(x), z);
    BitRotr(x, 17, z);
    BitRotr(x, 19, z);
    BitShr10(x, z);
    if z + 10 >= 32 {
      WordEnds(x, z + 10);
    }
  }

  lemma ChHalf(x: Word, y: Word, z: Word)
    ensures HalfWord(Ch(x, y, z)) == Ch(HalfWord(x), HalfWord(y), HalfWord(z))
  {
  }

  lemma ChLow(x: Word, y: Word, z: Word)
    ensures Low(Wide(Ch(x, y, z))) == if Low(Wide(x)) then Low(Wide(y)) else Low(Wide(z))
  {
  }

  /** `Ch` chooses: where `x` has a one the bit of `y`, elsewhere that of `z`. */
  lemma {:induction false} ChBits(x: Word, y: Word, z: Word, i: nat)
    ensures WordBit(Ch(x, y, z), i) == if WordBit(x, i) then WordBit(y, i) else WordBit(z, i)
    decreases i
  {
    hide Ch, Wide, Low, Half, HalfWord;
    if i == 0 {
      ChLow(x, y, z);
    } else {
      ChHalf(x, y, z);
      WordShift(x, i - 1);
      WordShift(y, i - 1);
      WordShift(z, i - 1);
      WordShift(Ch(x, y, z), i - 1);
      ChBits(HalfWord(x), HalfWord(y), HalfWord(z), i - 1);
    }
  }

  lemma MajHalf(x: Word, y: Word, z: Word)
    ensures HalfWord(Maj(x, y, z)) == Maj(HalfWord(x), HalfWord(y), HalfWord(z))
  {
  }

  predicate Two(a: bool, b: bool, c: bool)
  {
    (a && b) || (a && c) || (b && c)
  }

  lemma MajLow(x: Word, y: Word, z: Word)
    ensures Low(Wide(Maj(x, y, z))) == Two(Low(Wide(x)), Low(Wide(y)), Low(Wide(z)))
  {
  }

  /** `Maj` is the majority of three bits. */
  lemma {:induction false} MajBits(x: Word, y: Word, z: Word, i: nat)
    ensures WordBit(Maj(x, y, z), i) == Two(WordBit(x, i), WordBit(y, i), WordBit(z, i))
    decreases i
  {
    hide Maj, Wide, Low, Half, HalfWord, Two;
    if i == 0 {
      MajLow(x, y, z);
    } else {
      MajHalf(x, y, z);
      WordShift(x, i - 1);
      WordShift(y, i - 1);
      WordShift(z, i - 1);
      WordShift(Maj(x, y, z), i - 1);
      MajBits(HalfWord(x), HalfWord(y), HalfWord(z), i - 1);
    }
  }
}
