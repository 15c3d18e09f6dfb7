/** SHA-256: the definition of FIPS 180-4 and the buffered loop that must equal it. */
module Sha256 {

  import opened NumberTheory
  import opened Octets

  type Word = bv32

  /** Eight words: a hash value, or the working variables of one block. */
  datatype State = State(a: Word, b: Word, c: Word, d: Word, e: Word, f: Word, g: Word, h: Word)

  const TWO64: nat := 0x1_0000_0000_0000_0000

  // ----- sections 3.2.4 and 4.1.2: functions -----

  /** Circular right shift; the amount is an unsigned machine number. */
  function Rotr(x: Word, n: nat): Word
    requires n < 32
  {
    RotatedRight(x, n as bv6)
  }

  function RotatedRight(x: Word, shift: bv6): Word
    requires shift <= 32
  {
    (x >> shift) | (x << (32 - shift))
  }

  /** Addition modulo 2^32. */
  function Plus(x: Word, y: Word): Word { x + y }

  function Ch(x: Word, y: Word, z: Word): Word { (x & y) ^ (!x & z) }

  function Maj(x: Word, y: Word, z: Word): Word { (x & y) ^ (x & z) ^ (y & z) }

  function BigSigma0(x: Word): Word { Rotr(x, 2) ^ Rotr(x, 13) ^ Rotr(x, 22) }

  function BigSigma1(x: Word): Word { Rotr(x, 6) ^ Rotr(x, 11) ^ Rotr(x, 25) }

  function SmallSigma0(x: Word): Word { Rotr(x, 7) ^ Rotr(x, 18) ^ (x >> 3) }

  function SmallSigma1(x: Word): Word { Rotr(x, 17) ^ Rotr(x, 19) ^ (x >> 10) }

  // ----- sections 4.2.2 and 5.3.3: constants -----

  const K: seq<Word> := K_FIRST + K_SECOND + K_THIRD + K_FOURTH

  const K_FIRST: seq<Word> := [
    0x428a2f98, 0x71374491, 0xb5c0fbcf, 0xe9b5dba5, 0x3956c25b, 0x59f111f1, 0x923f82a4, 0xab1c5ed5,
    0xd807aa98, 0x12835b01, 0x243185be, 0x550c7dc3, 0x72be5d74, 0x80deb1fe, 0x9bdc06a7, 0xc19bf174]

  const K_SECOND: seq<Word> := [
    0xe49b69c1, 0xefbe4786, 0x0fc19dc6, 0x240ca1cc, 0x2de92c6f, 0x4a7484aa, 0x5cb0a9dc, 0x76f988da,
    0x983e5152, 0xa831c66d, 0xb00327c8, 0xbf597fc7, 0xc6e00bf3, 0xd5a79147, 0x06ca6351, 0x14292967]

  const K_THIRD: seq<Word> := [
    0x27b70a85, 0x2e1b2138, 0x4d2c6dfc, 0x53380d13, 0x650a7354, 0x766a0abb, 0x81c2c92e, 0x92722c85,
    0xa2bfe8a1, 0xa81a664b, 0xc24b8b70, 0xc76c51a3, 0xd192e819, 0xd6990624, 0xf40e3585, 0x106aa070]

  const K_FOURTH: seq<Word> := [
    0x19a4c116, 0x1e376c08, 0x2748774c, 0x34b0bcb5, 0x391c0cb3, 0x4ed8aa4a, 0x5b9cca4f, 0x682e6ff3,
    0x748f82ee, 0x78a5636f, 0x84c87814, 0x8cc70208, 0x90befffa, 0xa4506ceb, 0xbef9a3f7, 0xc67178f2]

  const H0 := State(
    0x6a09e667, 0xbb67ae85, 0x3c6ef372, 0xa54ff53a, 0x510e527f, 0x9b05688c, 0x1f83d9ab, 0x5be0cd19)

  /** The round constants as a total function of the round. */
  function RoundConstant(t: nat): Word
  {
    if t < |K| then K[t] else 0
  }

  // ----- section 6.2.2: the compression function -----

  function BigEndianWord(b0: Octet, b1: Octet, b2: Octet, b3: Octet): Word
  {
    ((b0 as Word) << 24) | ((b1 as Word) << 16) | ((b2 as Word) << 8) | (b3 as Word)
  }

  /** Section 5.2.1: word `i` of a block, big-endian. */
  function BlockWord(block: seq<Octet>, i: nat): Word
    requires 4 * i + 3 < |block|
  {
    BigEndianWord(block[4 * i], block[4 * i + 1], block[4 * i + 2], block[4 * i + 3])
  }

  function Schedule(block: seq<Octet>, t: nat): Word
    requires |block| == 64
  {
    if t < 16 then BlockWord(block, t)
    else NextWord(Schedule(block, t - 16), Schedule(block, t - 15), Schedule(block, t - 7), Schedule(block, t - 2))
  }

  function NextWord(w16: Word, w15: Word, w7: Word, w2: Word): Word
  {
    w16 + SmallSigma0(w15) + w7 + SmallSigma1(w2)
  }

  /** One round on the working variables `a..h`. */
  function Round(s: State, k: Word, w: Word): State
  {
    var t1 := Temp1(s.e, s.f, s.g, s.h, k, w);
    State(Plus(t1, Temp2(s.a, s.b, s.c)), s.a, s.b, s.c, Plus(s.d, t1), s.e, s.f, s.g)
  }

  function Temp1(e: Word, f: Word, g: Word, h: Word, k: Word, w: Word): Word
  {
    h + BigSigma1(e) + Ch(e, f, g) + k + w
  }

  function Temp2(a: Word, b: Word, c: Word): Word
  {
    BigSigma0(a) + Maj(a, b, c)
  }

  function Rounds(s: State, block: seq<Octet>, t: nat): State
    requires |block| == 64
  {
    if t == 0 then s else Round(Rounds(s, block, t - 1), RoundConstant(t - 1), Schedule(block, t - 1))
  }

  function AddStates(s: State, r: State): State
  {
    State(Plus(s.a, r.a), Plus(s.b, r.b), Plus(s.c, r.c), Plus(s.d, r.d),
          Plus(s.e, r.e), Plus(s.f, r.f), Plus(s.g, r.g), Plus(s.h, r.h))
  }

  function Compress(s: State, block: seq<Octet>): State
    requires |block| == 64
  {
    AddStates(s, Rounds(s, block, 64))
  }

  // ----- sections 5.1.1 and 6.2: padding and the digest -----

  function BigEndian(v: nat, n: nat): (b: seq<Octet>)
    ensures |b| == n
  {
    if n == 0 then [] else BigEndian(v / 256, n - 1) + [(v % 256) as Octet]
  }

  /** The zero bytes that bring message, marker and length to whole blocks. */
  function FillLength(n: nat): (z: nat)
    ensures z < 64 && (n + 9 + z) % 64 == 0
  {
    (55 - n) % 64
  }

  /** The padded message. Below 2^61 bytes the length field holds the exact bit length. */
  function Padded(m: seq<Octet>): (p: seq<Octet>)
    ensures |p| == |m| + 9 + FillLength(|m|)
  {
    m + [0x80] + Zeros(FillLength(|m|)) + BigEndian((8 * |m|) % TWO64, 8)
  }

  /** The hash value after the first `n` blocks. */
  function Absorbed(data: seq<Octet>, n: nat): State
    requires 64 * n <= |data|
  {
    if n == 0 then H0 else Compress(Absorbed(data, n - 1), data[64 * (n - 1)..64 * n])
  }

  function WordBytes(w: Word): (b: seq<Octet>)
    ensures |b| == 4
  {
    [ByteOf(w, 24), ByteOf(w, 16), ByteOf(w, 8), ByteOf(w, 0)]
  }

  function ByteOf(w: Word, shift: nat): Octet
    requires shift < 32
  {
    ((w >> shift) & 0xff) as Octet
  }

  function DigestBytes(s: seq<Word>): (b: seq<Octet>)
    ensures |b| == 4 * |s|
  {
    if s == [] then [] else WordBytes(s[0]) + DigestBytes(s[1..])
  }

  function Words(s: State): seq<Word>
  {
    [s.a, s.b, s.c, s.d, s.e, s.f, s.g, s.h]
  }

  function Digest(m: seq<Octet>): (d: seq<Octet>)
    ensures |d| == 32
  {
    DigestBytes(Words(Absorbed(Padded(m), |Padded(m)| / 64)))
  }

  // ----- what the pieces mean -----

  /** The fill is the least number of zero bytes that leaves room for the length. */
  lemma FillIsLeast(n: nat, y: nat)
    requires (n + 9 + y) % 64 == 0
    ensures FillLength(n) <= y
  {
    var z := FillLength(n);
    if y < z {
      assert (n + 9 + z) - (n + 9 + y) == z - y;
    }
  }

  lemma EightBytes()
    ensures Pow256(8) == TWO64
  {
    assert Pow256(4) == 0x1_0000_0000;
    assert Pow256(8) == 256 * (256 * (256 * (256 * Pow256(4))));
  }

  function Value(digits: seq<nat>): nat
  {
    if digits == [] then 0 else 256 * Value(digits[..|digits| - 1]) + digits[|digits| - 1]
  }

  /** The bytes of `BigEndian(v, n)` as numbers. */
  function Digits(v: nat, n: nat): (d: seq<nat>)
    ensures |d| == n && forall k :: 0 <= k < n ==> d[k] < 256
  {
    if n == 0 then [] else Digits(v / 256, n - 1) + [v % 256]
  }

  lemma {:induction false} DigitsRead(v: nat, n: nat)
    requires v < Pow256(n)
    ensures Value(Digits(v, n)) == v
    ensures forall k :: 0 <= k < n ==> BigEndian(v, n)[k] == Digits(v, n)[k] as Octet
  {
    DigitsValue(v, n);
    DigitsOctets(v, n);
  }

  lemma {:induction false} DigitsValue(v: nat, n: nat)
    requires v < Pow256(n)
    ensures Value(Digits(v, n)) == v
  {
    if n > 0 {
      DigitsValue(v / 256, n - 1);
      assert Digits(v, n)[..n - 1] == Digits(v / 256, n - 1);
    }
  }

  lemma {:induction false} DigitsOctets(v: nat, n: nat)
    ensures forall k :: 0 <= k < n ==> BigEndian(v, n)[k] == Digits(v, n)[k] as Octet
  {
    if n > 0 {
      DigitsOctets(v / 256, n - 1);
      assert Digits(v, n)[n - 1] == v % 256 && BigEndian(v, n)[n - 1] == (v % 256) as Octet;
      forall k | 0 <= k < n - 1 ensures BigEndian(v, n)[k] == Digits(v, n)[k] as Octet {
        assert BigEndian(v, n)[k] == BigEndian(v / 256, n - 1)[k];
      }
    }
  }

  /** The last eight bytes of the padding are the exact bit length below 2^61 bytes. */
  lemma LengthFieldExact(m: seq<Octet>, k: nat)
    requires |m| < 0x2000_0000_0000_0000 && k < 8
    ensures Value(Digits(8 * |m|, 8)) == 8 * |m|
    ensures Padded(m)[|Padded(m)| - 8 + k] == Digits(8 * |m|, 8)[k] as Octet
  {
    hide Digits, Value, BigEndian, Pow256, Padded;
    var l := 8 * |m|;
    assert l % TWO64 == l;
    PaddedAt(m, |Padded(m)| - 8 + k);
    EightBytes();
    DigitsRead(l, 8);
  }

  lemma {:induction false} BigEndianAt(v: nat, n: nat, k: nat)
    requires k < n
    ensures BigEndian(v, n)[k] == ((v / Pow256(n - 1 - k)) % 256) as Octet
  {
    if k < n - 1 {
      BigEndianAt(v / 256, n - 1, k);
      var e := n - 2 - k;
      DivDiv(v, Pow256(e));
      assert Pow256(e + 1) == 256 * Pow256(e);
    }
  }

  lemma DivDiv(v: nat, b: nat)
    requires b > 0
    ensures (v / 256) / b == v / (256 * b)
  {
    var q := v / 256;
    var x, r, t := q / b, q % b, v % 256;
    assert q == b * x + r;
    assert v == (256 * b) * x + (256 * r + t);
    ModUnique(v, x, 256 * r + t, 256 * b);
  }

  /** The digest spells the final hash value, word after word, high byte first. */
  lemma {:induction false} DigestAt(s: seq<Word>, i: nat, j: nat)
    requires i < |s| && j < 4
    ensures DigestBytes(s)[4 * i + j] == WordBytes(s[i])[j]
  {
    hide ByteOf;
    if i > 0 {
      DigestAt(s[1..], i - 1, j);
      assert 4 * i + j - 4 == 4 * (i - 1) + j;
    }
  }

  lemma DigestWords(s: seq<Word>, i: nat)
    requires i < |s|
    ensures BlockWord(DigestBytes(s), i) == s[i]
  {
    hide ByteOf, BigEndianWord, DigestBytes;
    DigestAt(s, i, 0);
    DigestAt(s, i, 1);
    DigestAt(s, i, 2);
    DigestAt(s, i, 3);
    WordRoundTrip(s[i]);
  }

  lemma WordRoundTrip(w: Word)
    ensures BigEndianWord(ByteOf(w, 24), ByteOf(w, 16), ByteOf(w, 8), ByteOf(w, 0)) == w
  {
  }

  // ----- the buffered computation -----

  /** The context that the byte loop updates in place. */
  class Context {
    const state: array<Word>
    const block: array<Octet>
    var bitLen: nat
    var blockLen: nat

    ghost predicate Valid()
    {
      state.Length == 8 && block.Length == 64
    }

    function Hash(): State
      requires state.Length == 8
      reads state
    {
      State(state[0], state[1], state[2], state[3], state[4], state[5], state[6], state[7])
    }

    constructor ()
      ensures Valid() && fresh(state) && fresh(block)
      ensures Hash() == H0 && bitLen == 0 && blockLen == 0
    {
      state := new Word[] [H0.a, H0.b, H0.c, H0.d, H0.e, H0.f, H0.g, H0.h];
      block := new Octet[64](_ => 0);
      bitLen := 0;
      blockLen := 0;
    }

    method Push(x: Octet)
      requires Valid() && blockLen < 64
      modifies block, this`blockLen
      ensures blockLen == old(blockLen) + 1
      ensures block[..] == old(block[..])[old(blockLen) := x]
      ensures block[..blockLen] == old(block[..blockLen]) + [x]
    {
      block[blockLen] := x;
      blockLen := blockLen + 1;
    }

    /** Zero bytes up to a given fill. */
    method ZeroFill(limit: nat)
      requires Valid() && blockLen <= limit <= 64
      modifies block, this`blockLen
      ensures blockLen == limit
      ensures block[..limit] == old(block[..blockLen]) + Zeros(limit - old(blockLen))
    {
      while blockLen < limit
        invariant old(blockLen) <= blockLen <= limit
        invariant forall k :: 0 <= k < 64 ==>
                    block[k] == if old(blockLen) <= k < blockLen then 0 else old(block[k])
      {
        block[blockLen] := 0x00;
        blockLen := blockLen + 1;
      }
    }

    /** The bit count, most significant byte first. */
    method WriteLength()
      requires Valid() && blockLen == 56
      modifies block, this`blockLen
      ensures block[..] == old(block[..56]) + BigEndian(bitLen, 8)
      ensures blockLen == 64
    {
      hide BigEndian;
      var i := 7;
      while i >= 0
        invariant -1 <= i <= 7 && blockLen == 63 - i
        invariant forall k :: 0 <= k < 56 ==> block[k] == old(block[k])
        invariant forall k :: 0 <= k < 7 - i ==> block[56 + k] == BigEndian(bitLen, 8)[k]
      {
        BigEndianAt(bitLen, 8, 7 - i);
        block[blockLen] := ((bitLen / Pow256(i)) % 256) as Octet;
        blockLen := blockLen + 1;
        i := i - 1;
      }
    }

    /** One block: the message schedule, then 64 rounds on eight locals. */
    method Transform()
      requires Valid()
      modifies state
      ensures Hash() == Compress(old(Hash()), block[..])
    {
      hide Temp1, Temp2, Schedule, Plus;
      ghost var start, bytes := Hash(), block[..];
      var w := FillSchedule();
      var a, b, c, d := state[0], state[1], state[2], state[3];
      var e, f, g, h := state[4], state[5], state[6], state[7];
      var i := 0;
      while i < 64
        invariant 0 <= i <= 64 && Hash() == start
        invariant State(a, b, c, d, e, f, g, h) == Rounds(start, bytes, i)
      {
        var temp1 := Temp1(e, f, g, h, K[i], w[i]);
        var temp2 := Temp2(a, b, c);
        h := g;
        g := f;
        f := e;
        e := Plus(d, temp1);
        d := c;
        c := b;
        b := a;
        a := Plus(temp1, temp2);
        i := i + 1;
      }
      state[0] := Plus(state[0], a);
      state[1] := Plus(state[1], b);
      state[2] := Plus(state[2], c);
      state[3] := Plus(state[3], d);
      state[4] := Plus(state[4], e);
      state[5] := Plus(state[5], f);
      state[6] := Plus(state[6], g);
      state[7] := Plus(state[7], h);
    }

    /** No room for the length: zeros to the end of the block. */
    method CloseBlock()
      requires Valid() && blockLen <= 64
      modifies state, block, this`blockLen
      ensures blockLen == 0
      ensures Hash() == Compress(old(Hash()), old(block[..blockLen]) + Zeros(64 - old(blockLen)))
    {
      hide Compress;
      ZeroFill(64);
      assert block[..] == block[..64];
      Transform();
      blockLen := 0;
    }

    /** Zeros, the length, and the last block. */
    method CloseMessage()
      requires Valid() && blockLen <= 56
      modifies state, block, this`blockLen
      ensures Hash() == Compress(old(Hash()), old(block[..blockLen]) + Zeros(56 - old(blockLen)) + BigEndian(bitLen, 8))
    {
      hide Compress;
      ZeroFill(56);
      WriteLength();
      Transform();
    }

    /** Section 6.2.2, step 1: the message schedule of the buffered block. */
    method FillSchedule() returns (w: array<Word>)
      requires Valid()
      ensures fresh(w) && w.Length == 64
      ensures forall t :: 0 <= t < 64 ==> w[t] == Schedule(block[..], t)
    {
      hide NextWord, BigEndianWord;
      w := new Word[64](_ => 0);
      ghost var bytes := block[..];
      var i := 0;
      while i < 16
        invariant 0 <= i <= 16
        invariant forall t :: 0 <= t < i ==> w[t] == Schedule(bytes, t)
      {
        w[i] := BigEndianWord(block[i * 4], block[i * 4 + 1], block[i * 4 + 2], block[i * 4 + 3]);
        i := i + 1;
      }
      while i < 64
        invariant 16 <= i <= 64
        invariant forall t :: 0 <= t < i ==> w[t] == Schedule(bytes, t)
      {
        w[i] := NextWord(w[i - 16], w[i - 15], w[i - 7], w[i - 2]);
        i := i + 1;
      }
    }
  }

  /** Hashing the same blocks gives the same hash value. */
  lemma {:induction false} AbsorbPrefix(m: seq<Octet>, p: seq<Octet>, n: nat)
    requires 64 * n <= |m| && 64 * n <= |p| && m[..64 * n] == p[..64 * n]
    ensures Absorbed(m, n) == Absorbed(p, n)
  {
    hide Compress;
    if n > 0 {
      var k := 64 * (n - 1);
      assert m[..k] == m[..64 * n][..k] && p[..k] == p[..64 * n][..k];
      AbsorbPrefix(m, p, n - 1);
      assert m[k..64 * n] == m[..64 * n][k..] && p[k..64 * n] == p[..64 * n][k..];
    }
  }

  /** What stands where in the padded message. */
  lemma PaddedAt(m: seq<Octet>, i: nat)
    requires i < |Padded(m)|
    ensures i < |m| ==> Padded(m)[i] == m[i]
    ensures i == |m| ==> Padded(m)[i] == 0x80
    ensures |m| < i < |Padded(m)| - 8 ==> Padded(m)[i] == 0
    ensures i >= |Padded(m)| - 8 ==>
              Padded(m)[i] == BigEndian((8 * |m|) % TWO64, 8)[i - (|Padded(m)| - 8)]
  {
  }

  /** The padding fills one block when eight bytes are left after the marker, two otherwise. */
  lemma PaddedBlocks(m: seq<Octet>, q: nat, r: nat)
    requires |m| == 64 * q + r && r < 64
    ensures |Padded(m)| == 64 * (q + if r < 56 then 1 else 2)
  {
    hide Padded;
    FillOf(|m|, q, r);
  }

  lemma FillOf(n: nat, q: nat, r: nat)
    requires n == 64 * q + r && r < 64
    ensures FillLength(n) == if r < 56 then 55 - r else 119 - r
  {
    var z := if r < 56 then 55 - r else 119 - r;
    ModUnique(55 - n, 0 - q - (if r < 56 then 0 else 1), z, 64);
  }

  lemma PaddedPrefix(m: seq<Octet>, q: nat)
    requires 64 * q <= |m|
    ensures 64 * q <= |Padded(m)| && Absorbed(Padded(m), q) == Absorbed(m, q)
  {
    assert Padded(m)[..64 * q] == m[..64 * q];
    AbsorbPrefix(m, Padded(m), q);
  }

  /** A tail of at most 55 bytes, the marker, zeros and the length are the last block. */
  lemma OneLastBlock(m: seq<Octet>, q: nat, r: nat, block: seq<Octet>)
    requires |m| == 64 * q + r && r < 56 && |block| == 64
    requires block == m[64 * q..] + [0x80] + Zeros(55 - r) + BigEndian((8 * |m|) % TWO64, 8)
    ensures |Padded(m)| == 64 * (q + 1) && Padded(m)[64 * q..64 * (q + 1)] == block
  {
    PaddedBlocks(m, q, r);
    var p := Padded(m);
    forall k | 0 <= k < 64 ensures p[64 * q + k] == block[k] {
      PaddedAt(m, 64 * q + k);
    }
  }

  /** A longer tail takes the marker in one block and the length in the next. */
  lemma TwoLastBlocks(m: seq<Octet>, q: nat, r: nat, block: seq<Octet>, next: seq<Octet>)
    requires |m| == 64 * q + r && 56 <= r < 64 && |block| == |next| == 64
    requires block == m[64 * q..] + [0x80] + Zeros(63 - r)
    requires next == Zeros(56) + BigEndian((8 * |m|) % TWO64, 8)
    ensures |Padded(m)| == 64 * (q + 2) && Padded(m)[64 * q..64 * (q + 1)] == block
    ensures Padded(m)[64 * (q + 1)..64 * (q + 2)] == next
  {
    PaddedBlocks(m, q, r);
    var p := Padded(m);
    forall k | 0 <= k < 64 ensures p[64 * q + k] == block[k] && p[64 * (q + 1) + k] == next[k] {
      PaddedAt(m, 64 * q + k);
      PaddedAt(m, 64 * (q + 1) + k);
    }
  }

  /** One more buffered byte: the count wraps like the 64-bit field that holds it. */
  lemma BitCount(q: nat, r: nat)
    ensures ((512 * q) % TWO64 + 512) % TWO64 == (512 * (q + 1)) % TWO64
    ensures ((512 * q) % TWO64 + 8 * r) % TWO64 == (8 * (64 * q + r)) % TWO64
  {
    var l := 512 * q;
    assert (l % TWO64 + 512) % TWO64 == (l + 512) % TWO64;
    assert (l % TWO64 + 8 * r) % TWO64 == (l + 8 * r) % TWO64;
  }

  /** Appends the marker, the zero bytes and the length, transforming one or two blocks. */
  method Finish(ctx: Context, ghost data: seq<Octet>, ghost q: nat)
    requires ctx.Valid() && ctx.blockLen < 64 && |data| == 64 * q + ctx.blockLen
    requires ctx.Hash() == Absorbed(data, q)
    requires ctx.block[..ctx.blockLen] == data[64 * q..]
    requires ctx.bitLen == (512 * q) % TWO64
    modifies ctx, ctx.state, ctx.block
    ensures ctx.Hash() == Absorbed(Padded(data), |Padded(data)| / 64)
  {
    hide Compress, Padded, BigEndian;
    ghost var r, p := ctx.blockLen, Padded(data);
    BitCount(q, r);
    PaddedPrefix(data, q);
    ctx.bitLen := (ctx.bitLen + ctx.blockLen * 8) % TWO64;
    ctx.Push(0x80);
    if ctx.blockLen > 56 {
      ctx.CloseBlock();
      TwoLastBlocks(data, q, r, data[64 * q..] + [0x80] + Zeros(63 - r), Zeros(56) + BigEndian(ctx.bitLen, 8));
      assert ctx.Hash() == Absorbed(p, q + 1);
      assert ctx.block[..0] + Zeros(56) == Zeros(56);
      assert Absorbed(p, q + 2) == Compress(Absorbed(p, q + 1), p[64 * (q + 1)..64 * (q + 2)]);
    } else {
      OneLastBlock(data, q, r, data[64 * q..] + [0x80] + Zeros(55 - r) + BigEndian(ctx.bitLen, 8));
      assert Absorbed(p, q + 1) == Compress(Absorbed(p, q), p[64 * q..64 * (q + 1)]);
    }
    ctx.CloseMessage();
  }

  method PutWord(bytes: array<Octet>, i: nat, w: Word)
    requires 4 * i + 4 <= bytes.Length
    modifies bytes
    ensures forall j :: 0 <= j < 4 ==> bytes[4 * i + j] == WordBytes(w)[j]
    ensures forall n :: 0 <= n < bytes.Length && !(4 * i <= n < 4 * i + 4) ==> bytes[n] == old(bytes[n])
  {
    hide ByteOf;
    bytes[i * 4] := ByteOf(w, 24);
    bytes[i * 4 + 1] := ByteOf(w, 16);
    bytes[i * 4 + 2] := ByteOf(w, 8);
    bytes[i * 4 + 3] := ByteOf(w, 0);
  }

  lemma StateWords(ctx: Context)
    requires ctx.Valid()
    ensures Words(ctx.Hash()) == ctx.state[..]
  {
  }

  /** The final hash value as bytes. */
  method Spell(ctx: Context) returns (out: seq<Octet>)
    requires ctx.Valid()
    ensures out == DigestBytes(Words(ctx.Hash()))
  {
    hide WordBytes, DigestBytes, Words;
    var bytes := new Octet[32](_ => 0);
    StateWords(ctx);
    ghost var words := ctx.state[..];
    var i := 0;
    while i < 8
      invariant 0 <= i <= 8
      invariant forall n :: 0 <= n < 4 * i ==> bytes[n] == DigestBytes(words)[n]
    {
      PutWord(bytes, i, ctx.state[i]);
      DigestAt(words, i, 0);
      DigestAt(words, i, 1);
      DigestAt(words, i, 2);
      DigestAt(words, i, 3);
      i := i + 1;
    }
    out := bytes[..];
  }

  lemma NothingAbsorbed(m: seq<Octet>)
    ensures Absorbed(m, 0) == H0
  {
  }

  /** A full buffer is transformed, counted and emptied. */
  method FullBlock(ctx: Context, ghost data: seq<Octet>, ghost q: nat, ghost end: nat)
    requires ctx.Valid() && ctx.blockLen == 64
    requires end == 64 * (q + 1) <= |data| && ctx.block[..] == data[64 * q..end]
    requires ctx.Hash() == Absorbed(data, q) && ctx.bitLen == (512 * q) % TWO64
    modifies ctx, ctx.state
    ensures ctx.Valid() && ctx.blockLen == 0
    ensures ctx.Hash() == Absorbed(data, q + 1) && ctx.bitLen == (512 * (q + 1)) % TWO64
  {
    hide Compress;
    ctx.Transform();
    BitCount(q, 0);
    ctx.bitLen := (ctx.bitLen + 512) % TWO64;
    ctx.blockLen := 0;
  }

  /**
   The whole digest: buffer bytes, transform every full block, then finish with one or two blocks.
   It is the digest of FIPS 180-4 on every input; `LengthFieldExact` says for which inputs
   the 64-bit length field does not wrap.
   */
  method Sha256Bytes(data: seq<Octet>) returns (out: seq<Octet>)
    ensures out == Digest(data)
  {
    hide Compress, Absorbed, Padded, DigestBytes;
    var ctx := new Context();
    ghost var q := 0;
    NothingAbsorbed(data);
    var i := 0;
    while i < |data|
      invariant ctx.Valid() && fresh(ctx) && fresh(ctx.state) && fresh(ctx.block)
      invariant 0 <= i <= |data| && i == 64 * q + ctx.blockLen && ctx.blockLen < 64
      invariant ctx.Hash() == Absorbed(data, q)
      invariant ctx.block[..ctx.blockLen] == data[64 * q..i]
      invariant ctx.bitLen == (512 * q) % TWO64
    {
      ctx.Push(data[i]);
      i := i + 1;
      if ctx.blockLen == 64 {
        assert ctx.block[..] == ctx.block[..64];
        FullBlock(ctx, data, q, i);
        q := q + 1;
      }
    }
    Finish(ctx, data, q);
    out := Spell(ctx);
  }
}
