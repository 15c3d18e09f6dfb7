/**
 What seed and share texts spell: the chunks of a seed are the base-65536 digits of
 its number, packed share values the base-131072 digits of theirs.
 */
module Numerals {
  import opened Outcomes
  import opened NumberTheory
  import opened Hex
  import opened ShareField
  import opened Packing
  import opened FieldText
  import Envelope

  /** The number whose digits of `w` bits are `vs`, most significant first. */
  function Weighted(vs: seq<nat>, w: nat): nat
  {
    if vs == [] then 0 else vs[0] * Pow2(w * (|vs| - 1)) + Weighted(vs[1..], w)
  }

  lemma {:induction false} Pow2Sum(m: nat, n: nat)
    ensures Pow2(m + n) == Pow2(m) * Pow2(n)
  {
    if m > 0 {
      Pow2Sum(m - 1, n);
      assert Pow2(m + n) == 2 * Pow2(m - 1 + n);
      Doubled(Pow2(m - 1), Pow2(n));
    }
  }

  lemma Doubled(a: nat, b: nat)
    ensures 2 * (a * b) == (2 * a) * b
  {
  }

  lemma {:induction false} BitsJoin(a: seq<Bit>, b: seq<Bit>)
    ensures FromBits(a + b) == FromBits(a) * Pow2(|b|) + FromBits(b)
    decreases |b|
  {
    if b == [] {
      assert a + b == a;
    } else {
      var init, last := b[..|b| - 1], b[|b| - 1];
      BitsJoin(a, init);
      assert (a + b)[..|a + b| - 1] == a + init;
      DoubledSum(FromBits(a), Pow2(|init|), FromBits(init));
    }
  }

  lemma DoubledSum(x: nat, p: nat, y: nat)
    ensures 2 * (x * p + y) == x * (2 * p) + 2 * y
  {
  }

  lemma StreamLength(vs: seq<nat>, w: nat)
    ensures |Stream(vs, w)| == w * |vs|
  {
  }

  /** A stream of `w`-bit groups is the number with these digits. */
  lemma {:induction false} StreamNumber(vs: seq<nat>, w: nat)
    requires AllBelow(vs, Pow2(w))
    ensures FromBits(Stream(vs, w)) == Weighted(vs, w)
  {
    if vs != [] {
      var head, tail := ToBits(vs[0], w), Stream(vs[1..], w);
      StreamNumber(vs[1..], w);
      FromToBits(vs[0], w);
      BitsJoin(head, tail);
      StreamLength(vs[1..], w);
    }
  }

  lemma {:induction false} BytesSplit(a: seq<Byte>, b: seq<Byte>)
    ensures BytesNumber(a + b) == BytesNumber(a) * Pow2(8 * |b|) + BytesNumber(b)
    decreases |b|
  {
    if b == [] {
      assert a + b == a;
    } else {
      var init, last := b[..|b| - 1], b[|b| - 1];
      BytesSplit(a, init);
      assert (a + b)[..|a + b| - 1] == a + init;
      Pow2Values();
      Pow2Sum(8, 8 * |init|);
      TimesByte(BytesNumber(a), Pow2(8 * |init|), BytesNumber(init));
    }
  }

  lemma TimesByte(x: nat, p: nat, y: nat)
    ensures 256 * (x * p + y) == x * (256 * p) + 256 * y
  {
  }

  lemma {:induction false} BytesWeighted(bytes: seq<Byte>)
    ensures BytesNumber(bytes) == Weighted(bytes, 8)
  {
    if bytes != [] {
      BytesWeighted(bytes[1..]);
      BytesSplit([bytes[0]], bytes[1..]);
      OneByte(bytes[0]);
      assert bytes == [bytes[0]] + bytes[1..];
    }
  }

  lemma OneByte(b: Byte)
    ensures BytesNumber([b]) == b
  {
    assert BytesNumber([]) == 0;
  }

  lemma {:induction false} ChunksNumber(bytes: seq<Byte>, n: nat)
    requires |bytes| == 2 * n
    ensures Weighted(ChunksOf(bytes, n), 16) == BytesNumber(bytes)
    decreases n
  {
    if n > 0 {
      ChunksNumber(bytes[2..], n - 1);
      BytesSplit(bytes[..2], bytes[2..]);
      TwoBytes(bytes[0], bytes[1]);
      assert bytes[..2] == [bytes[0], bytes[1]] && bytes == bytes[..2] + bytes[2..];
      assert ChunksOf(bytes, n)[1..] == ChunksOf(bytes[2..], n - 1);
    }
  }

  lemma TwoBytes(a: Byte, b: Byte)
    ensures BytesNumber([a, b]) == 256 * a + b
  {
    assert [a, b][..1] == [a];
    OneByte(a);
  }

  function DecimalNumber(s: string): nat
    requires forall i :: 0 <= i < |s| ==> '0' <= s[i] <= '9'
  {
    if s == [] then 0 else 10 * DecimalNumber(s[..|s| - 1]) + HexValue(s[|s| - 1])
  }

  /** Decimal text spells its number, without leading zeros. */
  lemma {:induction false} DecimalDigits(n: nat)
    ensures DecimalNumber(Envelope.Decimal(n)) == n
    ensures n > 0 ==> Envelope.Decimal(n)[0] != '0'
  {
    var s := Envelope.Decimal(n);
    HexDigitValue(n % 10);
    assert DecimalNumber([]) == 0;
    if n >= 10 {
      DecimalDigits(n / 10);
      assert s[..|s| - 1] == Envelope.Decimal(n / 10);
    }
  }

  /** Hexadecimal text spells the number of the bytes it is parsed to. */
  lemma ParsedNumber(s: string)
    requires ParseHex(s).Ok?
    ensures IsHexDigits(TextDigits(s)) && HexNumber(TextDigits(s)) == BytesNumber(ParseHex(s).value)
  {
    hide TextDigits, HexValue;
    var bytes := ParseHex(s).value;
    EnsureKeepsDigits(s);
    EnsureShape(s);
    HexOfParse(s);
    HexNumberOfDigits(bytes);
    PrefixDrop(DigitsOf(bytes));
    SameDigitsSameNumber(DigitsOf(bytes), TextDigits(s));
  }

  lemma WrittenNumber(bytes: seq<Byte>)
    requires bytes != []
    ensures IsHexDigits(TextDigits(HexOf(bytes))) && HexNumber(TextDigits(HexOf(bytes))) == BytesNumber(bytes)
  {
    ParseOfHex(bytes);
    ParsedNumber(HexOf(bytes));
  }

  /** The sixteen chunks are the base-65536 digits of the number the seed text spells. */
  lemma SeedDigits(seed: string)
    requires SplitSeed(seed).Ok?
    ensures IsHexDigits(TextDigits(seed)) && Weighted(SplitSeed(seed).value, 16) == HexNumber(TextDigits(seed))
  {
    hide NormalizeBytes, TextDigits, HexNumber, ParseHex;
    var norm := NormalizeDigest(seed).value;
    DigestParses(seed);
    ChunksNumber(ParseHex(norm).value, 16);
    NormalizeKeepsNumber(seed, 32);
    NormalizedNumber(seed);
  }

  lemma NormalizedNumber(s: string)
    requires NormalizeDigest(s).Ok? && ParseHex(NormalizeDigest(s).value).Ok?
    ensures IsHexDigits(TextDigits(s)) && BytesNumber(ParseHex(NormalizeDigest(s).value).value) == HexNumber(TextDigits(s))
  {
    hide TextDigits, HexValue, ParseHex;
    var v := NormalizeDigest(s).value;
    NormalizeKeepsNumber(s, 32);
    NormalizeIdempotent(s, 32);
    ParsedNumber(v);
    EnsureKeepsDigits(v);
    SameDigitsSameNumber(v[2..], TextDigits(v));
  }

  /** Packed text spells the number whose base-131072 digits are the sixteen values. */
  lemma PackedDigits(values: seq<nat>)
    requires |values| == 16 && InField(values)
    ensures PackHex(values).Ok?
    ensures var hex := PackHex(values).value;
            IsHexDigits(TextDigits(hex)) && HexNumber(TextDigits(hex)) == Weighted(values, 17)
  {
    Pow2Values();
    var bytes := PackedOf(values);
    StreamOfGroups(Stream(values, 17), 8, 34);
    StreamNumber(values, 17);
    StreamNumber(bytes, 8);
    BytesWeighted(bytes);
    WrittenNumber(bytes);
  }

  lemma UnpackedNumber(bytes: seq<Byte>)
    requires |bytes| == 34
    ensures Weighted(UnpackedOf(bytes), 17) == BytesNumber(bytes)
  {
    hide Weighted, FromBits, BytesNumber, Groups;
    Pow2Values();
    StreamOfGroups(Stream(bytes, 8), 17, 16);
    StreamNumber(bytes, 8);
    StreamNumber(UnpackedOf(bytes), 17);
    BytesWeighted(bytes);
  }

  /** Unpacking reads these digits of any text of 34 bytes. */
  lemma UnpackedDigits(hex: string)
    requires UnpackHex(hex).Ok?
    ensures IsHexDigits(TextDigits(hex)) && Weighted(UnpackHex(hex).value, 17) == HexNumber(TextDigits(hex))
  {
    hide TextDigits, HexNumber, ParseHex;
    var bytes := ParseHex(hex).value;
    UnpackedNumber(bytes);
    ParsedNumber(hex);
  }
}
