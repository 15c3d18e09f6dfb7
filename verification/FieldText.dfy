/** Field values as hexadecimal text: reading any length modulo 65537, writing 32 bytes. */
module FieldText {
  import opened Outcomes
  import opened NumberTheory
  import opened Hex
  import opened ShareField

  function HexNumber(d: string): nat
    requires IsHexDigits(d)
  {
    if d == [] then 0 else 16 * HexNumber(d[..|d| - 1]) + HexValue(d[|d| - 1])
  }

  /** The number written in hexadecimal, modulo the field. */
  function FieldOfHex(s: string): Outcome<Felt>
  {
    var v :- Ensure0x(s);
    EnsureShape(s);
    LowerHexDigits(v[2..]);
    Ok(HexNumber(v[2..]) % FIELD_MOD)
  }

  method HexModSmallField(hex: string) returns (r: Outcome<Felt>)
    ensures r == FieldOfHex(hex)
  {
    var norm := Ensure0x(hex);
    if norm.Throw? {
      return Throw(norm.error);
    }
    EnsureShape(hex);
    LowerHexDigits(norm.value[2..]);
    var value := FoldDigits(norm.value[2..]);
    r := Ok(value);
  }

  method FoldDigits(body: string) returns (value: Felt)
    requires IsHexDigits(body)
    ensures value == HexNumber(body) % FIELD_MOD
  {
    value := 0;
    for i := 0 to |body|
      invariant value == HexNumber(body[..i]) % FIELD_MOD
    {
      HexNumberStep(body, i);
      HornerResidue(HexNumber(body[..i]), HexValue(body[i]));
      value := (value * 16 + HexValue(body[i])) % FIELD_MOD;
    }
    assert body[..|body|] == body;
  }

  lemma HexNumberStep(body: string, i: nat)
    requires IsHexDigits(body) && i < |body|
    ensures HexValue(body[i]) >= 0
    ensures HexNumber(body[..i + 1]) == 16 * HexNumber(body[..i]) + HexValue(body[i])
  {
    assert body[..i + 1][..i] == body[..i];
  }

  lemma HornerResidue(n: nat, d: nat)
    ensures ((n % 65537) * 16 + d) % 65537 == (16 * n + d) % 65537
  {
  }

  function BigEndian(v: nat, n: nat): (b: seq<Byte>)
    ensures |b| == n
  {
    if n == 0 then [] else BigEndian(v / 256, n - 1) + [v % 256]
  }

  /** 32 bytes, of which only the last four are ever written. */
  function FieldBytes(v: Felt): (b: seq<Byte>)
    ensures |b| == 32
  {
    seq(28, _ => 0) + BigEndian(v, 4)
  }

  function FieldToHex(v: U32): string
  {
    HexOf(FieldBytes(v % FIELD_MOD))
  }

  function NormalizeField(s: string): Outcome<string>
  {
    var v :- FieldOfHex(s);
    Ok(FieldToHex(v))
  }

  // ----- normalisation keeps the number -----

  lemma {:induction false} SameDigitsSameNumber(a: string, b: string)
    requires IsHexDigits(a) && IsHexDigits(b) && SameDigits(a, b)
    ensures HexNumber(a) == HexNumber(b)
  {
    if a != [] {
      SameDigitsSameNumber(a[..|a| - 1], b[..|b| - 1]);
    }
  }

  lemma {:induction false} PaddedNumber(k: nat, d: string)
    requires IsHexDigits(d)
    ensures IsHexDigits(Zeros(k) + d) && HexNumber(Zeros(k) + d) == HexNumber(d)
    decreases k + |d|
  {
    var s := Zeros(k) + d;
    assert IsHexDigits(s);
    if d != [] {
      PaddedNumber(k, d[..|d| - 1]);
      assert s[..|s| - 1] == Zeros(k) + d[..|d| - 1];
    } else if k > 0 {
      PaddedNumber(k - 1, []);
      ZerosSame(k, s);
    }
  }

  lemma ZerosSame(k: nat, s: string)
    requires k > 0 && s == Zeros(k) + []
    ensures s[..|s| - 1] == Zeros(k - 1) + []
  {
    assert Zeros(k - 1) + [] == Zeros(k - 1);
    assert forall i :: 0 <= i < k - 1 ==> s[i] == Zeros(k - 1)[i];
  }

  /**
   Normalisation to `n` bytes succeeds exactly on hexadecimal text of at most `2n`
   digits, and keeps the number the text spells, in either case of its letters.
   */
  lemma NormalizeKeepsNumber(s: string, n: nat)
    requires n > 0
    ensures NormalizeBytes(s, n).Ok? <==> IsHexString(s) && |TextDigits(s)| <= 2 * n
    ensures NormalizeBytes(s, n).Ok? ==>
            && IsHexDigits(TextDigits(s)) && |NormalizeBytes(s, n).value| == 2 + 2 * n && IsHexDigits(NormalizeBytes(s, n).value[2..])
            && HexNumber(NormalizeBytes(s, n).value[2..]) == HexNumber(TextDigits(s))
  {
    hide IsHexString, TextDigits, Ensure0x, HexValue;
    EnsureKeepsDigits(s);
    if NormalizeBytes(s, n).Ok? {
      EnsureShape(s);
      var body := Ensure0x(s).value[2..];
      LowerHexDigits(body);
      SameDigitsSameNumber(body, TextDigits(s));
      PaddedNumber(2 * n - |body|, body);
      PrefixDrop(Zeros(2 * n - |body|) + body);
      assert NormalizeBytes(s, n).value == "0x" + (Zeros(2 * n - |body|) + body);
    }
  }

  /** Reading a text modulo the field reads the number it spells. */
  lemma FieldOfText(s: string)
    ensures FieldOfHex(s).Ok? <==> IsHexString(s)
    ensures FieldOfHex(s).Ok? ==> IsHexDigits(TextDigits(s)) && FieldOfHex(s).value == HexNumber(TextDigits(s)) % 65537
  {
    hide IsHexString, TextDigits, Ensure0x, HexValue;
    EnsureKeepsDigits(s);
    if Ensure0x(s).Ok? {
      EnsureShape(s);
      LowerHexDigits(Ensure0x(s).value[2..]);
      SameDigitsSameNumber(Ensure0x(s).value[2..], TextDigits(s));
    }
  }

  // ----- round trip -----

  function BytesNumber(bytes: seq<Byte>): nat
  {
    if bytes == [] then 0 else 256 * BytesNumber(bytes[..|bytes| - 1]) + bytes[|bytes| - 1]
  }

  lemma {:induction false} DigitsSnoc(bytes: seq<Byte>, b: Byte)
    ensures DigitsOf(bytes + [b]) == DigitsOf(bytes) + [HexDigit(b / 16), HexDigit(b % 16)]
  {
    if bytes != [] {
      DigitsSnoc(bytes[1..], b);
      assert (bytes + [b])[1..] == bytes[1..] + [b];
    } else {
      assert [b][1..] == [];
    }
  }

  lemma {:induction false} HexNumberOfDigits(bytes: seq<Byte>)
    ensures IsHexDigits(DigitsOf(bytes))
    ensures HexNumber(DigitsOf(bytes)) == BytesNumber(bytes)
  {
    if bytes != [] {
      var init, b := bytes[..|bytes| - 1], bytes[|bytes| - 1];
      HexNumberOfDigits(init);
      DigitsSnoc(init, b);
      assert bytes == init + [b];
      var d := DigitsOf(init);
      HexDigitValue(b / 16);
      HexDigitValue(b % 16);
      var d1 := d + [HexDigit(b / 16)];
      assert DigitsOf(bytes) == d1 + [HexDigit(b % 16)];
      assert IsHexDigits(d1);
      assert d1[..|d1| - 1] == d && DigitsOf(bytes)[..|d1|] == d1;
    }
  }

  lemma {:induction false} LeadingZeros(z: seq<Byte>, b: seq<Byte>)
    requires forall i :: 0 <= i < |z| ==> z[i] == 0
    ensures BytesNumber(z + b) == BytesNumber(b)
    decreases |z| + |b|
  {
    if b != [] {
      LeadingZeros(z, b[..|b| - 1]);
      assert (z + b)[..|z + b| - 1] == z + b[..|b| - 1];
    } else if z != [] {
      LeadingZeros(z[..|z| - 1], []);
      assert z + [] == z && z[..|z| - 1] + [] == z[..|z| - 1];
    }
  }

  lemma {:induction false} BigEndianNumber(v: nat, n: nat)
    requires v < Pow256(n)
    ensures BytesNumber(BigEndian(v, n)) == v
  {
    if n > 0 {
      BigEndianNumber(v / 256, n - 1);
      assert BigEndian(v, n)[..n - 1] == BigEndian(v / 256, n - 1);
    }
  }

  lemma FieldBytesNumber(v: Felt)
    ensures BytesNumber(FieldBytes(v)) == v
  {
    assert Pow256(2) == 65536 && Pow256(4) == 65536 * 65536;
    BigEndianNumber(v, 4);
    LeadingZeros(seq(28, _ => 0), BigEndian(v, 4));
  }

  lemma FieldOfCanonical(d: string)
    requires IsBody(d) && IsHexDigits(d)
    ensures FieldOfHex("0x" + d) == Ok(HexNumber(d) % FIELD_MOD)
  {
    EnsureCanonical(d);
    PrefixDrop(d);
  }

  lemma FieldOfBytes(bytes: seq<Byte>)
    requires bytes != []
    ensures FieldOfHex(HexOf(bytes)) == Ok(BytesNumber(bytes) % FIELD_MOD)
  {
    DigitsAreBody(bytes);
    HexNumberOfDigits(bytes);
    FieldOfCanonical(DigitsOf(bytes));
  }

  lemma HexOfIsCanonical(bytes: seq<Byte>)
    requires |bytes| == 32
    ensures NormalizeDigest(HexOf(bytes)) == Ok(HexOf(bytes)) && Ensure0x(HexOf(bytes)) == Ok(HexOf(bytes))
    ensures IsHexString(HexOf(bytes)) && HexOf(bytes) != ""
  {
    ParseOfHex(bytes);
    HexNormalized(bytes);
    DigitsAreBody(bytes);
    EnsureCanonical(DigitsOf(bytes));
  }

  /** A field value written as text reads back as itself. */
  lemma FieldTextRoundTrip(v: Felt)
    ensures FieldOfHex(FieldToHex(v)) == Ok(v)
  {
    FieldBytesNumber(v);
    FieldOfBytes(FieldBytes(v));
    SmallResidue(BytesNumber(FieldBytes(v)), v);
  }

  lemma SmallResidue(n: nat, v: Felt)
    requires n == v
    ensures n % FIELD_MOD == v && v % FIELD_MOD == v
  {
  }

  /** Field texts are injective, so a set of normal forms is a set of field values. */
  lemma FieldToHexInjective(v: Felt, w: Felt)
    requires FieldToHex(v) == FieldToHex(w)
    ensures v == w
  {
    FieldTextRoundTrip(v);
    FieldTextRoundTrip(w);
  }
}
