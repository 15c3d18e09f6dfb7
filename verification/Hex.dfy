/** Hexadecimal text: trimming, prefixing, zero-padding, and conversion to and from bytes. */
module Hex {
  import opened Outcomes

  type Byte = x: nat | x < 256

  // ----- text helpers -----

  /** `std::isspace` in the C locale. */
  predicate IsSpace(c: char)
  {
    c == ' ' || '\t' <= c <= '\r'
  }

  function TrimFront(s: string): (r: string)
    ensures r == [] || !IsSpace(r[0])
  {
    if s != [] && IsSpace(s[0]) then TrimFront(s[1..]) else s
  }

  function TrimBack(s: string): (r: string)
    ensures r <= s
    ensures r == [] || !IsSpace(r[|r| - 1])
  {
    if s != [] && IsSpace(s[|s| - 1]) then TrimBack(s[..|s| - 1]) else s
  }

  function Trim(s: string): (r: string)
    ensures r == [] || (!IsSpace(r[0]) && !IsSpace(r[|r| - 1]))
  {
    TrimBack(TrimFront(s))
  }

  function LowerChar(c: char): char
  {
    if 'A' <= c <= 'Z' then (c as int + 32) as char else c
  }

  function Lower(s: string): (r: string)
    ensures |r| == |s| && forall i :: 0 <= i < |s| ==> r[i] == LowerChar(s[i])
  {
    if s == [] then [] else [LowerChar(s[0])] + Lower(s[1..])
  }

  predicate Starts0x(s: string)
  {
    |s| >= 2 && s[0] == '0' && (s[1] == 'x' || s[1] == 'X')
  }

  function HexValue(c: char): (v: int)
    ensures -1 <= v < 16
  {
    if '0' <= c <= '9' then c as int - 48
    else if 'a' <= c <= 'f' then c as int - 87
    else if 'A' <= c <= 'F' then c as int - 55
    else -1
  }

  predicate IsHexString(s: string)
  {
    var v := Trim(s);
    var pos := if Starts0x(v) then 2 else 0;
    pos < |v| && forall i :: pos <= i < |v| ==> HexValue(v[i]) >= 0
  }

  function Ensure0x(s: string): Outcome<string>
  {
    var v := Lower(Trim(s));
    if !IsHexString(v) then Throw("invalid_hex_string")
    else Ok(if Starts0x(v) then v else "0x" + v)
  }

  function Zeros(n: nat): (r: string)
    ensures |r| == n && forall i :: 0 <= i < n ==> r[i] == '0'
  {
    if n == 0 then "" else "0" + Zeros(n - 1)
  }

  function NormalizeBytes(s: string, byteLen: nat): Outcome<string>
  {
    var v :- Ensure0x(s);
    var body := v[2..];
    if |body| > 2 * byteLen then Throw("hex_too_long")
    else Ok("0x" + Zeros(2 * byteLen - |body|) + body)
  }

  function NormalizeDigest(s: string): Outcome<string>
  {
    NormalizeBytes(s, 32)
  }

  // ----- canonical form -----

  predicate IsLowerHex(c: char)
  {
    '0' <= c <= '9' || 'a' <= c <= 'f'
  }

  predicate AllLowerHex(d: string)
  {
    forall i :: 0 <= i < |d| ==> IsLowerHex(d[i])
  }

  /** Non-empty lower-case hexadecimal digits. */
  predicate IsBody(d: string)
  {
    d != [] && AllLowerHex(d)
  }

  lemma LowerHexChar(c: char)
    ensures HexValue(c) >= 0 ==> IsLowerHex(LowerChar(c))
    ensures IsLowerHex(c) ==> LowerChar(c) == c && HexValue(c) >= 0 && !IsSpace(c)
    ensures IsSpace(LowerChar(c)) <==> IsSpace(c)
  {
  }

  lemma TrimFixed(s: string)
    requires s == [] || (!IsSpace(s[0]) && !IsSpace(s[|s| - 1]))
    ensures Trim(s) == s
  {
  }

  lemma LowerFixed(s: string)
    requires forall i :: 0 <= i < |s| ==> LowerChar(s[i]) == s[i]
    ensures Lower(s) == s
  {
  }

  /** Canonical text is a fixed point of prefixing. */
  lemma EnsureCanonical(d: string)
    requires IsBody(d)
    ensures Ensure0x("0x" + d) == Ok("0x" + d)
    ensures IsHexString("0x" + d)
  {
    var v := "0x" + d;
    forall i | 0 <= i < |v| ensures LowerChar(v[i]) == v[i] && (i >= 2 ==> HexValue(v[i]) >= 0) {
      if i >= 2 {
        assert v[i] == d[i - 2];
        LowerHexChar(v[i]);
      }
    }
    LowerHexChar(v[|v| - 1]);
    assert v[|v| - 1] == d[|d| - 1] && v[0] == '0';
    TrimFixed(v);
    LowerFixed(v);
    HexStringCanonical(v);
  }

  lemma HexStringCanonical(v: string)
    requires |v| > 2 && Starts0x(v) && Trim(v) == v
    requires forall i :: 2 <= i < |v| ==> HexValue(v[i]) >= 0
    ensures IsHexString(v)
  {
  }

  lemma LowerTrimmed(s: string)
    ensures Trim(Lower(Trim(s))) == Lower(Trim(s))
  {
    var t := Trim(s);
    if t != [] {
      LowerHexChar(t[0]);
      LowerHexChar(t[|t| - 1]);
    }
    TrimFixed(Lower(t));
  }

  lemma LowerBody(t: string, pos: nat)
    requires pos < |t|
    requires forall i :: pos <= i < |t| ==> HexValue(Lower(t)[i]) >= 0
    ensures IsBody(Lower(t)[pos..])
  {
    forall i | 0 <= i < |Lower(t)[pos..]| ensures IsLowerHex(Lower(t)[pos..][i]) {
      LowerDigit(t[pos + i]);
    }
  }

  lemma LowerDigit(c: char)
    requires HexValue(LowerChar(c)) >= 0
    ensures IsLowerHex(LowerChar(c))
  {
  }

  /** Prefixing, when it succeeds, always produces canonical text. */
  lemma EnsureShape(s: string)
    requires Ensure0x(s).Ok?
    ensures var v := Ensure0x(s).value; |v| > 2 && v == "0x" + v[2..] && IsBody(v[2..])
  {
    hide Trim, Lower, LowerChar, HexValue, IsSpace;
    var t := Trim(s);
    var v := Lower(t);
    LowerTrimmed(s);
    if Starts0x(v) {
      LowerBody(t, 2);
      assert v[1] == 'x' by { PrefixChar(t[1]); }
      assert v == "0x" + v[2..];
    } else {
      LowerBody(t, 0);
      assert v[0..] == v && ("0x" + v)[2..] == v;
    }
  }

  lemma PrefixChar(c: char)
    requires LowerChar(c) == 'x' || LowerChar(c) == 'X'
    ensures LowerChar(c) == 'x'
  {
  }

  lemma EnsureIdempotent(s: string)
    requires Ensure0x(s).Ok?
    ensures Ensure0x(Ensure0x(s).value) == Ensure0x(s)
  {
    EnsureShape(s);
    EnsureCanonical(Ensure0x(s).value[2..]);
  }

  /** Canonical text of full length is a fixed point of normalisation. */
  lemma NormalizeCanonical(d: string, n: nat)
    requires IsBody(d) && |d| == 2 * n
    ensures NormalizeBytes("0x" + d, n) == Ok("0x" + d)
  {
    EnsureCanonical(d);
    assert ("0x" + d)[2..] == d && "0x" + Zeros(0) + d == "0x" + d;
  }

  /** A normalised value is canonical, has the requested length, and keeps the digits. */
  lemma NormalizeShape(s: string, n: nat)
    requires n > 0 && NormalizeBytes(s, n).Ok?
    ensures var v := NormalizeBytes(s, n).value;
            |v| == 2 + 2 * n && v == "0x" + v[2..] && IsBody(v[2..])
  {
    hide Ensure0x, IsBody;
    EnsureShape(s);
    var body := Ensure0x(s).value[2..];
    var padded := Zeros(2 * n - |body|) + body;
    PaddedBody(2 * n - |body|, body);
    PrefixDrop(padded);
    assert "0x" + padded == "0x" + Zeros(2 * n - |body|) + body;
  }

  lemma PaddedBody(k: nat, body: string)
    requires IsBody(body)
    ensures IsBody(Zeros(k) + body)
  {
  }

  lemma PrefixDrop(d: string)
    ensures |"0x" + d| == 2 + |d| && ("0x" + d)[2..] == d
  {
  }

  lemma NormalizeIdempotent(s: string, n: nat)
    requires n > 0 && NormalizeBytes(s, n).Ok?
    ensures NormalizeBytes(NormalizeBytes(s, n).value, n) == NormalizeBytes(s, n)
    ensures Ensure0x(NormalizeBytes(s, n).value) == NormalizeBytes(s, n)
  {
    hide NormalizeBytes, Ensure0x, IsBody;
    NormalizeShape(s, n);
    var d := NormalizeBytes(s, n).value[2..];
    NormalizeCanonical(d, n);
    EnsureCanonical(d);
  }

  // ----- what normalisation keeps -----

  predicate AllSpaces(s: string)
  {
    forall i :: 0 <= i < |s| ==> IsSpace(s[i])
  }

  lemma {:induction false} TrimFrontSplits(s: string) returns (front: string)
    ensures s == front + TrimFront(s) && AllSpaces(front)
  {
    front := "";
    if s != [] && IsSpace(s[0]) {
      var more := TrimFrontSplits(s[1..]);
      front := [s[0]] + more;
    }
  }

  lemma {:induction false} TrimBackSplits(s: string) returns (back: string)
    ensures s == TrimBack(s) + back && AllSpaces(back)
  {
    back := "";
    if s != [] && IsSpace(s[|s| - 1]) {
      var more := TrimBackSplits(s[..|s| - 1]);
      back := more + [s[|s| - 1]];
    }
  }

  /** Trimming drops white space at both ends and nothing else. */
  lemma TrimKeeps(s: string) returns (front: string, back: string)
    ensures s == front + Trim(s) + back && AllSpaces(front) && AllSpaces(back)
  {
    front := TrimFrontSplits(s);
    back := TrimBackSplits(TrimFront(s));
  }

  /** The digits a text spells: trimmed, without the prefix. */
  function TextDigits(s: string): string
  {
    var v := Trim(s);
    if Starts0x(v) then v[2..] else v
  }

  lemma LowerValue(c: char)
    ensures HexValue(LowerChar(c)) == HexValue(c)
    ensures (LowerChar(c) == 'x' || LowerChar(c) == 'X') == (c == 'x' || c == 'X')
    ensures (LowerChar(c) == '0') == (c == '0')
  {
  }

  predicate SameDigits(a: string, b: string)
  {
    |a| == |b| && forall i :: 0 <= i < |a| ==> HexValue(a[i]) == HexValue(b[i])
  }

  /** Lower-casing keeps the prefix test, the hexadecimal test and the value of every digit. */
  lemma LowerKeepsDigits(t: string)
    ensures Starts0x(Lower(t)) == Starts0x(t)
    ensures SameDigits(Lower(t), t)
  {
    hide HexValue, LowerChar;
    forall i | 0 <= i < |t| ensures HexValue(Lower(t)[i]) == HexValue(t[i]) {
      LowerValue(t[i]);
    }
    if |t| >= 2 {
      LowerValue(t[0]);
      LowerValue(t[1]);
    }
  }

  /** Prefixing succeeds exactly on hexadecimal text, and keeps the value of every digit. */
  lemma EnsureKeepsDigits(s: string)
    ensures Ensure0x(s).Ok? <==> IsHexString(s)
    ensures IsHexString(s) <==> TextDigits(s) != "" && forall i :: 0 <= i < |TextDigits(s)| ==> HexValue(TextDigits(s)[i]) >= 0
    ensures Ensure0x(s).Ok? ==> |Ensure0x(s).value| >= 2 && SameDigits(Ensure0x(s).value[2..], TextDigits(s))
  {
    hide Trim, Lower, HexValue;
    var t := Trim(s);
    LowerTrimmed(s);
    LowerKeepsDigits(t);
    var pos := if Starts0x(t) then 2 else 0;
    assert t[0..] == t && Lower(t)[0..] == Lower(t);
    HexStringDigits(t, pos);
    HexStringDigits(Lower(t), pos);
    if Ensure0x(s).Ok? {
      PrefixDrop(Lower(t));
      forall i | 0 <= i < |TextDigits(s)| ensures HexValue(Ensure0x(s).value[2..][i]) == HexValue(TextDigits(s)[i]) {
        assert Ensure0x(s).value[2..][i] == Lower(t)[pos + i] && TextDigits(s)[i] == t[pos + i];
      }
    }
  }

  lemma HexStringDigits(v: string, pos: nat)
    requires pos == if Starts0x(v) then 2 else 0
    ensures pos <= |v|
    ensures (pos < |v| && forall i :: pos <= i < |v| ==> HexValue(v[i]) >= 0)
       <==> (v[pos..] != "" && forall i :: 0 <= i < |v[pos..]| ==> HexValue(v[pos..][i]) >= 0)
  {
    if forall i :: 0 <= i < |v[pos..]| ==> HexValue(v[pos..][i]) >= 0 {
      forall i | pos <= i < |v| ensures HexValue(v[i]) >= 0 {
        assert v[pos..][i - pos] == v[i];
      }
    }
  }

  // ----- bytes -----

  function HexDigit(n: nat): char
    requires n < 16
  {
    "0123456789abcdef"[n]
  }

  function DigitsOf(bytes: seq<Byte>): (d: string)
    ensures |d| == 2 * |bytes|
  {
    if bytes == [] then [] else [HexDigit(bytes[0] / 16), HexDigit(bytes[0] % 16)] + DigitsOf(bytes[1..])
  }

  predicate IsHexDigits(d: string)
  {
    forall i :: 0 <= i < |d| ==> HexValue(d[i]) >= 0
  }

  lemma LowerHexDigits(d: string)
    requires AllLowerHex(d)
    ensures IsHexDigits(d)
  {
    forall i | 0 <= i < |d| ensures HexValue(d[i]) >= 0 {
      LowerHexChar(d[i]);
    }
  }

  /** The bytes spelled by an even number of hexadecimal digits. */
  function BytesOf(d: string): (b: seq<Byte>)
    requires |d| % 2 == 0
    requires IsHexDigits(d)
    ensures |b| == |d| / 2
  {
    if d == [] then [] else [16 * HexValue(d[0]) + HexValue(d[1])] + BytesOf(d[2..])
  }

  function HexOf(bytes: seq<Byte>): string
  {
    "0x" + DigitsOf(bytes)
  }

  function ParseHex(s: string): Outcome<seq<Byte>>
  {
    var v :- Ensure0x(s);
    EnsureShape(s);
    var body := v[2..];
    LowerHexDigits(body);
    if |body| % 2 != 0 then Throw("odd_hex_length") else Ok(BytesOf(body))
  }

  lemma {:induction false} DigitsAreLower(bytes: seq<Byte>)
    ensures AllLowerHex(DigitsOf(bytes))
  {
    hide IsLowerHex, HexDigit;
    if bytes != [] {
      DigitsAreLower(bytes[1..]);
      HexDigitValue(bytes[0] / 16);
      HexDigitValue(bytes[0] % 16);
    }
  }

  lemma DigitsAreBody(bytes: seq<Byte>)
    requires bytes != []
    ensures IsBody(DigitsOf(bytes))
  {
    hide AllLowerHex;
    DigitsAreLower(bytes);
  }

  lemma {:induction false} BytesDigits(bytes: seq<Byte>)
    ensures IsHexDigits(DigitsOf(bytes)) && BytesOf(DigitsOf(bytes)) == bytes
  {
    if bytes != [] {
      DigitsAreBody(bytes);
      LowerHexDigits(DigitsOf(bytes));
      assert DigitsOf(bytes)[2..] == DigitsOf(bytes[1..]);
      BytesDigits(bytes[1..]);
      HexDigitValue(bytes[0] / 16);
      HexDigitValue(bytes[0] % 16);
    }
  }

  lemma HexDigitValue(n: nat)
    requires n < 16
    ensures HexValue(HexDigit(n)) == n && IsLowerHex(HexDigit(n))
  {
  }

  lemma HexValueDigit(c: char)
    requires IsLowerHex(c)
    ensures 0 <= HexValue(c) < 16 && HexDigit(HexValue(c)) == c
  {
  }

  lemma OneByteDigits(hi: nat, lo: nat, rest: seq<Byte>)
    requires hi < 16 && lo < 16
    ensures DigitsOf([16 * hi + lo] + rest) == [HexDigit(hi), HexDigit(lo)] + DigitsOf(rest)
  {
    hide HexDigit;
    var b := 16 * hi + lo;
    assert b / 16 == hi && b % 16 == lo;
    assert ([b] + rest)[1..] == rest;
  }

  lemma {:induction false} DigitsBytes(d: string)
    requires |d| % 2 == 0 && AllLowerHex(d) && IsHexDigits(d)
    ensures DigitsOf(BytesOf(d)) == d
  {
    hide HexValue, HexDigit, IsLowerHex;
    if d != [] {
      DigitsBytes(d[2..]);
      HexValueDigit(d[0]);
      HexValueDigit(d[1]);
      OneByteDigits(HexValue(d[0]), HexValue(d[1]), BytesOf(d[2..]));
      assert d == [d[0], d[1]] + d[2..];
    }
  }

  /** Writing bytes as hexadecimal and reading them back returns the same bytes. */
  lemma ParseOfHex(bytes: seq<Byte>)
    requires bytes != []
    ensures ParseHex(HexOf(bytes)) == Ok(bytes)
    ensures Ensure0x(HexOf(bytes)) == Ok(HexOf(bytes))
  {
    DigitsAreBody(bytes);
    EnsureCanonical(DigitsOf(bytes));
    assert HexOf(bytes)[2..] == DigitsOf(bytes);
    LowerHexDigits(DigitsOf(bytes));
    BytesDigits(bytes);
  }

  /** Reading hexadecimal and writing it back gives the canonical text. */
  lemma HexOfParse(s: string)
    requires ParseHex(s).Ok?
    ensures Ok(HexOf(ParseHex(s).value)) == Ensure0x(s)
  {
    EnsureShape(s);
    LowerHexDigits(Ensure0x(s).value[2..]);
    DigitsBytes(Ensure0x(s).value[2..]);
  }

  lemma HexNormalized(bytes: seq<Byte>)
    requires bytes != []
    ensures NormalizeBytes(HexOf(bytes), |bytes|) == Ok(HexOf(bytes))
  {
    DigitsAreBody(bytes);
    NormalizeCanonical(DigitsOf(bytes), |bytes|);
  }

  /** A normalised digest always parses, to exactly 32 bytes. */
  lemma DigestParses(s: string)
    requires NormalizeDigest(s).Ok?
    ensures ParseHex(NormalizeDigest(s).value).Ok?
    ensures |ParseHex(NormalizeDigest(s).value).value| == 32
    ensures HexOf(ParseHex(NormalizeDigest(s).value).value) == NormalizeDigest(s).value
  {
    hide NormalizeBytes, Ensure0x, IsBody, HexOf;
    NormalizeShape(s, 32);
    NormalizeIdempotent(s, 32);
    HexOfParse(NormalizeDigest(s).value);
  }

  // ----- the loops -----

  method HexToBytes(s: string) returns (r: Outcome<seq<Byte>>)
    ensures r == ParseHex(s)
  {
    var v := Ensure0x(s);
    if v.Throw? {
      return Throw(v.error);
    }
    EnsureShape(s);
    var body := v.value[2..];
    if |body| % 2 != 0 {
      return Throw("odd_hex_length");
    }
    LowerHexDigits(body);
    var out := DecodeDigits(body);
    r := Ok(out);
  }

  /** The buffer-filling loop. Its digit check never fires: the text was validated first. */
  method DecodeDigits(body: string) returns (bytes: seq<Byte>)
    requires |body| % 2 == 0 && IsHexDigits(body)
    ensures bytes == BytesOf(body)
  {
    var out := new Byte[|body| / 2](_ => 0);
    for i := 0 to out.Length
      invariant out[..i] == BytesOf(body)[..i]
    {
      BytesOfAt(body, i);
      out[i] := 16 * HexValue(body[2 * i]) + HexValue(body[2 * i + 1]);
      assert out[..i + 1] == out[..i] + [BytesOf(body)[i]];
    }
    bytes := out[..];
    assert bytes == out[..out.Length];
  }

  lemma {:induction false} BytesOfAt(d: string, i: nat)
    requires |d| % 2 == 0 && 2 * i < |d| && IsHexDigits(d)
    ensures HexValue(d[2 * i]) >= 0 && HexValue(d[2 * i + 1]) >= 0
    ensures BytesOf(d)[i] == 16 * HexValue(d[2 * i]) + HexValue(d[2 * i + 1])
  {
    if i > 0 {
      BytesOfAt(d[2..], i - 1);
    }
  }

  method BytesToHex(bytes: seq<Byte>) returns (out: string)
    ensures out == HexOf(bytes)
  {
    out := "0x";
    for i := 0 to |bytes|
      invariant out + DigitsOf(bytes[i..]) == HexOf(bytes)
    {
      var b := bytes[i];
      assert bytes[i..][1..] == bytes[i + 1..];
      out := out + [HexDigit(b / 16)];
      out := out + [HexDigit(b % 16)];
    }
  }
}
