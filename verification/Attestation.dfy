/**
 What the demo attestation binds: envelopes that verify with one attestation agree
 in every signed field, or exhibit a collision of the hash.
 */
module Attestation {
  import opened Outcomes
  import opened Hex
  import opened ShareField
  import opened Envelope

  // ----- texts without the separator -----

  lemma DecimalHasNoBar(n: nat)
    ensures NoBar(Decimal(n))
  {
    hide Decimal;
    forall i | 0 <= i < |Decimal(n)| ensures Decimal(n)[i] != '|' {
    }
  }

  lemma BodyHasNoBar(d: string)
    requires IsBody(d)
    ensures NoBar("0x" + d)
  {
    var s := "0x" + d;
    forall i | 0 <= i < |s| ensures s[i] != '|' {
      if i >= 2 {
        assert IsLowerHex(d[i - 2]);
      }
    }
  }

  lemma DigestHasNoBar(s: string)
    requires NormalizeDigest(s).Ok?
    ensures NoBar(NormalizeDigest(s).value)
  {
    hide IsBody, NoBar;
    NormalizeShape(s, 32);
    BodyHasNoBar(NormalizeDigest(s).value[2..]);
  }

  lemma AnyHasNoBar(s: string)
    requires Ensure0x(s).Ok?
    ensures NoBar(NormalizeAny(s))
  {
    hide NormalizeAny, Ensure0x;
    EnsureShape(s);
    NormalizeAnyOfHex(s);
    var d := Digits(s);
    BodyHasNoBar(if |d| % 2 != 0 then "0" + d else d);
  }

  predicate NoBarCanon(c: Canon)
  {
    && NoBar(c.idHash) && NoBar(c.ui) && NoBar(c.tag) && NoBar(c.vkSet) && NoBar(c.guardianSet)
    && NoBar(c.dealerPk) && NoBar(c.rhoCommit)
  }

  lemma CanonHasNoBar(norm: string -> Outcome<string>, raw: Canon)
    requires CanonThrough(norm, raw).Ok?
    requires forall s :: norm(s).Ok? ==> NoBar(norm(s).value)
    ensures NoBarCanon(CanonThrough(norm, raw).value)
  {
    CanonFields(norm, raw);
  }

  lemma NormalCanonHasNoBar(raw: Canon)
    requires NormalizeCanon(raw).Ok?
    ensures NoBarCanon(NormalizeCanon(raw).value)
  {
    hide NormalizeDigest, NoBarCanon;
    forall s | NormalizeDigest(s).Ok? ensures NoBar(NormalizeDigest(s).value) {
      DigestHasNoBar(s);
    }
    CanonHasNoBar(s => NormalizeDigest(s), raw);
  }

  // ----- the payload binds its fields -----

  /** The fields that may hold any text. */
  predicate IsFree(f: FieldName)
  {
    f == Scheme || f == Id || f == GuardianId || f == SecretType
  }

  /** In each field of free text the two agree, or neither uses the separator. */
  predicate FreeTextsComparable(a: ShareEnvelope, b: ShareEnvelope)
  {
    && Comparable(a.scheme, b.scheme) && Comparable(a.id, b.id) && Comparable(a.guardianId, b.guardianId)
    && Comparable(a.secretType, b.secretType)
  }

  /** Every signed field agrees, the hexadecimal ones after normalisation. */
  predicate SignedFieldsAgree(a: ShareEnvelope, b: ShareEnvelope)
  {
    && a.scheme == b.scheme && a.id == b.id && a.guardianId == b.guardianId && a.secretType == b.secretType
    && a.guardianIndex == b.guardianIndex && a.n == b.n && a.t == b.t && a.ver == b.ver && a.epoch == b.epoch
    && NormalizeAny(a.xiHex) == NormalizeAny(b.xiHex) && NormalizeAny(a.yiHex) == NormalizeAny(b.yiHex)
    && NormalizeCanon(RawCanon(a)) == NormalizeCanon(RawCanon(b))
    && a.meta.issuedAt == b.meta.issuedAt && a.meta.expiresAt == b.meta.expiresAt && a.active == b.active
  }

  predicate HexShares(env: ShareEnvelope)
  {
    Ensure0x(env.xiHex).Ok? && Ensure0x(env.yiHex).Ok? && NormalizeCanon(RawCanon(env)).Ok?
  }

  lemma FieldHasNoBar(env: ShareEnvelope, c: Canon, f: FieldName)
    requires HexShares(env) && NoBarCanon(c) && !IsFree(f)
    ensures NoBar(FieldText(env, c, f))
  {
    hide Decimal, NormalizeAny, NoBar, Ensure0x, NormalizeCanon;
    match f
    case Xi => AnyHasNoBar(env.xiHex);
    case Yi => AnyHasNoBar(env.yiHex);
    case GuardianIndex => DecimalHasNoBar(env.guardianIndex);
    case N => DecimalHasNoBar(env.n);
    case T => DecimalHasNoBar(env.t);
    case Ver => DecimalHasNoBar(env.ver);
    case Epoch => DecimalHasNoBar(env.epoch);
    case IssuedAt => DecimalHasNoBar(env.meta.issuedAt);
    case ExpiresAt => DecimalHasNoBar(env.meta.expiresAt);
    case Active => FlagHasNoBar();
    case _ =>
  }

  lemma FlagHasNoBar()
    ensures NoBar("0") && NoBar("1")
  {
  }

  lemma LabelHasNoBar(f: FieldName)
    ensures NoBar(Label(f))
  {
  }

  lemma PartComparable(a: ShareEnvelope, b: ShareEnvelope, c: Canon, c': Canon, f: FieldName)
    requires HexShares(a) && HexShares(b) && NoBarCanon(c) && NoBarCanon(c') && FreeTextsComparable(a, b)
    ensures Comparable(Label(f) + FieldText(a, c, f), Label(f) + FieldText(b, c', f))
  {
    hide Label, FieldText, NoBar, HexShares, NoBarCanon, FreeTextsComparable;
    LabelHasNoBar(f);
    if IsFree(f) {
      FreeComparable(a, b, c, c', f);
    } else {
      FieldHasNoBar(a, c, f);
      FieldHasNoBar(b, c', f);
    }
    LabelledComparable(Label(f), FieldText(a, c, f), FieldText(b, c', f));
  }

  lemma FreeComparable(a: ShareEnvelope, b: ShareEnvelope, c: Canon, c': Canon, f: FieldName)
    requires FreeTextsComparable(a, b) && IsFree(f)
    ensures Comparable(FieldText(a, c, f), FieldText(b, c', f))
  {
    hide Comparable;
  }

  lemma LabelledComparable(name: string, v: string, v': string)
    requires NoBar(name) && Comparable(v, v')
    ensures Comparable(name + v, name + v')
  {
  }

  /** Where every field has a place. */
  lemma EveryField(f: FieldName) returns (k: nat)
    ensures k < |FIELDS| && FIELDS[k] == f
  {
    match f
    case Scheme => k := 0;
    case Id => k := 1;
    case IdHash => k := 2;
    case GuardianIndex => k := 3;
    case GuardianId => k := 4;
    case N => k := 5;
    case T => k := 6;
    case Ver => k := 7;
    case Epoch => k := 8;
    case SecretType => k := 9;
    case Xi => k := 10;
    case Yi => k := 11;
    case Ui => k := 12;
    case Tag => k := 13;
    case VkSet => k := 14;
    case GuardianSet => k := 15;
    case DealerPk => k := 16;
    case RhoCommit => k := 17;
    case IssuedAt => k := 18;
    case ExpiresAt => k := 19;
    case Active => k := 20;
  }

  /** Equal lists of parts are equal field by field. */
  lemma PartsBind(a: ShareEnvelope, b: ShareEnvelope, c: Canon, c': Canon, f: FieldName)
    requires PayloadParts(a, c) == PayloadParts(b, c')
    ensures FieldText(a, c, f) == FieldText(b, c', f)
  {
    hide FieldText, Label, PayloadParts;
    var k := EveryField(f);
    PartAt(a, c, k);
    PartAt(b, c', k);
    LabelStrips(Label(f), FieldText(a, c, f), FieldText(b, c', f));
  }

  /** Field texts determine the fields. */
  lemma TextsBind(a: ShareEnvelope, b: ShareEnvelope, c: Canon, c': Canon)
    requires NormalizeCanon(RawCanon(a)) == Ok(c) && NormalizeCanon(RawCanon(b)) == Ok(c')
    requires forall f :: FieldText(a, c, f) == FieldText(b, c', f)
    ensures SignedFieldsAgree(a, b)
  {
    hide Decimal, NormalizeAny, NormalizeCanon;
    assert FieldText(a, c, Scheme) == FieldText(b, c', Scheme) && FieldText(a, c, Id) == FieldText(b, c', Id);
    assert FieldText(a, c, GuardianId) == FieldText(b, c', GuardianId) && FieldText(a, c, SecretType) == FieldText(b, c', SecretType);
    assert FieldText(a, c, Xi) == FieldText(b, c', Xi) && FieldText(a, c, Yi) == FieldText(b, c', Yi);
    assert FieldText(a, c, Active) == FieldText(b, c', Active);
    NumbersBind(a, b, c, c');
    DigestsBind(a, b, c, c');
  }

  lemma NumbersBind(a: ShareEnvelope, b: ShareEnvelope, c: Canon, c': Canon)
    requires forall f :: FieldText(a, c, f) == FieldText(b, c', f)
    ensures a.guardianIndex == b.guardianIndex && a.n == b.n && a.t == b.t && a.ver == b.ver && a.epoch == b.epoch
    ensures a.meta.issuedAt == b.meta.issuedAt && a.meta.expiresAt == b.meta.expiresAt
  {
    hide Decimal;
    assert FieldText(a, c, GuardianIndex) == FieldText(b, c', GuardianIndex);
    assert FieldText(a, c, N) == FieldText(b, c', N) && FieldText(a, c, T) == FieldText(b, c', T);
    assert FieldText(a, c, Ver) == FieldText(b, c', Ver) && FieldText(a, c, Epoch) == FieldText(b, c', Epoch);
    assert FieldText(a, c, IssuedAt) == FieldText(b, c', IssuedAt) && FieldText(a, c, ExpiresAt) == FieldText(b, c', ExpiresAt);
    DecimalInjective(a.guardianIndex, b.guardianIndex);
    DecimalInjective(a.n, b.n);
    DecimalInjective(a.t, b.t);
    DecimalInjective(a.ver, b.ver);
    DecimalInjective(a.epoch, b.epoch);
    DecimalInjective(a.meta.issuedAt, b.meta.issuedAt);
    DecimalInjective(a.meta.expiresAt, b.meta.expiresAt);
  }

  lemma DigestsBind(a: ShareEnvelope, b: ShareEnvelope, c: Canon, c': Canon)
    requires forall f :: FieldText(a, c, f) == FieldText(b, c', f)
    ensures c == c'
  {
    hide Decimal, NormalizeAny;
    assert FieldText(a, c, IdHash) == FieldText(b, c', IdHash) && FieldText(a, c, Ui) == FieldText(b, c', Ui);
    assert FieldText(a, c, Tag) == FieldText(b, c', Tag) && FieldText(a, c, VkSet) == FieldText(b, c', VkSet);
    assert FieldText(a, c, GuardianSet) == FieldText(b, c', GuardianSet) && FieldText(a, c, DealerPk) == FieldText(b, c', DealerPk);
    assert FieldText(a, c, RhoCommit) == FieldText(b, c', RhoCommit);
  }

  /** The payload binds: with comparable free texts, one payload means that every signed field agrees. */
  lemma PayloadBinds(a: ShareEnvelope, b: ShareEnvelope)
    requires HexShares(a) && HexShares(b) && FreeTextsComparable(a, b)
    ensures Payload(a).Ok? && Payload(b).Ok?
    ensures Payload(a) == Payload(b) <==> SignedFieldsAgree(a, b)
  {
    hide Join, PayloadParts, FieldText, Label, NormalizeCanon, NoBarCanon, Comparable, FreeTextsComparable, SignedFieldsAgree;
    var c, c' := NormalizeCanon(RawCanon(a)).value, NormalizeCanon(RawCanon(b)).value;
    NormalCanonHasNoBar(RawCanon(a));
    NormalCanonHasNoBar(RawCanon(b));
    if Payload(a) == Payload(b) {
      var p, q := PayloadParts(a, c), PayloadParts(b, c');
      forall k | 0 <= k < |FIELDS| ensures Comparable(p[k], q[k]) {
        PartAt(a, c, k);
        PartAt(b, c', k);
        PartComparable(a, b, c, c', FIELDS[k]);
      }
      JoinInjective(p, q);
      forall f ensures FieldText(a, c, f) == FieldText(b, c', f) {
        PartsBind(a, b, c, c', f);
      }
      TextsBind(a, b, c, c');
    }
    if SignedFieldsAgree(a, b) {
      AgreeingTexts(a, b, c, c');
      SameParts(a, b, c);
    }
  }

  lemma AgreeingTexts(a: ShareEnvelope, b: ShareEnvelope, c: Canon, c': Canon)
    requires NormalizeCanon(RawCanon(a)) == Ok(c) && NormalizeCanon(RawCanon(b)) == Ok(c') && SignedFieldsAgree(a, b)
    ensures c == c' && forall f :: FieldText(a, c, f) == FieldText(b, c', f)
  {
    hide Decimal, NormalizeAny, NormalizeCanon;
  }

  /** One field of free text alone cannot be exchanged, whatever stands in it. */
  lemma FreeTextBinds(a: ShareEnvelope, b: ShareEnvelope, f: FieldName)
    requires IsFree(f) && Payload(a).Ok? && Payload(a) == Payload(b)
    requires b == (match f
                   case Scheme => a.(scheme := b.scheme)
                   case Id => a.(id := b.id)
                   case GuardianId => a.(guardianId := b.guardianId)
                   case _ => a.(secretType := b.secretType))
    ensures a == b
  {
    hide Join, PayloadParts, NormalizeCanon, Decimal, NormalizeAny;
    var c := NormalizeCanon(RawCanon(a)).value;
    assert RawCanon(b) == RawCanon(a);
    var k := EveryField(f);
    forall i | 0 <= i < |FIELDS| && i != k ensures PayloadParts(a, c)[i] == PayloadParts(b, c)[i] {
      PartAt(a, c, i);
      PartAt(b, c, i);
      OnePlace(f, k, i);
    }
    JoinOneDiffers(PayloadParts(a, c), PayloadParts(b, c), k);
    PartsBind(a, b, c, c, f);
  }

  lemma OnePlace(f: FieldName, k: nat, i: nat)
    requires k < |FIELDS| && i < |FIELDS| && i != k && FIELDS[k] == f
    ensures FIELDS[i] != f
  {
  }

  // ----- why the free texts must be comparable -----

  lemma JoinFive(p: seq<string>)
    requires |p| > 5
    ensures Join(p, "|") == p[0] + "|" + (p[1] + "|" + (p[2] + "|" + (p[3] + "|" + (p[4] + "|" + Join(p[5..], "|")))))
  {
    JoinFrom(p, 0);
    JoinFrom(p, 1);
    JoinFrom(p, 2);
    JoinFrom(p, 3);
    JoinFrom(p, 4);
    assert p[0..] == p;
  }

  lemma JoinFrom(p: seq<string>, k: nat)
    requires k + 1 < |p|
    ensures Join(p[k..], "|") == p[k] + "|" + Join(p[k + 1..], "|")
  {
    assert p[k..][1..] == p[k + 1..];
  }

  /** Four fields with the separator inside the last, or inside the first. */
  lemma Regrouped(x: string, m: string, g: string, b: string, g': string, c: string, rest: string)
    ensures x + "|" + (m + "|" + (g + "|" + ((b + "|" + m + "|" + g' + "|" + c) + "|" + rest)))
         == (x + "|" + m + "|" + g + "|" + b) + "|" + (m + "|" + (g' + "|" + (c + "|" + rest)))
  {
  }

  /** Two guardians behind one payload: the separator inside the identity and the guardian name. */
  function ShiftedLeft(env: ShareEnvelope, d: string): ShareEnvelope
  {
    env.(id := "x", guardianIndex := 1, guardianId := "b" + "|" + ("idHash=" + d) + "|" + "guardianIndex=2" + "|" + "guardianId=c")
  }

  function ShiftedRight(env: ShareEnvelope, d: string): ShareEnvelope
  {
    env.(id := "x" + "|" + ("idHash=" + d) + "|" + "guardianIndex=1" + "|" + "guardianId=b", guardianIndex := 2, guardianId := "c")
  }

  lemma OneAndTwo()
    ensures Decimal(1) == "1" && Decimal(2) == "2"
  {
  }

  lemma Prefixed(a: string, b: string, r1: string, r2: string, r3: string)
    ensures a + (b + "|" + r1 + "|" + r2 + "|" + r3) == (a + b) + "|" + r1 + "|" + r2 + "|" + r3
  {
  }

  /** Without that, the payload does not bind: these two name different guardians and have one payload. */
  lemma FreeTextsMayShift(env: ShareEnvelope)
    requires NormalizeCanon(RawCanon(env)).Ok?
    ensures var d := NormalizeCanon(RawCanon(env)).value.idHash;
            var a, b := ShiftedLeft(env, d), ShiftedRight(env, d);
            Payload(a).Ok? && Payload(a) == Payload(b) && a.guardianIndex != b.guardianIndex
  {
    hide Join, NormalizeCanon, NormalizeAny, Decimal, PayloadParts;
    var c := NormalizeCanon(RawCanon(env)).value;
    var a, b := ShiftedLeft(env, c.idHash), ShiftedRight(env, c.idHash);
    assert RawCanon(a) == RawCanon(env) == RawCanon(b);
    var p, q := PayloadParts(a, c), PayloadParts(b, c);
    forall k | 0 <= k < |FIELDS| && (k == 0 || k >= 5) ensures p[k] == q[k] {
      PartAt(a, c, k);
      PartAt(b, c, k);
      assert FIELDS[k] != Id && FIELDS[k] != GuardianIndex && FIELDS[k] != GuardianId;
    }
    assert p[5..] == q[5..];
    ShiftedParts(env, c);
    JoinFive(p);
    JoinFive(q);
    Regrouped("id=x", "idHash=" + c.idHash, "guardianIndex=1", "guardianId=b", "guardianIndex=2", "guardianId=c", Join(p[5..], "|"));
  }

  lemma FirstFields(env: ShareEnvelope, c: Canon)
    ensures var p := PayloadParts(env, c);
            && p[1] == "id=" + env.id && p[2] == "idHash=" + c.idHash
            && p[3] == "guardianIndex=" + Decimal(env.guardianIndex) && p[4] == "guardianId=" + env.guardianId
  {
    hide Decimal, NormalizeAny, PayloadParts;
    PartAt(env, c, 1);
    PartAt(env, c, 2);
    PartAt(env, c, 3);
    PartAt(env, c, 4);
  }

  lemma NumberedOne()
    ensures "id=" + "x" == "id=x" && "guardianIndex=" + Decimal(1) == "guardianIndex=1" && "guardianIndex=" + Decimal(2) == "guardianIndex=2"
    ensures "guardianId=" + "c" == "guardianId=c" && "guardianId=" + "b" == "guardianId=b"
  {
    OneAndTwo();
  }

  lemma ShiftedParts(env: ShareEnvelope, c: Canon)
    ensures var m, p := "idHash=" + c.idHash, PayloadParts(ShiftedLeft(env, c.idHash), c);
            p[1] == "id=x" && p[2] == m && p[3] == "guardianIndex=1"
            && p[4] == "guardianId=b" + "|" + m + "|" + "guardianIndex=2" + "|" + "guardianId=c"
    ensures var m, q := "idHash=" + c.idHash, PayloadParts(ShiftedRight(env, c.idHash), c);
            q[1] == "id=x" + "|" + m + "|" + "guardianIndex=1" + "|" + "guardianId=b" && q[2] == m && q[3] == "guardianIndex=2"
            && q[4] == "guardianId=c"
  {
    hide Decimal, PayloadParts;
    var m := "idHash=" + c.idHash;
    FirstFields(ShiftedLeft(env, c.idHash), c);
    FirstFields(ShiftedRight(env, c.idHash), c);
    NumberedOne();
    Prefixed("guardianId=", "b", m, "guardianIndex=2", "guardianId=c");
    Prefixed("id=", "x", m, "guardianIndex=1", "guardianId=b");
  }

  // ----- the attestation binds the payload -----

  /** The hash takes one value on the two payloads, or on the two attestation texts, although they differ. */
  predicate Exhibits(h: TextHash, a: ShareEnvelope, b: ShareEnvelope)
  {
    || (Payload(a).Ok? && Payload(b).Ok? && Payload(a) != Payload(b) && h(Payload(a).value) == h(Payload(b).value))
    || (var s, t := SigmaText(h, a, a.meta.dealerPkHex), SigmaText(h, b, b.meta.dealerPkHex);
        s.Ok? && t.Ok? && s != t && h(s.value) == h(t.value))
  }

  lemma HexOfBinds(x: Digest32, y: Digest32)
    requires Lower(HexOf(x)) == Lower(HexOf(y))
    ensures x == y
  {
    hide HexOf, Lower;
    LowerHexOf(x);
    LowerHexOf(y);
    ParseOfHex(x);
    ParseOfHex(y);
  }

  lemma SigmaIsHashed(h: TextHash, env: ShareEnvelope, key: string)
    requires Sigma(h, env, key).Ok?
    ensures SigmaText(h, env, key).Ok? && Payload(env).Ok? && NormalizeDigest(key).Ok?
    ensures Sigma(h, env, key).value == HexOf(h(SigmaText(h, env, key).value))
    ensures SigmaText(h, env, key).value == Join(["TTSS-SIG", NormalizeDigest(key).value, HexOf(h(Payload(env).value))], "|")
  {
    hide Join, NormalizeDigest, Payload, HexOf;
  }

  lemma HexHasNoBar(bytes: Digest32)
    ensures NoBar(HexOf(bytes))
  {
    hide NoBar, IsBody, DigitsOf;
    DigitsAreBody(bytes);
    BodyHasNoBar(DigitsOf(bytes));
  }

  /** One attestation text has one key and one payload digest. */
  lemma SigmaTextBinds(key: string, key': string, x: Digest32, y: Digest32)
    requires NoBar(key) && NoBar(key')
    requires Join(["TTSS-SIG", key, HexOf(x)], "|") == Join(["TTSS-SIG", key', HexOf(y)], "|")
    ensures key == key' && x == y
  {
    hide Join, HexOf, NoBar, Lower;
    var a, b := ["TTSS-SIG", key, HexOf(x)], ["TTSS-SIG", key', HexOf(y)];
    HexHasNoBar(x);
    HexHasNoBar(y);
    assert forall i :: 0 <= i < 3 ==> Comparable(a[i], b[i]);
    JoinInjective(a, b);
    assert a[1] == b[1] && a[2] == b[2];
    HexOfBinds(x, y);
  }

  /** Two envelopes that verify with one attestation have one payload, or exhibit a collision. */
  lemma OneAttestationOnePayload(h: TextHash, a: ShareEnvelope, b: ShareEnvelope)
    requires Verifies(h, a) && Verifies(h, b) && NormalizeDigest(a.sigmaHex) == NormalizeDigest(b.sigmaHex)
    ensures Payload(a).Ok? && (Payload(a) == Payload(b) || Exhibits(h, a, b))
  {
    hide Join, NormalizeDigest, Payload, HexOf, Verify, Sigma, SigmaText, Lower;
    var k, k' := a.meta.dealerPkHex, b.meta.dealerPkHex;
    VerifyingParts(h, a);
    VerifyingParts(h, b);
    SigmaIsHashed(h, a, k);
    SigmaIsHashed(h, b, k');
    var s, t := SigmaText(h, a, k), SigmaText(h, b, k');
    HexOfBinds(h(s.value), h(t.value));
    if s == t {
      DigestHasNoBar(k);
      DigestHasNoBar(k');
      SigmaTextBinds(NormalizeDigest(k).value, NormalizeDigest(k').value, h(Payload(a).value), h(Payload(b).value));
    }
  }

  /**
   The attestation binds. Two envelopes with comparable free texts that verify with
   one attestation agree in every signed field, or exhibit a collision of the hash:
   an altered envelope that is still accepted needs one.
   */
  lemma AttestationBinds(h: TextHash, a: ShareEnvelope, b: ShareEnvelope)
    requires Verifies(h, a) && Verifies(h, b) && NormalizeDigest(a.sigmaHex) == NormalizeDigest(b.sigmaHex)
    requires FreeTextsComparable(a, b)
    ensures SignedFieldsAgree(a, b) || Exhibits(h, a, b)
  {
    hide NormalizeDigest, Payload, SignedFieldsAgree, Exhibits, FreeTextsComparable, Verify;
    OneAttestationOnePayload(h, a, b);
    VerifiedIsHex(h, a);
    VerifiedIsHex(h, b);
    PayloadBinds(a, b);
  }

  lemma VerifiedIsHex(h: TextHash, env: ShareEnvelope)
    requires Verifies(h, env)
    ensures HexShares(env)
  {
    hide Verify, Ensure0x;
    VerifyingParts(h, env);
    HexStringEnsured(env.xiHex);
    HexStringEnsured(env.yiHex);
  }

  /** ... and replacing one free text alone is noticed too, whatever it is replaced with. */
  lemma FreeTextIsBound(h: TextHash, a: ShareEnvelope, b: ShareEnvelope, f: FieldName)
    requires IsFree(f) && Verifies(h, a) && Verifies(h, b) && a != b
    requires b == (match f
                   case Scheme => a.(scheme := b.scheme)
                   case Id => a.(id := b.id)
                   case GuardianId => a.(guardianId := b.guardianId)
                   case _ => a.(secretType := b.secretType))
    ensures Exhibits(h, a, b)
  {
    hide NormalizeDigest, Payload, Exhibits, Verify;
    OneAttestationOnePayload(h, a, b);
    if Payload(a) == Payload(b) {
      FreeTextBinds(a, b, f);
    }
  }

  /** A replaced yi is refused, or exhibits a collision. */
  lemma ReplacedYiIsNoticed(h: TextHash, env: ShareEnvelope, y: string)
    requires Verifies(h, env) && NormalizeAny(y) != NormalizeAny(env.yiHex)
    ensures Verifies(h, env.(yiHex := y)) ==> Exhibits(h, env, env.(yiHex := y))
  {
    hide Verify, Exhibits, NormalizeAny, NormalizeDigest, NormalizeCanon;
    if Verifies(h, env.(yiHex := y)) {
      AttestationBinds(h, env, env.(yiHex := y));
    }
  }
}
