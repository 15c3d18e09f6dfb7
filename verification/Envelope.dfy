/**
 Share envelopes: validation, canonical payload, demo attestation, and the JSON
 form. SHA-256 of a text is a parameter `h`: any function from texts to 32 bytes.
 */
module Envelope {
  import opened Outcomes
  import opened Hex
  import opened ShareField

  type Digest32 = d: seq<Byte> | |d| == 32 witness seq(32, _ => 0)
  type TextHash = string -> Digest32

  const SCHEME := "NITS-Shamir-v1"
  const SECRET_TYPE := "srec_seed"
  const SIG_ALG := "digest-attestation-v1"

  datatype ShareMeta = ShareMeta(
    vkSetHash: string, guardianSetHash: string, dealerPkHex: string, rhoCommitHex: string,
    issuedAt: U64, expiresAt: U64)

  datatype ShareEnvelope = ShareEnvelope(
    scheme: string, id: string, idHash: string, guardianIndex: U32, guardianId: string,
    n: U32, t: U32, ver: U64, epoch: U64, secretType: string,
    xiHex: string, yiHex: string, uiHex: string, tagHex: string,
    sigAlg: string, sigmaHex: string, meta: ShareMeta, active: bool)

  // ----- text helpers -----

  function Decimal(n: nat): (s: string)
    ensures s != [] && forall i :: 0 <= i < |s| ==> '0' <= s[i] <= '9'
  {
    if n < 10 then [HexDigit(n)] else Decimal(n / 10) + [HexDigit(n % 10)]
  }

  lemma {:induction false} DecimalInjective(m: nat, n: nat)
    requires Decimal(m) == Decimal(n)
    ensures m == n
  {
    var s, t := Decimal(m), Decimal(n);
    assert s[|s| - 1] == HexDigit(m % 10) && t[|t| - 1] == HexDigit(n % 10);
    DigitInjective(m % 10, n % 10);
    if m >= 10 && n >= 10 {
      assert s[..|s| - 1] == Decimal(m / 10) && t[..|t| - 1] == Decimal(n / 10);
      DecimalInjective(m / 10, n / 10);
    }
  }

  lemma DigitInjective(m: nat, n: nat)
    requires m < 10 && n < 10 && HexDigit(m) == HexDigit(n)
    ensures m == n
  {
  }

  function Join(parts: seq<string>, separator: string): string
  {
    if |parts| == 0 then "" else
    if |parts| == 1 then parts[0] else parts[0] + separator + Join(parts[1..], separator)
  }

  /** `sha256_joined_hex` */
  function HashJoined(h: TextHash, parts: seq<string>): string
  {
    HexOf(h(Join(parts, "|")))
  }

  /** Lower-case, prefix, and pad to whole bytes; never throws. */
  function NormalizeAny(s: string): string
  {
    var v := Lower(Trim(s));
    if v == "" then "" else
      var body := if |v| >= 2 && v[..2] == "0x" then v[2..] else v;
      var filled := if body == "" then "00" else body;
      "0x" + (if |filled| % 2 != 0 then "0" + filled else filled)
  }

  // ----- validation -----

  /** The reasons a check reports, one for each message text. */
  datatype Reason =
    | BadScheme | BadIdHash | BadGuardianIndex | BadThreshold | BadSecretType
    | MissingShareCore | BadShareHex | BadUiHex | BadTagHex | BadSigmaHex
    | BadVkSetHash | BadGuardianSetHash | BadDealerPkHex | BadRhoCommitHex
    | UnsupportedSigAlg | MissingDealerPkHex | SigmaMismatch

  datatype Check = Pass | Fail(reason: Reason)

  function BasicValidate(env: ShareEnvelope): Check
  {
    ValidateWith(s => IsHexString(s), env)
  }

  /** The checks in order, relative to the test for hexadecimal text. */
  function ValidateWith(isHex: string -> bool, env: ShareEnvelope): Check
  {
    if env.scheme != SCHEME then Fail(BadScheme)
    else if env.idHash == "" || !isHex(env.idHash) then Fail(BadIdHash)
    else if env.guardianIndex == 0 then Fail(BadGuardianIndex)
    else if env.n < 2 || env.t < 2 || env.t > env.n then Fail(BadThreshold)
    else if env.secretType != SECRET_TYPE then Fail(BadSecretType)
    else if env.xiHex == "" || env.yiHex == "" then Fail(MissingShareCore)
    else if !isHex(env.xiHex) || !isHex(env.yiHex) then Fail(BadShareHex)
    else if !isHex(env.uiHex) then Fail(BadUiHex)
    else if !isHex(env.tagHex) then Fail(BadTagHex)
    else if !isHex(env.sigmaHex) then Fail(BadSigmaHex)
    else if env.meta.vkSetHash != "" && !isHex(env.meta.vkSetHash) then Fail(BadVkSetHash)
    else if env.meta.guardianSetHash != "" && !isHex(env.meta.guardianSetHash) then Fail(BadGuardianSetHash)
    else if env.meta.dealerPkHex != "" && !isHex(env.meta.dealerPkHex) then Fail(BadDealerPkHex)
    else if env.meta.rhoCommitHex != "" && !isHex(env.meta.rhoCommitHex) then Fail(BadRhoCommitHex)
    else Pass
  }

  predicate CanonWith(isHex: string -> bool, c: Canon)
  {
    && c.idHash != "" && isHex(c.idHash) && isHex(c.ui) && isHex(c.tag)
    && (c.vkSet == "" || isHex(c.vkSet)) && (c.guardianSet == "" || isHex(c.guardianSet))
    && (c.dealerPk == "" || isHex(c.dealerPk)) && (c.rhoCommit == "" || isHex(c.rhoCommit))
  }

  /** Validity looks at a few plain fields and at the shape of the hexadecimal ones. */
  lemma ValidFields(isHex: string -> bool, env: ShareEnvelope)
    ensures ValidateWith(isHex, env) == Pass <==>
            && env.scheme == SCHEME && env.secretType == SECRET_TYPE && env.guardianIndex != 0
            && 2 <= env.t <= env.n
            && env.xiHex != "" && env.yiHex != "" && isHex(env.xiHex) && isHex(env.yiHex)
            && isHex(env.sigmaHex) && CanonWith(isHex, RawCanon(env))
  {
  }

  // ----- the signed payload -----

  /** The hexadecimal fields of an envelope as they enter the payload. */
  datatype Canon = Canon(idHash: string, ui: string, tag: string,
                         vkSet: string, guardianSet: string, dealerPk: string, rhoCommit: string)

  function RawCanon(env: ShareEnvelope): Canon
  {
    Canon(env.idHash, env.uiHex, env.tagHex, env.meta.vkSetHash, env.meta.guardianSetHash,
          env.meta.dealerPkHex, env.meta.rhoCommitHex)
  }

  function NormalizeCanon(raw: Canon): Outcome<Canon>
  {
    CanonThrough(s => NormalizeDigest(s), raw)
  }

  /** Field by field, relative to the normalisation of one digest. */
  function CanonThrough(norm: string -> Outcome<string>, raw: Canon): Outcome<Canon>
  {
    var idHash :- norm(raw.idHash);
    var ui :- norm(raw.ui);
    var tag :- norm(raw.tag);
    var vkSet :- OptionalThrough(norm, raw.vkSet);
    var guardianSet :- OptionalThrough(norm, raw.guardianSet);
    var dealerPk :- OptionalThrough(norm, raw.dealerPk);
    var rhoCommit :- OptionalThrough(norm, raw.rhoCommit);
    Ok(Canon(idHash, ui, tag, vkSet, guardianSet, dealerPk, rhoCommit))
  }

  function OptionalThrough(norm: string -> Outcome<string>, s: string): Outcome<string>
  {
    if s == "" then Ok("") else norm(s)
  }

  lemma CanonFields(norm: string -> Outcome<string>, raw: Canon)
    requires CanonThrough(norm, raw).Ok?
    ensures var c := CanonThrough(norm, raw).value;
            && norm(raw.idHash) == Ok(c.idHash) && norm(raw.ui) == Ok(c.ui) && norm(raw.tag) == Ok(c.tag)
            && OptionalThrough(norm, raw.vkSet) == Ok(c.vkSet)
            && OptionalThrough(norm, raw.guardianSet) == Ok(c.guardianSet)
            && OptionalThrough(norm, raw.dealerPk) == Ok(c.dealerPk)
            && OptionalThrough(norm, raw.rhoCommit) == Ok(c.rhoCommit)
  {
  }

  /** The fields of the payload, in order. */
  datatype FieldName =
    | Scheme | Id | IdHash | GuardianIndex | GuardianId | N | T | Ver | Epoch | SecretType
    | Xi | Yi | Ui | Tag | VkSet | GuardianSet | DealerPk | RhoCommit | IssuedAt | ExpiresAt | Active

  const FIELDS: seq<FieldName> := [
    Scheme, Id, IdHash, GuardianIndex, GuardianId, N, T, Ver, Epoch, SecretType,
    Xi, Yi, Ui, Tag, VkSet, GuardianSet, DealerPk, RhoCommit, IssuedAt, ExpiresAt, Active]

  function Label(f: FieldName): string
  {
    match f
    case Scheme => "scheme="
    case Id => "id="
    case IdHash => "idHash="
    case GuardianIndex => "guardianIndex="
    case GuardianId => "guardianId="
    case N => "n="
    case T => "t="
    case Ver => "ver="
    case Epoch => "epoch="
    case SecretType => "secretType="
    case Xi => "xiHex="
    case Yi => "yiHex="
    case Ui => "uiHex="
    case Tag => "tagHex="
    case VkSet => "vkSetHash="
    case GuardianSet => "guardianSetHash="
    case DealerPk => "dealerPkHex="
    case RhoCommit => "rhoCommitHex="
    case IssuedAt => "issuedAt="
    case ExpiresAt => "expiresAt="
    case Active => "active="
  }

  /** The text of a field, given the normalised digests. */
  function FieldText(env: ShareEnvelope, c: Canon, f: FieldName): string
  {
    match f
    case Scheme => env.scheme
    case Id => env.id
    case IdHash => c.idHash
    case GuardianIndex => Decimal(env.guardianIndex)
    case GuardianId => env.guardianId
    case N => Decimal(env.n)
    case T => Decimal(env.t)
    case Ver => Decimal(env.ver)
    case Epoch => Decimal(env.epoch)
    case SecretType => env.secretType
    case Xi => NormalizeAny(env.xiHex)
    case Yi => NormalizeAny(env.yiHex)
    case Ui => c.ui
    case Tag => c.tag
    case VkSet => c.vkSet
    case GuardianSet => c.guardianSet
    case DealerPk => c.dealerPk
    case RhoCommit => c.rhoCommit
    case IssuedAt => Decimal(env.meta.issuedAt)
    case ExpiresAt => Decimal(env.meta.expiresAt)
    case Active => if env.active then "1" else "0"
  }

  function PayloadParts(env: ShareEnvelope, c: Canon): (parts: seq<string>)
    ensures |parts| == |FIELDS|
  {
    seq(|FIELDS|, k requires 0 <= k < |FIELDS| => Label(FIELDS[k]) + FieldText(env, c, FIELDS[k]))
  }

  function Payload(env: ShareEnvelope): Outcome<string>
  {
    var c :- NormalizeCanon(RawCanon(env));
    Ok(Join(PayloadParts(env, c), "|"))
  }

  function EnvelopeDigest(h: TextHash, env: ShareEnvelope): Outcome<string>
  {
    var payload :- Payload(env);
    Ok(HexOf(h(payload)))
  }

  // ----- attestation -----

  function Sigma(h: TextHash, env: ShareEnvelope, key: string): Outcome<string>
  {
    var keyHex :- NormalizeDigest(key);
    var digest :- EnvelopeDigest(h, env);
    Ok(HashJoined(h, ["TTSS-SIG", keyHex, digest]))
  }

  function Sign(h: TextHash, env: ShareEnvelope, key: string): Outcome<ShareEnvelope>
  {
    var alg := if env.sigAlg == "" then SIG_ALG else env.sigAlg;
    var sigma :- Sigma(h, env.(sigAlg := alg), key);
    Ok(env.(sigAlg := alg, sigmaHex := sigma))
  }

  function Verify(h: TextHash, env: ShareEnvelope): Outcome<Check>
  {
    Verdict(BasicValidate(env), env.sigAlg, env.meta.dealerPkHex,
            Sigma(h, env, env.meta.dealerPkHex), NormalizeDigest(env.sigmaHex))
  }

  function Verdict(basic: Check, sigAlg: string, dealerPk: string,
                   expected: Outcome<string>, actual: Outcome<string>): Outcome<Check>
  {
    if basic.Fail? then Ok(basic)
    else if sigAlg != SIG_ALG then Ok(Fail(UnsupportedSigAlg))
    else if dealerPk == "" then Ok(Fail(MissingDealerPkHex))
    else
      var e :- expected;
      var a :- actual;
      if Lower(e) != Lower(a) then Ok(Fail(SigmaMismatch)) else Ok(Pass)
  }

  predicate Verifies(h: TextHash, env: ShareEnvelope)
  {
    Verify(h, env) == Ok(Pass)
  }

  // ----- JSON -----

  /** A share envelope document, by its fields; an absent field is `None`. */
  datatype Doc = Doc(
    scheme: Option<string>, id: Option<string>, idHash: Option<string>,
    guardianIndex: Option<nat>, guardianId: Option<string>, n: Option<nat>, t: Option<nat>,
    ver: Option<nat>, epoch: Option<nat>, secretType: Option<string>,
    xiHex: Option<string>, yiHex: Option<string>, uiHex: Option<string>, tagHex: Option<string>,
    sigAlg: Option<string>, sigmaHex: Option<string>,
    vkSetHash: Option<string>, guardianSetHash: Option<string>,
    dealerPkHex: Option<string>, rhoCommitHex: Option<string>,
    issuedAt: Option<nat>, expiresAt: Option<nat>, active: Option<bool>)

  function ToDoc(env: ShareEnvelope): Outcome<Doc>
  {
    var c :- NormalizeCanon(RawCanon(env));
    var xi :- NormalizeDigest(env.xiHex);
    var yi :- Ensure0x(env.yiHex);
    var sigma :- NormalizeDigest(env.sigmaHex);
    Ok(DocOf(env, c, xi, yi, sigma))
  }

  function DocOf(env: ShareEnvelope, c: Canon, xi: string, yi: string, sigma: string): Doc
  {
    Doc(Some(env.scheme), Some(env.id), Some(c.idHash), Some(env.guardianIndex), Some(env.guardianId),
        Some(env.n), Some(env.t), Some(env.ver), Some(env.epoch), Some(env.secretType),
        Some(xi), Some(yi), Some(c.ui), Some(c.tag), Some(env.sigAlg), Some(sigma),
        Some(c.vkSet), Some(c.guardianSet), Some(c.dealerPk), Some(c.rhoCommit),
        Some(env.meta.issuedAt), Some(env.meta.expiresAt), Some(env.active))
  }

  function GetOr<T>(field: Option<T>, def: T): T
  {
    match field
    case Some(v) => v
    case None => def
  }

  /** Numbers outside the field's width read as the default. */
  function GetU32(field: Option<nat>): U32
  {
    if field.Some? && field.value < TWO32 then field.value else 0
  }

  function GetU64(field: Option<nat>): U64
  {
    if field.Some? && field.value < TWO64 then field.value else 0
  }

  function DocFields(d: Doc): ShareEnvelope
  {
    ShareEnvelope(
      GetOr(d.scheme, SCHEME), GetOr(d.id, ""), GetOr(d.idHash, ""),
      GetU32(d.guardianIndex), GetOr(d.guardianId, ""), GetU32(d.n), GetU32(d.t),
      GetU64(d.ver), GetU64(d.epoch), GetOr(d.secretType, SECRET_TYPE),
      GetOr(d.xiHex, ""), GetOr(d.yiHex, ""), GetOr(d.uiHex, ""), GetOr(d.tagHex, ""),
      GetOr(d.sigAlg, SIG_ALG), GetOr(d.sigmaHex, ""),
      ShareMeta(GetOr(d.vkSetHash, ""), GetOr(d.guardianSetHash, ""), GetOr(d.dealerPkHex, ""),
                GetOr(d.rhoCommitHex, ""), GetU64(d.issuedAt), GetU64(d.expiresAt)),
      GetOr(d.active, true))
  }

  /** Parsing throws exactly when the fields do not validate. */
  function FromDoc(d: Doc): Outcome<ShareEnvelope>
  {
    var env := DocFields(d);
    match BasicValidate(env)
    case Pass => Ok(env)
    case Fail(_) => Throw("bad_share_envelope_json")
  }

  // ----- properties -----

  /** Everything the attestation covers is untouched by signing. */
  lemma SigningKeepsPayload(env: ShareEnvelope, alg: string, sigma: string)
    ensures Payload(env.(sigAlg := alg, sigmaHex := sigma)) == Payload(env)
  {
    hide NormalizeCanon, NormalizeAny, Decimal, Join;
    var env' := env.(sigAlg := alg, sigmaHex := sigma);
    assert RawCanon(env') == RawCanon(env);
    if NormalizeCanon(RawCanon(env)).Ok? {
      SameParts(env, env', NormalizeCanon(RawCanon(env)).value);
    }
  }

  /** The payload looks at the field texts only. */
  lemma SameParts(a: ShareEnvelope, b: ShareEnvelope, c: Canon)
    requires forall f :: FieldText(a, c, f) == FieldText(b, c, f)
    ensures PayloadParts(a, c) == PayloadParts(b, c)
  {
    hide Label, FieldText;
  }

  lemma HashJoinedCanonical(h: TextHash, parts: seq<string>)
    ensures var s := HashJoined(h, parts);
            NormalizeDigest(s) == Ok(s) && IsHexString(s) && s != ""
  {
    var bytes := h(Join(parts, "|"));
    HexNormalized(bytes);
    DigitsAreBody(bytes);
    EnsureCanonical(DigitsOf(bytes));
  }

  /** The attestation value depends only on the payload and the key. */
  lemma SigmaOfPayload(h: TextHash, env: ShareEnvelope, env': ShareEnvelope, key: string)
    requires Payload(env) == Payload(env')
    ensures Sigma(h, env, key) == Sigma(h, env', key)
    ensures Sigma(h, env, key).Ok? ==>
              var s := Sigma(h, env, key).value;
              NormalizeDigest(s) == Ok(s) && IsHexString(s) && s != ""
  {
    if Sigma(h, env, key).Ok? {
      HashJoinedCanonical(h, ["TTSS-SIG", NormalizeDigest(key).value, EnvelopeDigest(h, env).value]);
    }
  }

  /** An envelope signed with its own dealer key verifies, provided its fields are valid. */
  lemma SignedVerifies(h: TextHash, env: ShareEnvelope)
    requires env.sigAlg == "" || env.sigAlg == SIG_ALG
    requires env.meta.dealerPkHex != ""
    requires Sign(h, env, env.meta.dealerPkHex).Ok?
    requires BasicValidate(Sign(h, env, env.meta.dealerPkHex).value) == Pass
    ensures Verifies(h, Sign(h, env, env.meta.dealerPkHex).value)
  {
    var key := env.meta.dealerPkHex;
    var signed := Sign(h, env, key).value;
    var draft := env.(sigAlg := SIG_ALG);
    SigningKeepsPayload(draft, SIG_ALG, signed.sigmaHex);
    SigmaOfPayload(h, draft, signed, key);
  }

  lemma DigestIdempotent(s: string)
    requires NormalizeDigest(s).Ok?
    ensures NormalizeDigest(NormalizeDigest(s).value) == NormalizeDigest(s)
    ensures IsHexString(NormalizeDigest(s).value) && |NormalizeDigest(s).value| == 66
  {
    NormalizeShape(s, 32);
    NormalizeIdempotent(s, 32);
    EnsureCanonical(NormalizeDigest(s).value[2..]);
  }

  /** Canonical normalisation is idempotent. */
  lemma CanonIdempotent(raw: Canon)
    requires NormalizeCanon(raw).Ok?
    ensures NormalizeCanon(NormalizeCanon(raw).value) == NormalizeCanon(raw)
    ensures CanonWith(s => IsHexString(s), NormalizeCanon(raw).value)
  {
    var norm := s => NormalizeDigest(s);
    var isHex := s => IsHexString(s);
    forall s | norm(s).Ok?
      ensures norm(norm(s).value) == norm(s) && isHex(norm(s).value) && norm(s).value != ""
    {
      DigestIdempotent(s);
    }
    CanonFixed(norm, isHex, raw);
  }

  lemma CanonFixed(norm: string -> Outcome<string>, isHex: string -> bool, raw: Canon)
    requires CanonThrough(norm, raw).Ok?
    requires forall s :: norm(s).Ok? ==> norm(norm(s).value) == norm(s) && isHex(norm(s).value) && norm(s).value != ""
    ensures CanonThrough(norm, CanonThrough(norm, raw).value) == CanonThrough(norm, raw)
    ensures CanonWith(isHex, CanonThrough(norm, raw).value)
  {
    CanonFields(norm, raw);
  }

  // ----- the JSON round trip -----

  /** The digits of a hexadecimal text, without prefix. */
  function Digits(s: string): string
    requires Ensure0x(s).Ok?
  {
    EnsureShape(s);
    Ensure0x(s).value[2..]
  }

  lemma NormalizeAnyOfHex(s: string)
    requires Ensure0x(s).Ok?
    ensures NormalizeAny(s) == "0x" + (if |Digits(s)| % 2 != 0 then "0" + Digits(s) else Digits(s))
  {
    EnsureShape(s);
    var v, t := Ensure0x(s).value, Lower(Trim(s));
    if Starts0x(t) {
      assert v == t && t[..2] == "0x";
    } else {
      assert v == "0x" + t && v[2..] == t;
      assert |t| >= 2 ==> t[..2] == [t[0], t[1]];
    }
  }

  lemma NormalizeAnyStable(s: string)
    requires Ensure0x(s).Ok?
    ensures NormalizeAny(Ensure0x(s).value) == NormalizeAny(s)
  {
    EnsureIdempotent(s);
    NormalizeAnyOfHex(s);
    NormalizeAnyOfHex(Ensure0x(s).value);
  }

  /** Padding to whole bytes and padding to 32 bytes agree exactly on 63 or 64 digits. */
  lemma NormalizeAnyVsDigest(s: string)
    requires NormalizeDigest(s).Ok?
    ensures |NormalizeDigest(s).value| == 66
    ensures |NormalizeAny(s)| == 2 + |Digits(s)| + |Digits(s)| % 2
    ensures NormalizeAny(s) == NormalizeDigest(s).value <==> |Digits(s)| >= 63
  {
    NormalizeAnyOfHex(s);
    EnsureShape(s);
    PaddedVsWhole(Digits(s));
  }

  lemma PaddedVsWhole(d: string)
    requires 1 <= |d| <= 64
    ensures |"0x" + Zeros(64 - |d|) + d| == 66
    ensures "0x" + (if |d| % 2 != 0 then "0" + d else d) == "0x" + Zeros(64 - |d|) + d <==> |d| >= 63
  {
    if |d| == 63 {
      assert Zeros(1) == "0";
    } else if |d| == 64 {
      assert Zeros(0) == "";
    }
  }

  lemma NormalizeAnyOfDigest(s: string)
    requires NormalizeDigest(s).Ok?
    ensures NormalizeAny(NormalizeDigest(s).value) == NormalizeDigest(s).value
  {
    hide NormalizeBytes, Ensure0x, NormalizeAny, IsBody;
    NormalizeShape(s, 32);
    NormalizeIdempotent(s, 32);
    NormalizeAnyOfHex(NormalizeDigest(s).value);
  }

  /** What an envelope is after JSON output and parsing. */
  lemma DocFieldsOf(env: ShareEnvelope, d: Doc)
    requires ToDoc(env) == Ok(d)
    ensures var c := NormalizeCanon(RawCanon(env)).value;
            var meta := ShareMeta(c.vkSet, c.guardianSet, c.dealerPk, c.rhoCommit,
                                  env.meta.issuedAt, env.meta.expiresAt);
            DocFields(d) == env.(idHash := c.idHash, uiHex := c.ui, tagHex := c.tag,
                                 xiHex := NormalizeDigest(env.xiHex).value,
                                 yiHex := Ensure0x(env.yiHex).value,
                                 sigmaHex := NormalizeDigest(env.sigmaHex).value, meta := meta)
  {
  }

  /** What each field of the document shows. */
  lemma DocShows(env: ShareEnvelope, d: Doc)
    requires ToDoc(env) == Ok(d)
    ensures d.scheme == Some(env.scheme) && d.id == Some(env.id) && d.secretType == Some(env.secretType) && d.sigAlg == Some(env.sigAlg)
    ensures d.guardianIndex == Some(env.guardianIndex) && d.guardianId == Some(env.guardianId) && d.n == Some(env.n) && d.t == Some(env.t)
    ensures d.ver == Some(env.ver) && d.epoch == Some(env.epoch) && d.active == Some(env.active)
    ensures d.issuedAt == Some(env.meta.issuedAt) && d.expiresAt == Some(env.meta.expiresAt)
    ensures d.xiHex.Some? && NormalizeDigest(env.xiHex) == Ok(d.xiHex.value)
    ensures d.yiHex.Some? && Ensure0x(env.yiHex) == Ok(d.yiHex.value)
    ensures d.sigmaHex.Some? && NormalizeDigest(env.sigmaHex) == Ok(d.sigmaHex.value)
    ensures d.idHash.Some? && NormalizeDigest(env.idHash) == Ok(d.idHash.value)
    ensures d.uiHex.Some? && NormalizeDigest(env.uiHex) == Ok(d.uiHex.value)
    ensures d.tagHex.Some? && NormalizeDigest(env.tagHex) == Ok(d.tagHex.value)
    ensures d.dealerPkHex.Some? && (if env.meta.dealerPkHex == "" then d.dealerPkHex.value == "" else NormalizeDigest(env.meta.dealerPkHex) == Ok(d.dealerPkHex.value))
    ensures d.vkSetHash.Some? && (if env.meta.vkSetHash == "" then d.vkSetHash.value == "" else NormalizeDigest(env.meta.vkSetHash) == Ok(d.vkSetHash.value))
    ensures d.guardianSetHash.Some? && (if env.meta.guardianSetHash == "" then d.guardianSetHash.value == "" else NormalizeDigest(env.meta.guardianSetHash) == Ok(d.guardianSetHash.value))
    ensures d.rhoCommitHex.Some? && (if env.meta.rhoCommitHex == "" then d.rhoCommitHex.value == "" else NormalizeDigest(env.meta.rhoCommitHex) == Ok(d.rhoCommitHex.value))
  {
    hide NormalizeDigest, Ensure0x;
    CanonFields(s => NormalizeDigest(s), RawCanon(env));
  }

  // ----- what a joined text determines -----

  predicate NoBar(s: string)
  {
    '|' !in s
  }

  /** Equal, or both free of the separator. */
  predicate Comparable(x: string, y: string)
  {
    x == y || (NoBar(x) && NoBar(y))
  }

  lemma SplitAtBar(v: string, r: string, v': string, r': string)
    requires NoBar(v) && NoBar(v') && v + "|" + r == v' + "|" + r'
    ensures v == v' && r == r'
  {
    var s := v + "|" + r;
    assert s[|v|] == '|' && s[|v'|] == '|';
    assert forall i :: 0 <= i < |v| ==> s[i] == v[i];
    assert forall i :: 0 <= i < |v'| ==> s[i] == v'[i];
    assert v == s[..|v|] && v' == s[..|v'|];
    assert r == s[|v| + 1..] && r' == s[|v'| + 1..];
  }

  lemma StripSame(v: string, r: string, r': string)
    requires v + "|" + r == v + "|" + r'
    ensures r == r'
  {
    assert r == (v + "|" + r)[|v| + 1..] && r' == (v + "|" + r')[|v| + 1..];
  }

  /** A joined text determines its parts when those that differ are free of the separator. */
  lemma {:induction false} JoinInjective(a: seq<string>, b: seq<string>)
    requires |a| == |b| && Join(a, "|") == Join(b, "|")
    requires forall i :: 0 <= i < |a| ==> Comparable(a[i], b[i])
    ensures a == b
  {
    if |a| > 1 {
      hide NoBar;
      if a[0] == b[0] {
        StripSame(a[0], Join(a[1..], "|"), Join(b[1..], "|"));
      } else {
        SplitAtBar(a[0], Join(a[1..], "|"), b[0], Join(b[1..], "|"));
      }
      JoinInjective(a[1..], b[1..]);
      assert a == [a[0]] + a[1..] && b == [b[0]] + b[1..];
    }
  }

  /** ... or when they differ in one place at most, whatever stands there. */
  lemma {:induction false} JoinOneDiffers(a: seq<string>, b: seq<string>, k: nat)
    requires |a| == |b| && k < |a| && Join(a, "|") == Join(b, "|")
    requires forall i :: 0 <= i < |a| && i != k ==> a[i] == b[i]
    ensures a == b
  {
    if |a| > 1 {
      if k == 0 {
        assert a[1..] == b[1..];
        SameTail(a[0], b[0], Join(a[1..], "|"));
      } else {
        StripSame(a[0], Join(a[1..], "|"), Join(b[1..], "|"));
        JoinOneDiffers(a[1..], b[1..], k - 1);
      }
      assert a == [a[0]] + a[1..] && b == [b[0]] + b[1..];
    }
  }

  lemma SameTail(v: string, v': string, r: string)
    requires v + "|" + r == v' + "|" + r
    ensures v == v'
  {
    assert |v| == |v'|;
    assert v == (v + "|" + r)[..|v|] && v' == (v' + "|" + r)[..|v'|];
  }

  lemma LabelStrips(name: string, v: string, v': string)
    requires name + v == name + v'
    ensures v == v'
  {
    assert v == (name + v)[|name|..] && v' == (name + v')[|name|..];
  }

  /** The round trip keeps the signed payload exactly when xi has 63 or 64 digits. */
  lemma PayloadRoundTrip(env: ShareEnvelope, d: Doc)
    requires ToDoc(env) == Ok(d)
    ensures Payload(env).Ok? && Payload(DocFields(d)).Ok?
    ensures Payload(DocFields(d)) == Payload(env) <==> |Digits(env.xiHex)| >= 63
  {
    hide NormalizeCanon, NormalizeAny, Decimal, Join, NormalizeDigest, Ensure0x, Digits, PayloadParts, FieldText;
    var env' := DocFields(d);
    var c := NormalizeCanon(RawCanon(env)).value;
    RoundTripTexts(env, d);
    NormalizeAnyVsDigest(env.xiHex);
    NormalizeAnyOfDigest(env.xiHex);
    XiTexts(env, env', c);
    SamePayloadIff(env, env', c);
  }

  lemma XiTexts(a: ShareEnvelope, b: ShareEnvelope, c: Canon)
    ensures FieldText(a, c, Xi) == NormalizeAny(a.xiHex) && FieldText(b, c, Xi) == NormalizeAny(b.xiHex)
  {
    hide NormalizeAny, Decimal;
  }

  /** After the round trip all field texts but that of xi are the same. */
  lemma RoundTripTexts(env: ShareEnvelope, d: Doc)
    requires ToDoc(env) == Ok(d)
    ensures var c := NormalizeCanon(RawCanon(env));
            c.Ok? && NormalizeCanon(RawCanon(DocFields(d))) == c && NormalizeDigest(env.xiHex).Ok?
            && DocFields(d).xiHex == NormalizeDigest(env.xiHex).value
            && forall f :: f != Xi ==> FieldText(env, c.value, f) == FieldText(DocFields(d), c.value, f)
  {
    hide NormalizeCanon, NormalizeAny, Decimal, Ensure0x, NormalizeDigest, FieldText;
    var env', c := DocFields(d), NormalizeCanon(RawCanon(env)).value;
    DocFieldsOf(env, d);
    CanonIdempotent(RawCanon(env));
    assert RawCanon(env') == c;
    NormalizeAnyStable(env.yiHex);
    SameFieldsSameTexts(env, env', c);
  }

  lemma SameFieldsSameTexts(a: ShareEnvelope, b: ShareEnvelope, c: Canon)
    requires b == a.(idHash := b.idHash, xiHex := b.xiHex, yiHex := b.yiHex, uiHex := b.uiHex, tagHex := b.tagHex,
                     sigmaHex := b.sigmaHex, meta := b.meta)
    requires b.meta.issuedAt == a.meta.issuedAt && b.meta.expiresAt == a.meta.expiresAt
    requires NormalizeAny(b.yiHex) == NormalizeAny(a.yiHex)
    ensures forall f :: f != Xi ==> FieldText(a, c, f) == FieldText(b, c, f)
  {
    hide NormalizeAny, Decimal;
  }

  /** Envelopes that differ at most in xi have one payload exactly if they have one text of xi. */
  lemma SamePayloadIff(env: ShareEnvelope, env': ShareEnvelope, c: Canon)
    requires forall f :: f != Xi ==> FieldText(env, c, f) == FieldText(env', c, f)
    ensures Join(PayloadParts(env, c), "|") == Join(PayloadParts(env', c), "|") <==> FieldText(env, c, Xi) == FieldText(env', c, Xi)
  {
    hide FieldText, Label, Join;
    var a, b := PayloadParts(env, c), PayloadParts(env', c);
    FieldPlaces();
    if FieldText(env, c, Xi) == FieldText(env', c, Xi) {
      SameParts(env, env', c);
    } else if Join(a, "|") == Join(b, "|") {
      JoinOneDiffers(a, b, 10);
      PartAt(env, c, 10);
      PartAt(env', c, 10);
      LabelStrips(Label(Xi), FieldText(env, c, Xi), FieldText(env', c, Xi));
    }
  }

  lemma PartAt(env: ShareEnvelope, c: Canon, k: nat)
    requires k < |FIELDS|
    ensures PayloadParts(env, c)[k] == Label(FIELDS[k]) + FieldText(env, c, FIELDS[k])
  {
    hide Label, FieldText;
  }

  lemma FieldPlaces()
    ensures FIELDS[10] == Xi && forall k :: 0 <= k < |FIELDS| && FIELDS[k] == Xi ==> k == 10
  {
  }

  /** Validity survives the round trip. */
  lemma ValidRoundTrip(env: ShareEnvelope, d: Doc)
    requires ToDoc(env) == Ok(d) && BasicValidate(env) == Pass
    ensures BasicValidate(DocFields(d)) == Pass
  {
    var isHex := s => IsHexString(s);
    var yi := Ensure0x(env.yiHex).value;
    CanonIdempotent(RawCanon(env));
    DigestIdempotent(env.xiHex);
    EnsureShape(env.yiHex);
    EnsureCanonical(yi[2..]);
    DigestIdempotent(env.sigmaHex);
    DocFieldsOf(env, d);
    ReplacedValid(isHex, env, NormalizeCanon(RawCanon(env)).value, NormalizeDigest(env.xiHex).value, yi,
                  NormalizeDigest(env.sigmaHex).value);
  }

  lemma ReplacedValid(isHex: string -> bool, env: ShareEnvelope, c: Canon, xi: string, yi: string, sigma: string)
    requires ValidateWith(isHex, env) == Pass && CanonWith(isHex, c)
    requires isHex(xi) && isHex(yi) && isHex(sigma) && xi != "" && yi != ""
    ensures ValidateWith(isHex, DocFields(DocOf(env, c, xi, yi, sigma))) == Pass
  {
    ValidFields(isHex, env);
    ValidFields(isHex, DocFields(DocOf(env, c, xi, yi, sigma)));
  }

  /** Every verifying envelope can be written as JSON unless its xi has more than 64 digits. */
  lemma VerifyingHasDoc(h: TextHash, env: ShareEnvelope)
    requires Verifies(h, env)
    ensures Ensure0x(env.xiHex).Ok?
    ensures ToDoc(env).Ok? <==> |Digits(env.xiHex)| <= 64
  {
    VerifyingParts(h, env);
    HexStringEnsured(env.xiHex);
    HexStringEnsured(env.yiHex);
    EnsureShape(env.xiHex);
  }

  lemma VerifyingParts(h: TextHash, env: ShareEnvelope)
    requires Verifies(h, env)
    ensures BasicValidate(env) == Pass && IsHexString(env.xiHex) && IsHexString(env.yiHex)
    ensures env.meta.dealerPkHex != "" && env.sigAlg == SIG_ALG
    ensures NormalizeCanon(RawCanon(env)).Ok? && NormalizeDigest(env.sigmaHex).Ok?
    ensures Sigma(h, env, env.meta.dealerPkHex).Ok?
    ensures Lower(Sigma(h, env, env.meta.dealerPkHex).value) == Lower(NormalizeDigest(env.sigmaHex).value)
  {
    var expected, actual := Sigma(h, env, env.meta.dealerPkHex), NormalizeDigest(env.sigmaHex);
    VerdictPass(BasicValidate(env), env.sigAlg, env.meta.dealerPkHex, expected, actual);
    SigmaParts(h, env, env.meta.dealerPkHex);
    ValidFields(s => IsHexString(s), env);
  }

  lemma VerdictPass(basic: Check, sigAlg: string, dealerPk: string,
                    expected: Outcome<string>, actual: Outcome<string>)
    ensures Verdict(basic, sigAlg, dealerPk, expected, actual) == Ok(Pass) <==>
            && basic == Pass && sigAlg == SIG_ALG && dealerPk != ""
            && expected.Ok? && actual.Ok? && Lower(expected.value) == Lower(actual.value)
  {
  }

  lemma SigmaParts(h: TextHash, env: ShareEnvelope, key: string)
    ensures Sigma(h, env, key).Ok? <==> NormalizeDigest(key).Ok? && NormalizeCanon(RawCanon(env)).Ok?
  {
    assert Sigma(h, env, key).Ok? <==> NormalizeDigest(key).Ok? && Payload(env).Ok?;
  }

  lemma HexStringEnsured(s: string)
    requires IsHexString(s)
    ensures Ensure0x(s).Ok?
  {
    hide Trim, Lower, LowerChar, HexValue, IsSpace;
    var t := Trim(s);
    var v := Lower(t);
    LowerTrimmed(s);
    var pos := if Starts0x(t) then 2 else 0;
    assert t != [];
    if |t| >= 2 { PrefixLower(t[1]); }
    if |t| >= 1 { ZeroLower(t[0]); }
    assert Starts0x(v) == Starts0x(t);
    forall i | pos <= i < |v| ensures HexValue(v[i]) >= 0 {
      LowerKeepsHex(t[i]);
    }
  }

  lemma PrefixLower(c: char)
    ensures (LowerChar(c) == 'x' || LowerChar(c) == 'X') == (c == 'x' || c == 'X')
  {
  }

  lemma ZeroLower(c: char)
    ensures (LowerChar(c) == '0') == (c == '0')
  {
  }

  lemma LowerKeepsHex(c: char)
    requires HexValue(c) >= 0
    ensures HexValue(LowerChar(c)) >= 0
  {
  }

  /** Verification of the round-tripped envelope compares two attestation values. */
  lemma RoundTripVerdict(h: TextHash, env: ShareEnvelope, d: Doc)
    requires Verifies(h, env) && ToDoc(env) == Ok(d)
    ensures FromDoc(d) == Ok(DocFields(d))
    ensures Sigma(h, env, env.meta.dealerPkHex).Ok? && Sigma(h, DocFields(d), env.meta.dealerPkHex).Ok?
    ensures Verifies(h, DocFields(d)) <==>
            Lower(Sigma(h, DocFields(d), env.meta.dealerPkHex).value)
            == Lower(Sigma(h, env, env.meta.dealerPkHex).value)
  {
    var env', key := DocFields(d), env.meta.dealerPkHex;
    var key' := env'.meta.dealerPkHex;
    VerifyingParts(h, env);
    ValidRoundTrip(env, d);
    PayloadRoundTrip(env, d);
    KeysRoundTrip(env, d);
    SigmaOfKey(h, env', key, key');
    SigmaOfPayloadOk(h, env', key);
    VerdictPass(BasicValidate(env'), env'.sigAlg, key', Sigma(h, env', key'), NormalizeDigest(env'.sigmaHex));
  }

  lemma SigmaOfPayloadOk(h: TextHash, env: ShareEnvelope, key: string)
    requires Payload(env).Ok? && NormalizeDigest(key).Ok?
    ensures Sigma(h, env, key).Ok?
  {
  }

  lemma KeysRoundTrip(env: ShareEnvelope, d: Doc)
    requires ToDoc(env) == Ok(d) && env.meta.dealerPkHex != ""
    ensures NormalizeDigest(env.meta.dealerPkHex).Ok?
    ensures NormalizeDigest(DocFields(d).meta.dealerPkHex) == NormalizeDigest(env.meta.dealerPkHex)
    ensures DocFields(d).meta.dealerPkHex != "" && DocFields(d).sigAlg == env.sigAlg
    ensures NormalizeDigest(DocFields(d).sigmaHex) == NormalizeDigest(env.sigmaHex)
  {
    DocFieldsOf(env, d);
    DealerKeyOf(RawCanon(env));
    DigestIdempotent(env.meta.dealerPkHex);
    DigestIdempotent(env.sigmaHex);
  }

  lemma DealerKeyOf(raw: Canon)
    requires NormalizeCanon(raw).Ok? && raw.dealerPk != ""
    ensures NormalizeDigest(raw.dealerPk) == Ok(NormalizeCanon(raw).value.dealerPk)
  {
    CanonFields(s => NormalizeDigest(s), raw);
  }

  /** A verifying envelope with 63 or 64 digits of xi still verifies after the round trip. */
  lemma VerifiedRoundTrip(h: TextHash, env: ShareEnvelope)
    requires Verifies(h, env) && Ensure0x(env.xiHex).Ok? && 63 <= |Digits(env.xiHex)| <= 64
    ensures ToDoc(env).Ok? && FromDoc(ToDoc(env).value).Ok?
    ensures Verifies(h, FromDoc(ToDoc(env).value).value)
  {
    VerifyingHasDoc(h, env);
    var d := ToDoc(env).value;
    RoundTripVerdict(h, env, d);
    PayloadRoundTrip(env, d);
    SigmaOfPayload(h, env, DocFields(d), env.meta.dealerPkHex);
  }

  lemma SigmaOfKey(h: TextHash, env: ShareEnvelope, key: string, key': string)
    requires NormalizeDigest(key) == NormalizeDigest(key')
    ensures Sigma(h, env, key) == Sigma(h, env, key')
  {
  }

  function SigmaText(h: TextHash, env: ShareEnvelope, key: string): Outcome<string>
  {
    var keyHex :- NormalizeDigest(key);
    var digest :- EnvelopeDigest(h, env);
    Ok(Join(["TTSS-SIG", keyHex, digest], "|"))
  }

  /**
   With fewer digits of xi the payload changes, so the round-tripped envelope is
   rejected whenever the hash does not collide on the two payloads and on the two
   attestation texts.
   */
  lemma ShortXiIsRejected(h: TextHash, env: ShareEnvelope, d: Doc)
    requires Verifies(h, env) && ToDoc(env) == Ok(d) && Ensure0x(env.xiHex).Ok? && |Digits(env.xiHex)| < 63
    requires var a, b := SigmaText(h, env, env.meta.dealerPkHex), SigmaText(h, DocFields(d), env.meta.dealerPkHex);
             a.Ok? && b.Ok? ==> h(a.value) != h(b.value)
    ensures Payload(DocFields(d)) != Payload(env)
    ensures !Verifies(h, DocFields(d))
  {
    RoundTripVerdict(h, env, d);
    PayloadRoundTrip(env, d);
    var key := env.meta.dealerPkHex;
    var a, b := SigmaText(h, env, key).value, SigmaText(h, DocFields(d), key).value;
    assert Sigma(h, env, key).value == HexOf(h(a)) && Sigma(h, DocFields(d), key).value == HexOf(h(b));
    ParseOfHex(h(a));
    ParseOfHex(h(b));
    LowerHexOf(h(a));
    LowerHexOf(h(b));
  }

  // ----- what else verifies -----

  /** The normalisation of all digests succeeds with another good identity digest. */
  lemma OtherDigest(norm: string -> Outcome<string>, raw: Canon, idHash: string)
    requires CanonThrough(norm, raw).Ok? && norm(idHash).Ok?
    ensures CanonThrough(norm, raw.(idHash := idHash)).Ok?
  {
  }

  lemma OtherTextValid(isHex: string -> bool, env: ShareEnvelope, idHash: string, xi: string, sigma: string)
    requires ValidateWith(isHex, env) == Pass
    requires isHex(idHash) && idHash != "" && isHex(xi) && xi != "" && isHex(sigma)
    ensures ValidateWith(isHex, env.(idHash := idHash, xiHex := xi, sigmaHex := sigma)) == Pass
  {
    ValidFields(isHex, env);
    ValidFields(isHex, env.(idHash := idHash, xiHex := xi, sigmaHex := sigma));
  }

  /** Whatever valid text stands for the identity digest and for xi, signing with the dealer's key makes it verify. */
  lemma SignedAgain(h: TextHash, env: ShareEnvelope, idHash: string, xi: string)
    requires Verifies(h, env)
    requires IsHexString(idHash) && idHash != "" && NormalizeDigest(idHash).Ok? && IsHexString(xi) && xi != ""
    ensures var draft := env.(idHash := idHash, xiHex := xi);
            var signed := Sign(h, draft, env.meta.dealerPkHex);
            signed.Ok? && signed.value == draft.(sigmaHex := signed.value.sigmaHex) && Verifies(h, signed.value)
  {
    hide NormalizeDigest, IsHexString, Verify;
    var draft, key := env.(idHash := idHash, xiHex := xi), env.meta.dealerPkHex;
    VerifyingParts(h, env);
    OtherDigest(s => NormalizeDigest(s), RawCanon(env), idHash);
    assert RawCanon(draft) == RawCanon(env).(idHash := idHash);
    SigmaParts(h, env, key);
    SigmaParts(h, draft, key);
    SigmaOfPayload(h, draft, draft, key);
    OtherTextValid(s => IsHexString(s), env, idHash, xi, Sigma(h, draft, key).value);
    SignedVerifies(h, draft);
  }

  lemma OneDigit()
    ensures IsHexString("0x1") && Ensure0x("0x1") == Ok("0x1") && NormalizeDigest("0x1").Ok?
    ensures NormalizeDigest("0x1").value != "0x1" && |Digits("0x1")| == 1
  {
    assert "0x" + "1" == "0x1";
    EnsureCanonical("1");
    DigestIdempotent("0x1");
  }

  /** So there are verifying envelopes with a short xi, and the JSON round trip of each is rejected. */
  lemma ShortXiVerifies(h: TextHash, env: ShareEnvelope)
    requires Verifies(h, env)
    ensures var signed := Sign(h, env.(xiHex := "0x1"), env.meta.dealerPkHex);
            signed.Ok? && Verifies(h, signed.value)
            && Ensure0x(signed.value.xiHex).Ok? && |Digits(signed.value.xiHex)| < 63 && ToDoc(signed.value).Ok?
  {
    hide NormalizeDigest, IsHexString, Verify, ToDoc, Sign;
    OneDigit();
    VerifyingParts(h, env);
    ValidFields(s => IsHexString(s), env);
    CanonFields(s => NormalizeDigest(s), RawCanon(env));
    SignedAgain(h, env, env.idHash, "0x1");
    VerifyingHasDoc(h, Sign(h, env.(xiHex := "0x1"), env.meta.dealerPkHex).value);
  }

  lemma LowerHexOf(bytes: seq<Byte>)
    requires bytes != []
    ensures Lower(HexOf(bytes)) == HexOf(bytes)
  {
    DigitsAreBody(bytes);
    var v := HexOf(bytes);
    forall i | 0 <= i < |v| ensures LowerChar(v[i]) == v[i] {
      if i >= 2 {
        LowerHexChar(DigitsOf(bytes)[i - 2]);
      }
    }
    LowerFixed(v);
  }
}
