/**
 What fewer than `t` guardians learn. For every other seed there is a hash, changed
 only where it yields coefficients, under which sharing that seed issues them the
 very same envelopes; and it has one choice of coefficients only.
 */
module Secrecy {
  import opened Outcomes
  import opened NumberTheory
  import opened Polynomials
  import opened Interpolation
  import opened Hex
  import opened ShareField
  import opened Packing
  import opened FieldText
  import opened Envelope
  import opened Attestation
  import opened Sharing
  import opened Recovery
  import opened NitsShamir

  // ----- one sharing, by its polynomials -----

  function Rho(req: Request): string
    requires NormalizeDigest(req.rhoSeed).Ok?
  {
    NormalizeDigest(req.rhoSeed).value
  }

  /** The text whose hash is coefficient `k` of chunk `c`. */
  function CoefficientText(req: Request, c: nat, k: nat): string
    requires NormalizeDigest(req.rhoSeed).Ok? && NormalizeDigest(req.idHash).Ok?
  {
    Join(CoefficientParts(Rho(req), NormalizeDigest(req.idHash).value, req.ver, req.epoch, c, k), "|")
  }

  /** The sixteen polynomials a sharing evaluates. */
  function PolynomialsOf(h: TextHash, req: Request): seq<seq<nat>>
    requires NormalizeDigest(req.rhoSeed).Ok? && NormalizeDigest(req.idHash).Ok? && SplitSeed(req.seed).Ok? && req.t >= 1
  {
    Coefficients(DerivationOf(h, Rho(req), NormalizeDigest(req.idHash).value, req.ver, req.epoch), SplitSeed(req.seed).value, req.t)
  }

  /** The ingredients of a sharing, its polynomials among them. */
  ghost predicate Ingredients(h: TextHash, req: Request, cm: Common, xs: seq<NonZero>)
  {
    && NormalizeDigest(req.rhoSeed).Ok? && NormalizeDigest(req.idHash) == Ok(cm.idHash) && SplitSeed(req.seed).Ok?
    && CommonOf(h, req, Rho(req)) == Ok(cm)
    && 2 <= req.t <= req.n && GuardiansMatch(req)
    && Xs(DerivationOf(h, Rho(req), cm.idHash, req.ver, req.epoch), req, req.n) == Ok(xs)
    && SharedFrom(h, req, cm, SplitSeed(req.seed).value, PolynomialsOf(h, req), xs)
  }

  lemma IngredientsOf(h: TextHash, req: Request) returns (cm: Common, xs: seq<NonZero>)
    requires Share(h, req).Ok?
    ensures Ingredients(h, req, cm, xs)
  {
    hide Xs, Coefficients, CommonOf, SplitSeed, NormalizeDigest, Seal;
    var rho := NormalizeDigest(req.rhoSeed).value;
    var chunks := SplitSeed(req.seed).value;
    cm := CommonOf(h, req, rho).value;
    CommonCanonical(h, req, rho);
    SplitBelow(req.seed);
    var d := DerivationOf(h, rho, cm.idHash, req.ver, req.epoch);
    assert Share(h, req) == ShareChunks(h, req, d, chunks, cm);
    var rows;
    rows, xs := ChunkIngredients(h, req, d, chunks, cm);
  }

  /** The polynomials are the chunks of the seed and the hashed coefficients, nothing else. */
  lemma PolynomialsAre(h: TextHash, req: Request, c: nat, k: nat)
    requires Share(h, req).Ok? && c < 16 && k < req.t
    ensures NormalizeDigest(req.rhoSeed).Ok? && NormalizeDigest(req.idHash).Ok? && SplitSeed(req.seed).Ok?
    ensures |PolynomialsOf(h, req)| == 16 && |PolynomialsOf(h, req)[c]| == req.t
    ensures PolynomialsOf(h, req)[c][k]
         == if k == 0 then SplitSeed(req.seed).value[c] else BytesNumber(h(CoefficientText(req, c, k))) % 65537
  {
    hide Xs, CommonOf, SplitSeed, NormalizeDigest, Seal, Share;
    var cm, xs := IngredientsOf(h, req);
    if k > 0 {
      FieldOfBytes(h(CoefficientText(req, c, k)));
    }
  }

  /** The digests every issued envelope carries, by the request. */
  lemma IssuedDigests(h: TextHash, req: Request, k: nat)
    requires Share(h, req).Ok? && k < req.n
    ensures NormalizeDigest(req.rhoSeed).Ok?
    ensures var env := Share(h, req).value.shareEnvelopes[k];
            && NormalizeDigest(req.idHash) == Ok(env.idHash)
            && NormalizeDigest(if req.dealerPk == "" then req.dealerKey else req.dealerPk) == Ok(env.meta.dealerPkHex)
            && env.meta.rhoCommitHex == HashJoined(h, ["TTSS-RHO-COMMIT", Rho(req)])
            && (if req.guardianSetHash == "" then env.meta.guardianSetHash == HashJoined(h, ["TTSS-GSET", Decimal(req.n), req.id])
                else NormalizeDigest(req.guardianSetHash) == Ok(env.meta.guardianSetHash))
  {
    hide Share, Xs, PolynomialsOf, SplitSeed, NormalizeDigest, HashJoined, Decimal, Sign, Values;
    var cm, xs := IngredientsOf(h, req);
    var rows, vkSetHash := PolynomialsOf(h, req), Share(h, req).value.vkSetHash;
    IssuedEnvelope(h, req, cm, SplitSeed(req.seed).value, rows, xs, k);
    SignedSigma(h, Unsigned(h, req, cm, rows, xs[k], vkSetHash, k), cm.dealerPk);
  }

  // ----- the same points and keys, other polynomials -----

  lemma {:induction false} FirstFreeSame(d: Derivation, d': Derivation, index: nat, id: string, used: set<nat>, ctr: nat)
    requires forall i, g, k :: d.candidate(i, g, k) == d'.candidate(i, g, k)
    ensures FirstFree(d, index, id, used, ctr) == FirstFree(d', index, id, used, ctr)
    decreases 4096 - ctr
  {
    if ctr < 4096 {
      FirstFreeSame(d, d', index, id, used, ctr + 1);
    }
  }

  /** The x-coordinates depend on the candidates and the guardians only. */
  lemma {:induction false} XsSame(d: Derivation, d': Derivation, req: Request, req': Request, i: nat)
    requires forall j, g, k :: d.candidate(j, g, k) == d'.candidate(j, g, k)
    requires GuardiansMatch(req) && i <= req.n && req' == req.(seed := req'.seed)
    ensures Xs(d, req, i) == Xs(d', req', i)
  {
    hide FirstFree;
    if i > 0 {
      XsSame(d, d', req, req', i - 1);
      assert Sharing.GuardianId(req, i - 1) == Sharing.GuardianId(req', i - 1);
      if Xs(d, req, i - 1).Ok? {
        FirstFreeSame(d, d', i, Sharing.GuardianId(req, i - 1), UsedX(Xs(d, req, i - 1).value), 0);
      }
    }
  }

  /** Two drafts with the same values at `x` are one. */
  lemma SameValuesSameEnvelope(h: TextHash, req: Request, cm: Common, p: seq<seq<nat>>, q: seq<seq<nat>>, x: NonZero,
                               vkSetHash: string, k: nat)
    requires GuardiansMatch(req) && k < req.n && Rows(p) && Rows(q) && Values(p, x) == Values(q, x)
    ensures Signed(h, req, cm, p, x, vkSetHash, k) == Signed(h, req, cm, q, x, vkSetHash, k)
  {
    hide Values, Sign;
  }

  /** Sealing at the same points depends on the polynomials through their values there only, and never fails because of them. */
  lemma SealOther(h: TextHash, req: Request, cm: Common, p: seq<seq<nat>>, q: seq<seq<nat>>, xs: seq<NonZero>)
    requires GuardiansMatch(req) && |xs| == req.n && Rows(p) && Rows(q) && CanonicalCommon(cm)
    requires Seal(h, req, cm, p, xs).Ok?
    ensures var a, b := Seal(h, req, cm, p, xs).value, Seal(h, req, cm, q, xs);
            && b.Ok? && b.value == a.(shareEnvelopes := b.value.shareEnvelopes)
            && forall k :: 0 <= k < req.n && Values(p, xs[k]) == Values(q, xs[k]) ==> b.value.shareEnvelopes[k] == a.shareEnvelopes[k]
  {
    hide Values, Signed, CanonicalCommon, CanonicalDigest, VkSetHash, Keys;
    var a := Seal(h, req, cm, p, xs).value;
    var vk := VkSetHash(h, Keys(h, req, xs)).value;
    if req.n > 0 {
      SealedEnvelope(h, req, cm, p, xs, 0);
      var f: nat --> Outcome<ShareEnvelope> := i requires 0 <= i < req.n => Signed(h, req, cm, q, xs[i], vk, i);
      forall i | 0 <= i < req.n ensures f(i).Ok? {
        SignedOk(h, req, cm, q, xs[i], vk, i);
      }
      assert forall i :: 0 <= i < req.n ==> f.requires(i);
      SequenceOk(f, req.n);
    }
    var b := Seal(h, req, cm, q, xs);
    forall k | 0 <= k < req.n && Values(p, xs[k]) == Values(q, xs[k]) ensures b.value.shareEnvelopes[k] == a.shareEnvelopes[k] {
      SealedEnvelope(h, req, cm, p, xs, k);
      SealedEnvelope(h, req, cm, q, xs, k);
      SameValuesSameEnvelope(h, req, cm, p, q, xs[k], vk, k);
    }
  }

  // ----- hashes that differ in coefficients only -----

  const COEFF := "TTSS-COEFF"

  predicate StartsCoeff(text: string)
  {
    |text| >= 10 && text[..10] == COEFF
  }

  /** The two hashes agree on every text that does not begin like a coefficient text. */
  ghost predicate AgreeElsewhere(h: TextHash, h': TextHash)
  {
    forall text :: !StartsCoeff(text) ==> h(text) == h'(text)
  }

  lemma JoinHead(parts: seq<string>)
    requires parts != []
    ensures parts[0] <= Join(parts, "|")
  {
  }

  /** A joined text begins like its first part, unless that is too short to tell. */
  lemma OtherText(parts: seq<string>, k: nat)
    requires parts != [] && k < |parts[0]| && k < 10 && parts[0][k] != COEFF[k]
    ensures !StartsCoeff(Join(parts, "|"))
  {
    hide Join;
    JoinHead(parts);
    var text := Join(parts, "|");
    assert text[k] == parts[0][k];
    assert |text| >= 10 ==> text[..10][k] == text[k];
  }

  lemma SameHashJoined(h: TextHash, h': TextHash, parts: seq<string>, k: nat)
    requires AgreeElsewhere(h, h') && parts != [] && k < |parts[0]| && k < 10 && parts[0][k] != COEFF[k]
    ensures HashJoined(h, parts) == HashJoined(h', parts)
  {
    hide Join, StartsCoeff;
    OtherText(parts, k);
  }

  lemma SameUi(h: TextHash, h': TextHash, x: NonZero)
    requires AgreeElsewhere(h, h')
    ensures UiOf(h, x) == UiOf(h', x)
  {
    hide AgreeElsewhere, HashJoined, FieldToHex;
    SameHashJoined(h, h', ["NITS-UI", FieldToHex(x)], 0);
  }

  lemma SameTag(h: TextHash, h': TextHash, req: Request, req': Request, idHash: string, index: nat, ui: string)
    requires AgreeElsewhere(h, h') && req' == req.(seed := req'.seed)
    ensures TagOf(h, req, idHash, index, ui) == TagOf(h', req', idHash, index, ui)
  {
    hide AgreeElsewhere, HashJoined, Decimal;
    SameHashJoined(h, h', ["TTSS-TAG", idHash, Decimal(req.ver), Decimal(req.epoch), Decimal(index), ui], 5);
  }

  lemma SameCommon(h: TextHash, h': TextHash, req: Request, req': Request, rho: string)
    requires AgreeElsewhere(h, h') && req' == req.(seed := req'.seed)
    ensures CommonOf(h, req, rho) == CommonOf(h', req', rho)
  {
    hide AgreeElsewhere, HashJoined, Decimal, NormalizeDigest;
    SameHashJoined(h, h', ["TTSS-GSET", Decimal(req.n), req.id], 5);
    SameHashJoined(h, h', ["TTSS-RHO-COMMIT", rho], 5);
  }

  lemma SameCandidate(h: TextHash, h': TextHash, rho: string, idHash: string, ver: U64, epoch: U64, index: nat, id: string, ctr: nat)
    requires AgreeElsewhere(h, h')
    ensures DerivationOf(h, rho, idHash, ver, epoch).candidate(index, id, ctr)
         == DerivationOf(h', rho, idHash, ver, epoch).candidate(index, id, ctr)
  {
    hide AgreeElsewhere, Decimal, Join;
    SameHashJoined(h, h', CandidateParts(rho, idHash, ver, epoch, index, id, ctr), 5);
  }

  // the set hash: every entry begins with a digit

  predicate AllNumbered(parts: seq<string>)
  {
    forall i :: 0 <= i < |parts| ==> parts[i] != "" && '0' <= parts[i][0] <= '9'
  }

  lemma {:induction false} EntriesNumbered(entries: seq<KeyEntry>)
    requires CanonEntries(entries).Ok?
    ensures |CanonEntries(entries).value| == |entries| && AllNumbered(CanonEntries(entries).value)
  {
    hide Decimal, NormalizeDigest;
    if entries != [] {
      EntriesNumbered(entries[1..]);
    }
  }

  lemma {:induction false} InsertNumbered(s: string, sorted: seq<string>)
    requires AllNumbered([s]) && AllNumbered(sorted)
    ensures |InsertSorted(s, sorted)| == |sorted| + 1 && AllNumbered(InsertSorted(s, sorted))
  {
    hide StringLeq;
    assert [s][0] == s;
    if sorted != [] && !StringLeq(s, sorted[0]) {
      InsertNumbered(s, sorted[1..]);
    }
  }

  lemma {:induction false} SortNumbered(parts: seq<string>)
    requires AllNumbered(parts)
    ensures |SortStrings(parts)| == |parts| && AllNumbered(SortStrings(parts))
  {
    if parts != [] {
      SortNumbered(parts[1..]);
      InsertNumbered(parts[0], SortStrings(parts[1..]));
    }
  }

  lemma SameVkSet(h: TextHash, h': TextHash, entries: seq<KeyEntry>)
    requires AgreeElsewhere(h, h') && entries != []
    ensures VkSetHash(h, entries) == VkSetHash(h', entries)
  {
    hide AgreeElsewhere, HashJoined, CanonEntries, SortStrings;
    if CanonEntries(entries).Ok? {
      EntriesNumbered(entries);
      SortNumbered(CanonEntries(entries).value);
      SameHashJoined(h, h', SortStrings(CanonEntries(entries).value), 0);
    }
  }

  lemma PayloadStarts(env: ShareEnvelope)
    requires Payload(env).Ok?
    ensures !StartsCoeff(Payload(env).value)
  {
    hide Join, NormalizeCanon, PayloadParts, Envelope.FieldText;
    var c := NormalizeCanon(RawCanon(env)).value;
    PartAt(env, c, 0);
    OtherText(PayloadParts(env, c), 0);
  }

  lemma SameSigned(h: TextHash, h': TextHash, env: ShareEnvelope, key: string)
    requires AgreeElsewhere(h, h')
    ensures Sign(h, env, key) == Sign(h', env, key)
  {
    hide StartsCoeff, Payload, NormalizeDigest, Join;
    var signing := env.(sigAlg := if env.sigAlg == "" then SIG_ALG else env.sigAlg);
    if NormalizeDigest(key).Ok? && Payload(signing).Ok? {
      PayloadStarts(signing);
      SameHashJoined(h, h', ["TTSS-SIG", NormalizeDigest(key).value, EnvelopeDigest(h, signing).value], 5);
    }
  }

  lemma SameDraft(h: TextHash, h': TextHash, req: Request, req': Request, cm: Common, rows: seq<seq<nat>>, x: NonZero, i: nat)
    requires AgreeElsewhere(h, h') && req' == req.(seed := req'.seed) && GuardiansMatch(req) && i < req.n && Rows(rows)
    ensures Draft(h, req, cm, rows, x, i) == Draft(h', req', cm, rows, x, i)
    ensures KeyAt(h, req, x, i) == KeyAt(h', req', x, i)
  {
    hide AgreeElsewhere, UiOf, TagOf, Values;
    SameUi(h, h', x);
    SameTag(h, h', req, req', cm.idHash, i + 1, UiOf(h, x));
    assert Sharing.GuardianId(req, i) == Sharing.GuardianId(req', i);
  }

  /** Sealing under two such hashes gives one result. */
  lemma SealSame(h: TextHash, h': TextHash, req: Request, req': Request, cm: Common, rows: seq<seq<nat>>, xs: seq<NonZero>)
    requires AgreeElsewhere(h, h') && req' == req.(seed := req'.seed) && GuardiansMatch(req) && 2 <= req.n && |xs| == req.n && Rows(rows)
    ensures Seal(h, req, cm, rows, xs) == Seal(h', req', cm, rows, xs)
  {
    hide AgreeElsewhere, Draft, KeyAt, Sign, Values;
    forall i | 0 <= i < req.n ensures KeyAt(h, req, xs[i], i) == KeyAt(h', req', xs[i], i) {
      SameDraft(h, h', req, req', cm, rows, xs[i], i);
    }
    assert Keys(h, req, xs) == Keys(h', req', xs);
    var keys := Keys(h, req, xs);
    SameVkSet(h, h', keys);
    if VkSetHash(h, keys).Ok? {
      var vk := VkSetHash(h, keys).value;
      forall i | 0 <= i < req.n ensures Signed(h, req, cm, rows, xs[i], vk, i) == Signed(h', req', cm, rows, xs[i], vk, i) {
        SameDraft(h, h', req, req', cm, rows, xs[i], i);
        SameSigned(h, h', Unsigned(h, req, cm, rows, xs[i], vk, i), cm.dealerPk);
      }
      SequenceSame(i requires 0 <= i < req.n => Signed(h, req, cm, rows, xs[i], vk, i),
                   i requires 0 <= i < req.n => Signed(h', req', cm, rows, xs[i], vk, i), req.n);
    }
  }

  // ----- choosing the coefficients -----

  /** The coefficient texts of a sharing are pairwise different. */
  lemma CoefficientTextsDiffer(req: Request, c: nat, k: nat, c': nat, k': nat)
    requires NormalizeDigest(req.rhoSeed).Ok? && NormalizeDigest(req.idHash).Ok?
    requires CoefficientText(req, c, k) == CoefficientText(req, c', k')
    ensures c == c' && k == k'
  {
    hide Decimal, Join, NormalizeDigest, NoBar;
    var rho, idHash := Rho(req), NormalizeDigest(req.idHash).value;
    var a, b := CoefficientParts(rho, idHash, req.ver, req.epoch, c, k), CoefficientParts(rho, idHash, req.ver, req.epoch, c', k');
    DecimalHasNoBar(c);
    DecimalHasNoBar(c');
    DecimalHasNoBar(k);
    DecimalHasNoBar(k');
    assert forall i :: 0 <= i < 7 ==> Comparable(a[i], b[i]);
    JoinInjective(a, b);
    assert a[5] == b[5] && a[6] == b[6];
    DecimalInjective(c, c');
    DecimalInjective(k, k');
  }

  ghost predicate IsCoefficientText(req: Request, text: string)
    requires NormalizeDigest(req.rhoSeed).Ok? && NormalizeDigest(req.idHash).Ok?
  {
    exists c: nat, k: nat :: c < 16 && 1 <= k < req.t && text == CoefficientText(req, c, k)
  }

  /** The hash that yields the coefficients of `p`, and is `h` elsewhere. */
  ghost function HashAt(h: TextHash, req: Request, p: seq<seq<Felt>>, text: string): Digest32
    requires NormalizeDigest(req.rhoSeed).Ok? && NormalizeDigest(req.idHash).Ok?
    requires |p| == 16 && forall c :: 0 <= c < 16 ==> |p[c]| == req.t
  {
    if IsCoefficientText(req, text) then
      var c: nat, k: nat :| c < 16 && 1 <= k < req.t && text == CoefficientText(req, c, k);
      FieldBytes(p[c][k])
    else h(text)
  }

  ghost function Chosen(h: TextHash, req: Request, p: seq<seq<Felt>>): TextHash
    requires NormalizeDigest(req.rhoSeed).Ok? && NormalizeDigest(req.idHash).Ok?
    requires |p| == 16 && forall c :: 0 <= c < 16 ==> |p[c]| == req.t
  {
    text => HashAt(h, req, p, text)
  }

  lemma ChosenAt(h: TextHash, req: Request, p: seq<seq<Felt>>, c: nat, k: nat)
    requires NormalizeDigest(req.rhoSeed).Ok? && NormalizeDigest(req.idHash).Ok?
    requires |p| == 16 && forall c :: 0 <= c < 16 ==> |p[c]| == req.t
    requires c < 16 && 1 <= k < req.t
    ensures Chosen(h, req, p)(CoefficientText(req, c, k)) == FieldBytes(p[c][k])
  {
    hide CoefficientText, NormalizeDigest, FieldBytes;
    var text := CoefficientText(req, c, k);
    assert IsCoefficientText(req, text);
    var c': nat, k': nat :| c' < 16 && 1 <= k' < req.t && text == CoefficientText(req, c', k') && HashAt(h, req, p, text) == FieldBytes(p[c'][k']);
    CoefficientTextsDiffer(req, c, k, c', k');
  }

  lemma ChosenElsewhere(h: TextHash, req: Request, p: seq<seq<Felt>>)
    requires NormalizeDigest(req.rhoSeed).Ok? && NormalizeDigest(req.idHash).Ok?
    requires |p| == 16 && forall c :: 0 <= c < 16 ==> |p[c]| == req.t
    ensures AgreeElsewhere(h, Chosen(h, req, p))
    ensures forall text :: !IsCoefficientText(req, text) ==> Chosen(h, req, p)(text) == h(text)
  {
    hide CoefficientText, NormalizeDigest, FieldBytes;
    forall text | !StartsCoeff(text) ensures !IsCoefficientText(req, text) {
      forall c: nat, k: nat ensures text != CoefficientText(req, c, k) {
        CoefficientTextStarts(req, c, k);
      }
    }
  }

  lemma CoefficientTextStarts(req: Request, c: nat, k: nat)
    requires NormalizeDigest(req.rhoSeed).Ok? && NormalizeDigest(req.idHash).Ok?
    ensures StartsCoeff(CoefficientText(req, c, k))
  {
    hide Join, Decimal, NormalizeDigest;
    JoinHead(CoefficientParts(Rho(req), NormalizeDigest(req.idHash).value, req.ver, req.epoch, c, k));
  }

  /** Under a hash that yields the coefficients of `p`, sharing evaluates exactly the polynomials `p`. */
  lemma PolynomialsOfChosen(h: TextHash, req: Request, p: seq<seq<Felt>>)
    requires NormalizeDigest(req.rhoSeed).Ok? && NormalizeDigest(req.idHash).Ok? && SplitSeed(req.seed).Ok? && req.t >= 1
    requires |p| == 16 && forall c :: 0 <= c < 16 ==> |p[c]| == req.t && p[c][0] == SplitSeed(req.seed).value[c]
    requires forall c: nat, k: nat :: c < 16 && 1 <= k < req.t ==> h(CoefficientText(req, c, k)) == FieldBytes(p[c][k])
    ensures PolynomialsOf(h, req) == p
  {
    hide SplitSeed, NormalizeDigest, FieldBytes, CoefficientText;
    var q := PolynomialsOf(h, req);
    forall c, k | 0 <= c < 16 && 0 <= k < req.t ensures q[c][k] == p[c][k] {
      if k > 0 {
        CoefficientIs(h, req, c, k);
        FieldBytesNumber(p[c][k]);
        SmallResidue(BytesNumber(FieldBytes(p[c][k])), p[c][k]);
      }
    }
    forall c | 0 <= c < 16 ensures q[c] == p[c] {
    }
  }

  lemma CoefficientIs(h: TextHash, req: Request, c: nat, k: nat)
    requires NormalizeDigest(req.rhoSeed).Ok? && NormalizeDigest(req.idHash).Ok?
    ensures DerivationOf(h, Rho(req), NormalizeDigest(req.idHash).value, req.ver, req.epoch).coeff(c, k)
         == BytesNumber(h(CoefficientText(req, c, k))) % 65537
  {
    hide NormalizeDigest, Join, CoefficientParts;
    FieldOfBytes(h(CoefficientText(req, c, k)));
  }

  /** Sharing another seed under the chosen hash seals the chosen polynomials, for the same guardians at the same points. */
  lemma ShareChosen(h: TextHash, req: Request, cm: Common, xs: seq<NonZero>, seed: string, p: seq<seq<Felt>>)
    requires Ingredients(h, req, cm, xs) && SplitSeed(seed).Ok?
    requires |p| == 16 && forall c :: 0 <= c < 16 ==> |p[c]| == req.t && p[c][0] == SplitSeed(seed).value[c]
    ensures Share(Chosen(h, req, p), req.(seed := seed)) == Seal(h, req, cm, p, xs)
  {
    hide SplitSeed, NormalizeDigest, Chosen, Seal, CommonOf, Xs, SharedFrom, Coefficients;
    var h', req' := Chosen(h, req, p), req.(seed := seed);
    var rho := Rho(req);
    SplitBelow(seed);
    ChosenElsewhere(h, req, p);
    forall c: nat, k: nat | c < 16 && 1 <= k < req.t ensures h'(CoefficientText(req', c, k)) == FieldBytes(p[c][k]) {
      ChosenAt(h, req, p, c, k);
      assert CoefficientText(req', c, k) == CoefficientText(req, c, k);
    }
    PolynomialsOfChosen(h', req', p);
    SameCommon(h, h', req, req', rho);
    var d, d' := DerivationOf(h, rho, cm.idHash, req.ver, req.epoch), DerivationOf(h', rho, cm.idHash, req.ver, req.epoch);
    SameXs(h, h', req, req', rho, cm.idHash);
    SealSame(h, h', req, req', cm, p, xs);
    assert Share(h', req') == ShareChunks(h', req', d', SplitSeed(seed).value, cm);
  }

  lemma SameXs(h: TextHash, h': TextHash, req: Request, req': Request, rho: string, idHash: string)
    requires AgreeElsewhere(h, h') && GuardiansMatch(req) && req' == req.(seed := req'.seed)
    ensures Xs(DerivationOf(h, rho, idHash, req.ver, req.epoch), req, req.n)
         == Xs(DerivationOf(h', rho, idHash, req.ver, req.epoch), req', req.n)
  {
    hide AgreeElsewhere, Xs, DerivationOf;
    var d, d' := DerivationOf(h, rho, idHash, req.ver, req.epoch), DerivationOf(h', rho, idHash, req.ver, req.epoch);
    forall j, g, k ensures d.candidate(j, g, k) == d'.candidate(j, g, k) {
      SameCandidate(h, h', rho, idHash, req.ver, req.epoch, j, g, k);
    }
    XsSame(d, d', req, req', req.n);
  }

  // ----- the main theorem -----

  lemma ShareReads(h: TextHash, env: ShareEnvelope, header: Header, rows: seq<seq<nat>>, x: NonZero)
    requires Rows(rows) && IsShareAt(RealReader(h), env, header, rows, x)
    ensures FieldOfHex(env.xiHex) == Ok(x) && UnpackHex(env.yiHex) == Ok(Values(rows, x))
  {
    hide FieldOfHex, UnpackHex, Values;
  }

  /** The picked envelopes read as the sharing's points and values. */
  lemma PickedReads(h: TextHash, req: Request, cm: Common, xs: seq<NonZero>, k: nat)
    requires Ingredients(h, req, cm, xs) && Share(h, req).Ok? && k < req.n
    ensures Rows(PolynomialsOf(h, req))
    ensures var env := Share(h, req).value.shareEnvelopes[k];
            FieldOfHex(env.xiHex) == Ok(xs[k]) && UnpackHex(env.yiHex) == Ok(Values(PolynomialsOf(h, req), xs[k]))
  {
    hide Share, SharedFrom, CommonOf, Xs, FieldOfHex, UnpackHex, Values, PolynomialsOf, SplitSeed, NormalizeDigest, IsShareAt;
    IngredientsAre(h, req, cm, xs);
    IssuedIsShare(h, req, cm, SplitSeed(req.seed).value, PolynomialsOf(h, req), xs, k);
    ShareReads(h, Share(h, req).value.shareEnvelopes[k], Header(SCHEME, cm.idHash, req.ver, req.epoch, req.n, req.t, SECRET_TYPE),
               PolynomialsOf(h, req), xs[k]);
  }

  /** Polynomials that explain the picked envelopes have the sharing's values at their points. */
  lemma ExplainedValues(h: TextHash, req: Request, cm: Common, xs: seq<NonZero>, picks: seq<nat>, p: seq<seq<Felt>>, chunks: seq<nat>, i: nat)
    requires Ingredients(h, req, cm, xs) && Share(h, req).Ok? && |chunks| == 16
    requires forall i :: 0 <= i < |picks| ==> picks[i] < req.n
    requires ExplainsShares(p, chunks, req.t, Pick(Share(h, req).value.shareEnvelopes, picks)) && i < |picks|
    ensures Rows(p) && Rows(PolynomialsOf(h, req)) && Values(p, xs[picks[i]]) == Values(PolynomialsOf(h, req), xs[picks[i]])
  {
    hide Share, FieldOfHex, UnpackHex, Values, PolynomialsOf, Ingredients;
    IngredientsAre(h, req, cm, xs);
    PickedReads(h, req, cm, xs, picks[i]);
    assert Pick(Share(h, req).value.shareEnvelopes, picks)[i] == Share(h, req).value.shareEnvelopes[picks[i]];
  }

  /**
   Fewer than `t` guardians learn nothing of the seed. To any `t - 1` envelopes of a
   sharing and any other 32-byte seed there is a hash that differs from `h` on texts of
   coefficients alone, under which sharing the other seed succeeds, publishes the same
   keys, set hash and commitment, and issues these guardians the very same envelopes.
   */
  lemma TooFewSharesHideTheSeed(h: TextHash, req: Request, picks: seq<nat>, seed: string) returns (h': TextHash)
    requires Share(h, req).Ok? && |picks| == req.t - 1 && DistinctNats(picks)
    requires forall i :: 0 <= i < |picks| ==> picks[i] < req.n
    requires SplitSeed(seed).Ok?
    ensures NormalizeDigest(req.rhoSeed).Ok? && NormalizeDigest(req.idHash).Ok?
    ensures forall text :: !IsCoefficientText(req, text) ==> h'(text) == h(text)
    ensures var a, b := Share(h, req).value, Share(h', req.(seed := seed));
            && b.Ok? && b.value == a.(shareEnvelopes := b.value.shareEnvelopes)
            && forall i :: 0 <= i < |picks| ==> b.value.shareEnvelopes[picks[i]] == a.shareEnvelopes[picks[i]]
  {
    hide Share, CommonOf, Xs, FieldOfHex, UnpackHex, Values, PolynomialsOf, SplitSeed, NormalizeDigest, Seal, ExplainsShares, IsCoefficientText, Chosen, Ingredients;
    var cm, xs := IngredientsOf(h, req);
    IngredientsAre(h, req, cm, xs);
    var chunks := SplitSeed(seed).value;
    var p := TooFewSharesFitAnySeed(h, req, picks, seed);
    SplitBelow(seed);
    ExplainingRows(p, chunks, req.t, Pick(Share(h, req).value.shareEnvelopes, picks));
    h' := Chosen(h, req, p);
    ChosenElsewhere(h, req, p);
    ShareChosen(h, req, cm, xs, seed, p);
    SealOther(h, req, cm, PolynomialsOf(h, req), p, xs);
    forall i | 0 <= i < |picks| ensures Values(PolynomialsOf(h, req), xs[picks[i]]) == Values(p, xs[picks[i]]) {
      ExplainedValues(h, req, cm, xs, picks, p, chunks, i);
    }
  }

  lemma IngredientsAre(h: TextHash, req: Request, cm: Common, xs: seq<NonZero>)
    requires Ingredients(h, req, cm, xs)
    ensures NormalizeDigest(req.rhoSeed).Ok? && NormalizeDigest(req.idHash).Ok? && SplitSeed(req.seed).Ok?
    ensures 2 <= req.t <= req.n && GuardiansMatch(req) && |xs| == req.n && CanonicalCommon(cm)
    ensures Rows(PolynomialsOf(h, req)) && Share(h, req) == Seal(h, req, cm, PolynomialsOf(h, req), xs)
  {
    hide Share, CommonOf, Xs, PolynomialsOf, SplitSeed, NormalizeDigest, Seal;
  }

  lemma ExplainingRows(p: seq<seq<Felt>>, chunks: seq<nat>, t: nat, shares: seq<ShareEnvelope>)
    requires |chunks| == 16 && ExplainsShares(p, chunks, t, shares)
    ensures |p| == 16 && forall c :: 0 <= c < 16 ==> |p[c]| == t && p[c][0] == chunks[c]
    ensures t >= 1
  {
  }

  lemma InFelts(h: TextHash, req: Request) returns (p: seq<seq<Felt>>)
    requires NormalizeDigest(req.rhoSeed).Ok? && NormalizeDigest(req.idHash).Ok? && SplitSeed(req.seed).Ok? && req.t >= 1
    ensures p == PolynomialsOf(h, req) && |SplitSeed(req.seed).value| == 16
    ensures |p| == 16 && forall c :: 0 <= c < 16 ==> |p[c]| == req.t && p[c][0] == SplitSeed(req.seed).value[c]
  {
    hide SplitSeed, NormalizeDigest, DerivationOf;
    SplitBelow(req.seed);
    var rows := PolynomialsOf(h, req);
    forall c, k | 0 <= c < 16 && 0 <= k < req.t ensures rows[c][k] < 65537 {
      if k == 0 {
        assert rows[c][0] == SplitSeed(req.seed).value[c];
      }
    }
    p := seq(16, c requires 0 <= c < 16 => var row: seq<Felt> := rows[c]; row);
  }

  lemma ExplainedBy(p: seq<seq<Felt>>, chunks: seq<nat>, t: nat, shares: seq<ShareEnvelope>, us: seq<NonZero>)
    requires |chunks| == 16 && |p| == 16 && t >= 1 && forall c :: 0 <= c < 16 ==> |p[c]| == t && p[c][0] == chunks[c]
    requires |us| == |shares|
    requires forall i :: 0 <= i < |us| ==> FieldOfHex(shares[i].xiHex) == Ok(us[i]) && UnpackHex(shares[i].yiHex) == Ok(Values(p, us[i]))
    ensures ExplainsShares(p, chunks, t, shares)
  {
    hide FieldOfHex, UnpackHex, Values;
  }

  /** A sharing explains its own envelopes. */
  lemma OwnPolynomials(h: TextHash, req: Request, cm: Common, xs: seq<NonZero>, picks: seq<nat>) returns (p: seq<seq<Felt>>)
    requires Ingredients(h, req, cm, xs) && Share(h, req).Ok?
    requires forall i :: 0 <= i < |picks| ==> picks[i] < req.n
    ensures |SplitSeed(req.seed).value| == 16 && p == PolynomialsOf(h, req)
    ensures ExplainsShares(p, SplitSeed(req.seed).value, req.t, Pick(Share(h, req).value.shareEnvelopes, picks))
  {
    hide Share, FieldOfHex, UnpackHex, Values, PolynomialsOf, SplitSeed, NormalizeDigest, Ingredients, ExplainsShares;
    IngredientsAre(h, req, cm, xs);
    p := InFelts(h, req);
    var shares := Pick(Share(h, req).value.shareEnvelopes, picks);
    var us: seq<NonZero> := seq(|picks|, i requires 0 <= i < |picks| => xs[picks[i]]);
    forall i | 0 <= i < |picks|
      ensures FieldOfHex(shares[i].xiHex) == Ok(us[i]) && UnpackHex(shares[i].yiHex) == Ok(Values(p, us[i]))
    {
      PickedReads(h, req, cm, xs, picks[i]);
    }
    ExplainedBy(p, SplitSeed(req.seed).value, req.t, shares, us);
  }

  /**
   ... and that hash has no choice: whenever two hashes make sharing one request issue
   the same `t - 1` envelopes, they give it the same coefficients. So each seed is
   left with exactly one choice of them.
   */
  lemma OneChoicePerSeed(h: TextHash, h': TextHash, req: Request, picks: seq<nat>)
    requires Share(h, req).Ok? && Share(h', req).Ok? && |picks| == req.t - 1 && DistinctNats(picks)
    requires forall i :: 0 <= i < |picks| ==> picks[i] < req.n
    requires forall i :: 0 <= i < |picks| ==> Share(h', req).value.shareEnvelopes[picks[i]] == Share(h, req).value.shareEnvelopes[picks[i]]
    ensures NormalizeDigest(req.rhoSeed).Ok? && NormalizeDigest(req.idHash).Ok? && SplitSeed(req.seed).Ok?
    ensures PolynomialsOf(h, req) == PolynomialsOf(h', req)
  {
    hide Share, PolynomialsOf, SplitSeed, NormalizeDigest, ExplainsShares, Ingredients;
    var cm, xs := IngredientsOf(h, req);
    var cm', xs' := IngredientsOf(h', req);
    IngredientsAre(h, req, cm, xs);
    var own := OwnPolynomials(h, req, cm, xs, picks);
    var own' := OwnPolynomials(h', req, cm', xs', picks);
    var p := TooFewSharesFitAnySeed(h, req, picks, req.seed);
    assert Pick(Share(h', req).value.shareEnvelopes, picks) == Pick(Share(h, req).value.shareEnvelopes, picks);
  }
}
