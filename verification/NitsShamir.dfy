/** The sharing and recovery routines, and what they promise together. */
module NitsShamir {
  import opened Outcomes
  import opened NumberTheory
  import opened ShareField
  import opened Polynomials
  import opened Interpolation
  import opened Hex
  import opened Packing
  import opened FieldText
  import opened Envelope
  import opened Sharing
  import opened Recovery

  /** The operations recovery uses on real envelopes. */
  function RealReader(h: TextHash): Reader
  {
    Reader(env => Verify(h, env), s => FieldOfHex(s), s => UnpackHex(s))
  }

  lemma RealReaderReadsFull(h: TextHash)
    ensures ReadsFull(RealReader(h))
  {
    forall s | UnpackHex(s).Ok? ensures |UnpackHex(s).value| == 16 {
    }
  }

  method RecNitsShamir(h: TextHash, shares: seq<ShareEnvelope>) returns (r: Outcome<RecResult>)
    ensures ReadsFull(RealReader(h)) && r == Recover(RealReader(h), shares)
  {
    RealReaderReadsFull(h);
    r := RecoverLoop(RealReader(h), shares);
  }

  // ----- what sharing issues -----

  /** The ingredients of a successful sharing. */
  ghost predicate SharedFrom(h: TextHash, req: Request, cm: Common, chunks: seq<nat>, rows: seq<seq<nat>>, xs: seq<NonZero>)
  {
    && 2 <= req.t <= req.n && GuardiansMatch(req)
    && SplitSeed(req.seed) == Ok(chunks)
    && ThresholdRows(rows, req.t) && Constants(rows) == chunks
    && |xs| == req.n && DistinctNats(xs)
    && CanonicalCommon(cm) && NormalizeDigest(req.idHash) == Ok(cm.idHash)
    && Share(h, req) == Seal(h, req, cm, rows, xs)
  }

  predicate CanonicalDigest(s: string)
  {
    NormalizeDigest(s) == Ok(s) && IsHexString(s) && s != ""
  }

  predicate CanonicalCommon(cm: Common)
  {
    CanonicalDigest(cm.idHash) && CanonicalDigest(cm.guardianSet) && CanonicalDigest(cm.dealerPk) && CanonicalDigest(cm.rhoCommit)
  }

  lemma NormalizedIsCanonical(s: string)
    requires NormalizeDigest(s).Ok?
    ensures CanonicalDigest(NormalizeDigest(s).value)
  {
    DigestIdempotent(s);
  }

  lemma CommonCanonical(h: TextHash, req: Request, rho: string)
    requires CommonOf(h, req, rho).Ok?
    ensures CanonicalCommon(CommonOf(h, req, rho).value)
    ensures NormalizeDigest(req.idHash) == Ok(CommonOf(h, req, rho).value.idHash)
  {
    var cm := CommonOf(h, req, rho).value;
    NormalizedIsCanonical(req.idHash);
    NormalizedIsCanonical(if req.dealerPk == "" then req.dealerKey else req.dealerPk);
    if req.guardianSetHash == "" {
      HashJoinedCanonical(h, ["TTSS-GSET", Decimal(req.n), req.id]);
    } else {
      NormalizedIsCanonical(req.guardianSetHash);
    }
    HashJoinedCanonical(h, ["TTSS-RHO-COMMIT", rho]);
  }

  lemma ShareIngredients(h: TextHash, req: Request)
    returns (cm: Common, chunks: seq<nat>, rows: seq<seq<nat>>, xs: seq<NonZero>)
    requires Share(h, req).Ok?
    ensures SharedFrom(h, req, cm, chunks, rows, xs)
  {
    var rho := NormalizeDigest(req.rhoSeed).value;
    chunks := SplitSeed(req.seed).value;
    cm := CommonOf(h, req, rho).value;
    CommonCanonical(h, req, rho);
    SplitBelow(req.seed);
    var d := DerivationOf(h, rho, cm.idHash, req.ver, req.epoch);
    assert Share(h, req) == ShareChunks(h, req, d, chunks, cm);
    rows, xs := ChunkIngredients(h, req, d, chunks, cm);
  }

  lemma ChunkIngredients(h: TextHash, req: Request, d: Derivation, chunks: seq<nat>, cm: Common)
    returns (rows: seq<seq<nat>>, xs: seq<NonZero>)
    requires |chunks| == 16 && AllBelow(chunks, 65536) && req.t >= 1 && GuardiansMatch(req)
    requires ShareChunks(h, req, d, chunks, cm).Ok?
    ensures ThresholdRows(rows, req.t) && Constants(rows) == chunks && |xs| == req.n && DistinctNats(xs)
    ensures ShareChunks(h, req, d, chunks, cm) == Seal(h, req, cm, rows, xs)
    ensures rows == Coefficients(d, chunks, req.t) && Xs(d, req, req.n) == Ok(xs)
  {
    xs := Xs(d, req, req.n).value;
    rows := Coefficients(d, chunks, req.t);
  }

  lemma SplitBelow(seed: string)
    requires SplitSeed(seed).Ok?
    ensures |SplitSeed(seed).value| == 16 && AllBelow(SplitSeed(seed).value, 65536)
  {
    DigestParses(seed);
  }

  /** Envelope `k` of a sharing is the signed draft at `xs[k]`. */
  lemma IssuedEnvelope(h: TextHash, req: Request, cm: Common, chunks: seq<nat>, rows: seq<seq<nat>>, xs: seq<NonZero>, k: nat)
    requires SharedFrom(h, req, cm, chunks, rows, xs) && Share(h, req).Ok? && k < req.n
    ensures CanonicalDigest(Share(h, req).value.vkSetHash)
    ensures Signed(h, req, cm, rows, xs[k], Share(h, req).value.vkSetHash, k)
            == Ok(Share(h, req).value.shareEnvelopes[k])
  {
    SealedEnvelope(h, req, cm, rows, xs, k);
  }

  lemma SealedEnvelope(h: TextHash, req: Request, cm: Common, rows: seq<seq<nat>>, xs: seq<NonZero>, k: nat)
    requires GuardiansMatch(req) && |xs| == req.n && Rows(rows) && k < req.n
    requires Seal(h, req, cm, rows, xs).Ok?
    ensures CanonicalDigest(Seal(h, req, cm, rows, xs).value.vkSetHash)
    ensures Signed(h, req, cm, rows, xs[k], Seal(h, req, cm, rows, xs).value.vkSetHash, k)
            == Ok(Seal(h, req, cm, rows, xs).value.shareEnvelopes[k])
  {
    var keys := Keys(h, req, xs);
    var vkSetHash := VkSetHash(h, keys).value;
    HashJoinedCanonical(h, SortStrings(CanonEntries(keys).value));
    SequenceAt(i requires 0 <= i < req.n => Signed(h, req, cm, rows, xs[i], vkSetHash, i), req.n, k);
  }

  /** The hexadecimal fields of an unsigned envelope are canonical. */
  lemma UnsignedCanonical(h: TextHash, req: Request, cm: Common, rows: seq<seq<nat>>, x: NonZero, vkSetHash: string, k: nat)
    requires GuardiansMatch(req) && k < req.n && Rows(rows) && CanonicalCommon(cm) && CanonicalDigest(vkSetHash)
    ensures var env := Unsigned(h, req, cm, rows, x, vkSetHash, k);
            && CanonicalRaw(RawCanon(env))
            && CanonicalDigest(env.xiHex) && IsHexString(env.yiHex) && env.yiHex != "" && Ensure0x(env.yiHex) == Ok(env.yiHex)
  {
    var ui := UiOf(h, x);
    HashJoinedCanonical(h, ["NITS-UI", FieldToHex(x)]);
    HashJoinedCanonical(h, ["TTSS-TAG", cm.idHash, Decimal(req.ver), Decimal(req.epoch), Decimal(k + 1), ui]);
    HexOfIsCanonical(FieldBytes(x));
    SmallResidue(x, x);
    PackedCanonical(Values(rows, x));
  }

  predicate CanonicalRaw(c: Canon)
  {
    && CanonicalDigest(c.idHash) && CanonicalDigest(c.ui) && CanonicalDigest(c.tag) && CanonicalDigest(c.vkSet)
    && CanonicalDigest(c.guardianSet) && CanonicalDigest(c.dealerPk) && CanonicalDigest(c.rhoCommit)
  }

  lemma PackedCanonical(values: seq<nat>)
    requires |values| == 16 && InField(values)
    ensures PackHex(values).Ok?
    ensures var y := PackHex(values).value; IsHexString(y) && y != "" && Ensure0x(y) == Ok(y)
  {
    var bytes := PackedOf(values);
    ParseOfHex(bytes);
    DigitsAreBody(bytes);
    EnsureCanonical(DigitsOf(bytes));
  }

  /** An issued envelope is its draft with a canonical attestation, and all its text is canonical. */
  lemma IssuedShape(h: TextHash, req: Request, cm: Common, chunks: seq<nat>, rows: seq<seq<nat>>, xs: seq<NonZero>, k: nat)
    requires SharedFrom(h, req, cm, chunks, rows, xs) && Share(h, req).Ok? && k < req.n
    ensures var env := Share(h, req).value.shareEnvelopes[k];
            && CanonicalRaw(RawCanon(env)) && CanonicalDigest(env.xiHex) && CanonicalDigest(env.sigmaHex)
            && Ensure0x(env.yiHex) == Ok(env.yiHex) && BasicValidate(env) == Pass
  {
    var vkSetHash, env := Share(h, req).value.vkSetHash, Share(h, req).value.shareEnvelopes[k];
    var draft := Unsigned(h, req, cm, rows, xs[k], vkSetHash, k);
    IssuedEnvelope(h, req, cm, chunks, rows, xs, k);
    UnsignedCanonical(h, req, cm, rows, xs[k], vkSetHash, k);
    SignedSigma(h, draft, cm.dealerPk);
    IssuedValid(env, draft);
    assert RawCanon(env) == RawCanon(draft);
  }

  /** Every issued envelope verifies. */
  lemma IssuedVerifies(h: TextHash, req: Request, cm: Common, chunks: seq<nat>, rows: seq<seq<nat>>, xs: seq<NonZero>, k: nat)
    requires SharedFrom(h, req, cm, chunks, rows, xs) && Share(h, req).Ok? && k < req.n
    ensures Verifies(h, Share(h, req).value.shareEnvelopes[k])
  {
    var draft := Unsigned(h, req, cm, rows, xs[k], Share(h, req).value.vkSetHash, k);
    IssuedEnvelope(h, req, cm, chunks, rows, xs, k);
    IssuedShape(h, req, cm, chunks, rows, xs, k);
    SignedVerifies(h, draft);
  }

  lemma SignedSigma(h: TextHash, env: ShareEnvelope, key: string)
    requires Sign(h, env, key).Ok? && env.sigAlg == SIG_ALG
    ensures var signed := Sign(h, env, key).value;
            signed == env.(sigmaHex := signed.sigmaHex) && CanonicalDigest(signed.sigmaHex)
  {
    SigmaOfPayload(h, env, env, key);
  }

  lemma IssuedValid(env: ShareEnvelope, draft: ShareEnvelope)
    requires env == draft.(sigmaHex := env.sigmaHex) && CanonicalDigest(env.sigmaHex)
    requires CanonicalRaw(RawCanon(draft)) && CanonicalDigest(draft.xiHex) && IsHexString(draft.yiHex) && draft.yiHex != ""
    requires draft.scheme == SCHEME && draft.secretType == SECRET_TYPE && draft.guardianIndex != 0 && 2 <= draft.t <= draft.n
    ensures BasicValidate(env) == Pass
  {
    CanonicalRawIsHex(RawCanon(draft));
    IssuedValidWith(s => IsHexString(s), env, draft);
  }

  lemma CanonicalRawIsHex(c: Canon)
    requires CanonicalRaw(c)
    ensures CanonWith(s => IsHexString(s), c)
  {
  }

  lemma IssuedValidWith(isHex: string -> bool, env: ShareEnvelope, draft: ShareEnvelope)
    requires env == draft.(sigmaHex := env.sigmaHex) && isHex(env.sigmaHex)
    requires CanonWith(isHex, RawCanon(draft)) && isHex(draft.xiHex) && isHex(draft.yiHex)
    requires draft.xiHex != "" && draft.yiHex != ""
    requires draft.scheme == SCHEME && draft.secretType == SECRET_TYPE && draft.guardianIndex != 0 && 2 <= draft.t <= draft.n
    ensures ValidateWith(isHex, env) == Pass
  {
    assert RawCanon(env) == RawCanon(draft);
    ValidFields(isHex, env);
  }

  /** Every issued envelope is a share of the sharing's polynomials at its own x. */
  lemma IssuedIsShare(h: TextHash, req: Request, cm: Common, chunks: seq<nat>, rows: seq<seq<nat>>, xs: seq<NonZero>, k: nat)
    requires SharedFrom(h, req, cm, chunks, rows, xs) && Share(h, req).Ok? && k < req.n
    ensures var header := Header(SCHEME, cm.idHash, req.ver, req.epoch, req.n, req.t, SECRET_TYPE);
            IsShareAt(RealReader(h), Share(h, req).value.shareEnvelopes[k], header, rows, xs[k])
  {
    var vkSetHash, env := Share(h, req).value.vkSetHash, Share(h, req).value.shareEnvelopes[k];
    IssuedEnvelope(h, req, cm, chunks, rows, xs, k);
    IssuedVerifies(h, req, cm, chunks, rows, xs, k);
    SignedSigma(h, Unsigned(h, req, cm, rows, xs[k], vkSetHash, k), cm.dealerPk);
    FieldTextRoundTrip(xs[k]);
    UnpackPackHex(Values(rows, xs[k]));
  }

  /** The fields of issued envelope `k`, by the request and the point. */
  lemma IssuedFields(h: TextHash, req: Request, cm: Common, chunks: seq<nat>, rows: seq<seq<nat>>, xs: seq<NonZero>, k: nat)
    requires SharedFrom(h, req, cm, chunks, rows, xs) && Share(h, req).Ok? && k < req.n
    ensures var setup, env := Share(h, req).value, Share(h, req).value.shareEnvelopes[k];
            && env.id == req.id && env.guardianIndex == k + 1 && env.n == req.n && env.t == req.t
            && env.guardianId == (if req.guardianIds == [] then "G" + Decimal(k + 1) else req.guardianIds[k])
            && env.ver == req.ver && env.epoch == req.epoch && env.active && env.sigAlg == SIG_ALG
            && FieldOfHex(env.xiHex) == Ok(xs[k]) && UnpackHex(env.yiHex) == Ok(Values(rows, xs[k]))
            && env.uiHex == HashJoined(h, ["NITS-UI", env.xiHex])
            && env.tagHex == HashJoined(h, ["TTSS-TAG", cm.idHash, Decimal(req.ver), Decimal(req.epoch), Decimal(k + 1), env.uiHex])
            && env.meta.issuedAt == req.issuedAt && env.meta.expiresAt == req.expiresAt && env.meta.vkSetHash == setup.vkSetHash
            && setup.tk[k] == setup.vk[k] == KeyEntry(k + 1, env.guardianId, env.uiHex)
            && env.meta.rhoCommitHex == setup.rhoCommitHex
  {
    hide HashJoined, Decimal, Values, UnpackHex, FieldOfHex, Seal, Share;
    var vkSetHash := Share(h, req).value.vkSetHash;
    IssuedEnvelope(h, req, cm, chunks, rows, xs, k);
    SignedSigma(h, Unsigned(h, req, cm, rows, xs[k], vkSetHash, k), cm.dealerPk);
    SealedKeys(h, req, cm, rows, xs);
    FieldTextRoundTrip(xs[k]);
    UnpackPackHex(Values(rows, xs[k]));
  }

  lemma SealedKeys(h: TextHash, req: Request, cm: Common, rows: seq<seq<nat>>, xs: seq<NonZero>)
    requires GuardiansMatch(req) && |xs| == req.n && Rows(rows) && Seal(h, req, cm, rows, xs).Ok?
    ensures var r := Seal(h, req, cm, rows, xs).value; r.tk == r.vk == Keys(h, req, xs) && r.rhoCommitHex == cm.rhoCommit
  {
    hide Signed, VkSetHash;
  }

  // ----- when sharing succeeds -----

  /** Signing a draft of canonical inputs never throws. */
  lemma SignedOk(h: TextHash, req: Request, cm: Common, rows: seq<seq<nat>>, x: NonZero, vkSetHash: string, k: nat)
    requires GuardiansMatch(req) && k < req.n && Rows(rows) && CanonicalCommon(cm) && CanonicalDigest(vkSetHash)
    ensures Signed(h, req, cm, rows, x, vkSetHash, k).Ok?
  {
    hide NormalizeDigest, Draft, IsHexString;
    var env := Unsigned(h, req, cm, rows, x, vkSetHash, k);
    UnsignedCanonical(h, req, cm, rows, x, vkSetHash, k);
    CanonFixedPoint(s => NormalizeDigest(s), RawCanon(env));
    var signing := env.(sigAlg := if env.sigAlg == "" then SIG_ALG else env.sigAlg);
    assert RawCanon(signing) == RawCanon(env);
    SigmaParts(h, signing, cm.dealerPk);
  }

  lemma {:induction false} SequenceOk<T>(f: nat --> Outcome<T>, n: nat)
    requires forall i :: 0 <= i < n ==> f.requires(i) && f(i).Ok?
    ensures Sequence(f, n).Ok?
  {
    if n > 0 {
      SequenceOk(f, n - 1);
    }
  }

  lemma {:induction false} EntriesOk(entries: seq<KeyEntry>)
    requires forall i :: 0 <= i < |entries| ==> NormalizeDigest(entries[i].uiHex).Ok?
    ensures CanonEntries(entries).Ok?
  {
    hide NormalizeDigest, Decimal;
    if entries != [] {
      EntriesOk(entries[1..]);
    }
  }

  /** Once the inputs are canonical and the points are there, nothing else throws. */
  lemma SealOk(h: TextHash, req: Request, cm: Common, rows: seq<seq<nat>>, xs: seq<NonZero>)
    requires GuardiansMatch(req) && |xs| == req.n && Rows(rows) && CanonicalCommon(cm)
    ensures Seal(h, req, cm, rows, xs).Ok?
  {
    hide Signed, CanonicalCommon, NormalizeDigest, HashJoined;
    var keys := Keys(h, req, xs);
    forall i | 0 <= i < |keys| ensures NormalizeDigest(keys[i].uiHex).Ok? {
      HashJoinedCanonical(h, ["NITS-UI", FieldToHex(xs[i])]);
    }
    EntriesOk(keys);
    var vk := VkSetHash(h, keys).value;
    HashJoinedCanonical(h, SortStrings(CanonEntries(keys).value));
    var f: nat --> Outcome<ShareEnvelope> := i requires 0 <= i < req.n => Signed(h, req, cm, rows, xs[i], vk, i);
    forall i | 0 <= i < req.n ensures f(i).Ok? {
      SignedOk(h, req, cm, rows, xs[i], vk, i);
    }
    assert forall i :: 0 <= i < req.n ==> f.requires(i);
    SequenceOk(f, req.n);
  }

  predicate NoneLeft(d: Derivation, index: nat, id: string, used: seq<nat>)
  {
    forall ctr :: 0 <= ctr < 4096 ==> d.candidate(index, id, ctr) in used
  }

  /** Guardian `i` finds all 4096 candidates used by the guardians before. */
  ghost predicate AllUsed(d: Derivation, req: Request, i: nat, xs: seq<NonZero>)
    requires GuardiansMatch(req) && i < req.n
  {
    Xs(d, req, i) == Ok(xs) && NoneLeft(d, i + 1, Sharing.GuardianId(req, i), xs)
  }

  lemma {:induction false} FirstFreeThrowsIff(d: Derivation, index: nat, id: string, used: set<nat>, ctr: nat)
    ensures FirstFree(d, index, id, used, ctr).Throw? <==> forall k :: ctr <= k < 4096 ==> d.candidate(index, id, k) in used
    decreases 4096 - ctr
  {
    if ctr < 4096 {
      FirstFreeThrowsIff(d, index, id, used, ctr + 1);
    }
  }

  /** The points are found unless some guardian has no candidate left. */
  lemma {:induction false} XsFoundIff(d: Derivation, req: Request, n: nat)
    requires GuardiansMatch(req) && n <= req.n
    ensures Xs(d, req, n).Ok? <==> forall i, xs :: 0 <= i < n ==> !AllUsed(d, req, i, xs)
  {
    hide FirstFree, Sharing.GuardianId;
    if n > 0 {
      XsFoundIff(d, req, n - 1);
      if Xs(d, req, n - 1).Ok? {
        var xs := Xs(d, req, n - 1).value;
        FirstFreeThrowsIff(d, n, Sharing.GuardianId(req, n - 1), UsedX(xs), 0);
        assert AllUsed(d, req, n - 1, xs) <==> FirstFree(d, n, Sharing.GuardianId(req, n - 1), UsedX(xs), 0).Throw?;
      }
    }
  }

  /** What a caller can check before sharing. */
  predicate GoodRequest(req: Request)
  {
    && 2 <= req.t <= req.n && GuardiansMatch(req)
    && NormalizeDigest(req.seed).Ok? && NormalizeDigest(req.rhoSeed).Ok? && NormalizeDigest(req.idHash).Ok?
    && (req.guardianSetHash == "" || NormalizeDigest(req.guardianSetHash).Ok?)
    && NormalizeDigest(if req.dealerPk == "" then req.dealerKey else req.dealerPk).Ok?
  }

  /** On good requests nothing throws before the points are looked for. */
  lemma GoodCommon(h: TextHash, req: Request)
    requires NormalizeDigest(req.rhoSeed).Ok?
    ensures CommonOf(h, req, NormalizeDigest(req.rhoSeed).value).Ok? <==>
            && NormalizeDigest(req.idHash).Ok? && (req.guardianSetHash == "" || NormalizeDigest(req.guardianSetHash).Ok?)
            && NormalizeDigest(if req.dealerPk == "" then req.dealerKey else req.dealerPk).Ok?
  {
    hide NormalizeDigest, HashJoined;
  }

  lemma ShareIsChunks(h: TextHash, req: Request)
    ensures Share(h, req).Ok? ==> GoodRequest(req)
    ensures GoodRequest(req) ==>
            && SplitSeed(req.seed).Ok? && CommonOf(h, req, NormalizeDigest(req.rhoSeed).value).Ok?
            && var rho, cm := NormalizeDigest(req.rhoSeed).value, CommonOf(h, req, NormalizeDigest(req.rhoSeed).value).value;
               Share(h, req) == ShareChunks(h, req, DerivationOf(h, rho, cm.idHash, req.ver, req.epoch), SplitSeed(req.seed).value, cm)
  {
    hide NormalizeDigest, CommonOf, DerivationOf, ShareChunks;
    if NormalizeDigest(req.rhoSeed).Ok? {
      GoodCommon(h, req);
    }
    if NormalizeDigest(req.seed).Ok? {
      DigestParses(req.seed);
    }
    assert NormalizeDigest(req.seed).Ok? <==> SplitSeed(req.seed).Ok?;
  }

  lemma ChunksSucceedIff(h: TextHash, req: Request, d: Derivation, chunks: seq<nat>, cm: Common)
    requires |chunks| == 16 && req.t >= 1 && GuardiansMatch(req) && CanonicalCommon(cm)
    ensures ShareChunks(h, req, d, chunks, cm).Ok? <==> forall i, xs :: 0 <= i < req.n ==> !AllUsed(d, req, i, xs)
  {
    hide Xs, Seal, AllUsed, CanonicalCommon;
    XsFoundIff(d, req, req.n);
    if Xs(d, req, req.n).Ok? {
      SealOk(h, req, cm, Coefficients(d, chunks, req.t), Xs(d, req, req.n).value);
    }
  }

  /** Sharing succeeds exactly on good requests whose guardians all find an x of their own. */
  lemma ShareSucceedsIff(h: TextHash, req: Request)
    ensures Share(h, req).Ok? <==>
            && GoodRequest(req)
            && var d := DerivationOf(h, NormalizeDigest(req.rhoSeed).value, NormalizeDigest(req.idHash).value, req.ver, req.epoch);
               forall i, xs :: 0 <= i < req.n ==> !AllUsed(d, req, i, xs)
  {
    hide NormalizeDigest, Share, ShareChunks, AllUsed, CanonicalCommon, DerivationOf, CommonOf;
    ShareIsChunks(h, req);
    if GoodRequest(req) {
      SplitBelow(req.seed);
      var rho := NormalizeDigest(req.rhoSeed).value;
      CommonCanonical(h, req, rho);
      var cm := CommonOf(h, req, rho).value;
      ChunksSucceedIff(h, req, DerivationOf(h, rho, cm.idHash, req.ver, req.epoch), SplitSeed(req.seed).value, cm);
    }
  }

  // ----- the main theorem -----

  function Pick(envs: seq<ShareEnvelope>, picks: seq<nat>): (r: seq<ShareEnvelope>)
    requires forall i :: 0 <= i < |picks| ==> picks[i] < |envs|
    ensures |r| == |picks|
  {
    seq(|picks|, i requires 0 <= i < |picks| => envs[picks[i]])
  }

  /** Picks from a list of shares of the same polynomials recover their seed. */
  lemma PickedRecover(rd: Reader, envs: seq<ShareEnvelope>, header: Header, rows: seq<seq<nat>>, xs: seq<NonZero>,
                      picks: seq<nat>, t: U32)
    requires ReadsFull(rd) && ThresholdRows(rows, t) && |xs| == |envs| && DistinctNats(xs) && header.t == t
    requires forall k :: 0 <= k < |envs| ==> IsShareAt(rd, envs[k], header, rows, xs[k])
    requires |picks| >= t && DistinctNats(picks[..t])
    requires forall i :: 0 <= i < |picks| ==> picks[i] < |envs|
    ensures AllBelow(Constants(rows), 65536)
    ensures Recover(rd, Pick(envs, picks)) == Ok(Recovered(JoinSeed(Constants(rows)).value, t))
  {
    var shares := Pick(envs, picks);
    var pickedXs: seq<Felt> := seq(|picks|, i requires 0 <= i < |picks| => xs[picks[i]]);
    forall i, j | 0 <= i < j < t ensures pickedXs[..t][i] != pickedXs[..t][j] {
      assert picks[..t][i] != picks[..t][j];
    }
    RecoverIssued(rd, shares, rows, pickedXs, t);
  }

  lemma AllIssued(h: TextHash, req: Request, cm: Common, chunks: seq<nat>, rows: seq<seq<nat>>, xs: seq<NonZero>)
    requires SharedFrom(h, req, cm, chunks, rows, xs) && Share(h, req).Ok?
    ensures var header := Header(SCHEME, cm.idHash, req.ver, req.epoch, req.n, req.t, SECRET_TYPE);
            forall k :: 0 <= k < req.n ==>
              IsShareAt(RealReader(h), Share(h, req).value.shareEnvelopes[k], header, rows, xs[k])
  {
    forall k | 0 <= k < req.n
      ensures IsShareAt(RealReader(h), Share(h, req).value.shareEnvelopes[k],
                        Header(SCHEME, cm.idHash, req.ver, req.epoch, req.n, req.t, SECRET_TYPE), rows, xs[k])
    {
      IssuedIsShare(h, req, cm, chunks, rows, xs, k);
    }
  }

  /**
   Threshold recovery. Whenever sharing succeeds, any list of issued envelopes
   whose first `t` are different recovers exactly the normalised seed from those
   `t`; nothing is thrown, in particular no inverse of zero.
   */
  lemma ShareThenRecover(h: TextHash, req: Request, picks: seq<nat>)
    requires Share(h, req).Ok?
    requires |picks| >= req.t && DistinctNats(picks[..req.t])
    requires forall i :: 0 <= i < |picks| ==> picks[i] < req.n
    ensures |Share(h, req).value.shareEnvelopes| == req.n
    ensures ReadsFull(RealReader(h)) && NormalizeDigest(req.seed).Ok?
    ensures Recover(RealReader(h), Pick(Share(h, req).value.shareEnvelopes, picks))
            == Ok(Recovered(NormalizeDigest(req.seed).value, req.t))
  {
    RealReaderReadsFull(h);
    var cm, chunks, rows, xs := ShareIngredients(h, req);
    var header := Header(SCHEME, cm.idHash, req.ver, req.epoch, req.n, req.t, SECRET_TYPE);
    AllIssued(h, req, cm, chunks, rows, xs);
    PickedRecover(RealReader(h), Share(h, req).value.shareEnvelopes, header, rows, xs, picks, req.t);
    JoinSplit(req.seed);
  }

  // ----- fewer than the threshold -----

  /** The polynomials have these constant terms and would have issued the given shares. */
  ghost predicate ExplainsShares(rows: seq<seq<Felt>>, chunks: seq<nat>, t: nat, shares: seq<ShareEnvelope>)
    requires |chunks| == 16
  {
    && |rows| == 16 && t >= 1 && (forall c :: 0 <= c < 16 ==> |rows[c]| == t && rows[c][0] == chunks[c])
    && forall i :: 0 <= i < |shares| ==>
         FieldOfHex(shares[i].xiHex).Ok?
         && UnpackHex(shares[i].yiHex) == Ok(Values(rows, FieldOfHex(shares[i].xiHex).value))
  }

  /** Values of chunk `c` at the given points. */
  function ColumnOf(rows: seq<seq<nat>>, xs: seq<nat>, c: nat): (ys: seq<Felt>)
    requires Rows(rows) && c < 16
    ensures |ys| == |xs|
  {
    seq(|xs|, i requires 0 <= i < |xs| => ValueAt(rows[c], xs[i]))
  }

  ghost predicate ExplainsColumns(p: seq<seq<Felt>>, chunks: seq<nat>, xs: seq<Felt>, rows: seq<seq<nat>>)
    requires Rows(rows) && |chunks| == 16 && AllBelow(chunks, 65536)
  {
    |p| == 16 && forall c :: 0 <= c < 16 ==> Explains(p[c], chunks[c], xs, ColumnOf(rows, xs, c))
  }

  lemma {:induction false} ColumnsExist(chunks: seq<Felt>, xs: seq<NonZero>, rows: seq<seq<nat>>, n: nat)
    returns (p: seq<seq<Felt>>)
    requires Rows(rows) && |chunks| == 16 && n <= 16 && Incongruent(xs)
    ensures |p| == n && forall c :: 0 <= c < n ==> Explains(p[c], chunks[c], xs, ColumnOf(rows, xs, c))
  {
    hide Incongruent, ColumnOf, Explains;
    p := [];
    if n > 0 {
      var before := ColumnsExist(chunks, xs, rows, n - 1);
      var row := ThresholdExists(chunks[n - 1], xs, ColumnOf(rows, xs, n - 1));
      p := before + [row];
    }
  }

  lemma ColumnsUnique(p: seq<seq<Felt>>, q: seq<seq<Felt>>, chunks: seq<nat>, xs: seq<NonZero>, rows: seq<seq<nat>>)
    requires Rows(rows) && |chunks| == 16 && AllBelow(chunks, 65536) && Incongruent(xs)
    requires ExplainsColumns(p, chunks, xs, rows) && ExplainsColumns(q, chunks, xs, rows)
    ensures p == q
  {
    hide Incongruent, ColumnOf, Explains;
    forall c | 0 <= c < 16 ensures p[c] == q[c] {
      ThresholdUnique(p[c], q[c], chunks[c], xs, ColumnOf(rows, xs, c));
    }
  }

  /** Explaining shares issued from `rows` at `xs` is explaining the values of `rows` there, chunk by chunk. */
  lemma SharesAreColumns(h: TextHash, p: seq<seq<Felt>>, chunks: seq<nat>, t: nat, shares: seq<ShareEnvelope>,
                         header: Header, rows: seq<seq<nat>>, xs: seq<NonZero>)
    requires Rows(rows) && |chunks| == 16 && AllBelow(chunks, 65536) && |shares| == |xs| == t - 1
    requires forall i :: 0 <= i < |shares| ==> IsShareAt(RealReader(h), shares[i], header, rows, xs[i])
    ensures ExplainsShares(p, chunks, t, shares) <==> ExplainsColumns(p, chunks, xs, rows)
  {
    hide FieldOfHex, UnpackHex, Eval;
    if ExplainsShares(p, chunks, t, shares) {
      forall c, i | 0 <= c < 16 && 0 <= i < |xs| ensures Eval(p[c], xs[i]) % 65537 == ColumnOf(rows, xs, c)[i] {
        assert IsShareAt(RealReader(h), shares[i], header, rows, xs[i]);
        assert Values(p, xs[i])[c] == Values(rows, xs[i])[c];
      }
    }
    if ExplainsColumns(p, chunks, xs, rows) {
      forall i | 0 <= i < |shares| ensures Values(p, xs[i]) == Values(rows, xs[i]) {
        forall c | 0 <= c < 16 ensures Values(p, xs[i])[c] == Values(rows, xs[i])[c] {
          assert Eval(p[c], xs[i]) % 65537 == ColumnOf(rows, xs, c)[i];
        }
      }
      forall i | 0 <= i < |shares|
        ensures FieldOfHex(shares[i].xiHex) == Ok(xs[i]) && UnpackHex(shares[i].yiHex) == Ok(Values(rows, xs[i]))
      {
        assert IsShareAt(RealReader(h), shares[i], header, rows, xs[i]);
      }
    }
  }

  lemma PickedDistinct(xs: seq<NonZero>, picks: seq<nat>)
    requires DistinctNats(xs) && DistinctNats(picks) && forall i :: 0 <= i < |picks| ==> picks[i] < |xs|
    ensures Incongruent(seq(|picks|, i requires 0 <= i < |picks| => xs[picks[i]]))
  {
    forall i, j | 0 <= i < j < |picks| ensures !Cong(xs[picks[i]], xs[picks[j]]) {
      assert xs[picks[i]] != xs[picks[j]];
      SmallCong(xs[picks[i]], xs[picks[j]]);
    }
  }

  /**
   One share fewer than the threshold says nothing about the seed: whatever 32-byte
   seed is assumed, exactly one choice of sixteen polynomials has its chunks as
   constant terms and issues these very shares.
   */
  lemma TooFewSharesFitAnySeed(h: TextHash, req: Request, picks: seq<nat>, seed: string) returns (p: seq<seq<Felt>>)
    requires Share(h, req).Ok? && |picks| == req.t - 1 && DistinctNats(picks)
    requires forall i :: 0 <= i < |picks| ==> picks[i] < req.n
    requires SplitSeed(seed).Ok?
    ensures var shares, chunks := Pick(Share(h, req).value.shareEnvelopes, picks), SplitSeed(seed).value;
            && ExplainsShares(p, chunks, req.t, shares)
            && forall q :: ExplainsShares(q, chunks, req.t, shares) ==> q == p
  {
    hide Share, ExplainsShares, ExplainsColumns, SharedFrom, IsShareAt, SplitSeed, Incongruent;
    var cm, chunks0, rows, xs := ShareIngredients(h, req);
    SharedRows(h, req, cm, chunks0, rows, xs);
    var header := Header(SCHEME, cm.idHash, req.ver, req.epoch, req.n, req.t, SECRET_TYPE);
    var shares, chunks := Pick(Share(h, req).value.shareEnvelopes, picks), SplitSeed(seed).value;
    var us: seq<NonZero> := seq(|picks|, i requires 0 <= i < |picks| => xs[picks[i]]);
    AllIssued(h, req, cm, chunks0, rows, xs);
    SplitBelow(seed);
    PickedDistinct(xs, picks);
    p := ColumnsExist(chunks, us, rows, 16);
    assert ExplainsColumns(p, chunks, us, rows) by {
      assert forall c :: 0 <= c < 16 ==> Explains(p[c], chunks[c], us, ColumnOf(rows, us, c));
      ColumnsExplain(p, chunks, us, rows);
    }
    SharesAreColumns(h, p, chunks, req.t, shares, header, rows, us);
    forall q | ExplainsShares(q, chunks, req.t, shares) ensures q == p {
      SharesAreColumns(h, q, chunks, req.t, shares, header, rows, us);
      ColumnsUnique(q, p, chunks, us, rows);
    }
  }

  lemma ColumnsExplain(p: seq<seq<Felt>>, chunks: seq<nat>, xs: seq<Felt>, rows: seq<seq<nat>>)
    requires Rows(rows) && |chunks| == 16 && AllBelow(chunks, 65536) && |p| == 16
    requires forall c :: 0 <= c < 16 ==> Explains(p[c], chunks[c], xs, ColumnOf(rows, xs, c))
    ensures ExplainsColumns(p, chunks, xs, rows)
  {
  }

  lemma SharedRows(h: TextHash, req: Request, cm: Common, chunks: seq<nat>, rows: seq<seq<nat>>, xs: seq<NonZero>)
    requires SharedFrom(h, req, cm, chunks, rows, xs)
    ensures Rows(rows) && |xs| == req.n && DistinctNats(xs)
  {
  }

  /** Every issued envelope verifies, and is unchanged by JSON output and parsing. */
  lemma IssuedRoundTrip(h: TextHash, req: Request, k: nat)
    requires Share(h, req).Ok? && k < req.n
    ensures var env := Share(h, req).value.shareEnvelopes[k];
            Verifies(h, env) && ToDoc(env).Ok? && FromDoc(ToDoc(env).value) == Ok(env)
  {
    hide Share, ToDoc, FromDoc, SharedFrom;
    var cm, chunks, rows, xs := ShareIngredients(h, req);
    var env := Share(h, req).value.shareEnvelopes[k];
    IssuedShape(h, req, cm, chunks, rows, xs, k);
    IssuedVerifies(h, req, cm, chunks, rows, xs, k);
    CanonicalRoundTrip(env);
  }

  lemma CanonicalRoundTrip(env: ShareEnvelope)
    requires CanonicalRaw(RawCanon(env)) && CanonicalDigest(env.xiHex) && CanonicalDigest(env.sigmaHex)
    requires Ensure0x(env.yiHex) == Ok(env.yiHex) && BasicValidate(env) == Pass
    ensures ToDoc(env).Ok? && FromDoc(ToDoc(env).value) == Ok(env)
  {
    CanonicalDoc(env);
    ValidDoc(ToDoc(env).value);
  }

  lemma ValidDoc(d: Doc)
    requires BasicValidate(DocFields(d)) == Pass
    ensures FromDoc(d) == Ok(DocFields(d))
  {
  }

  lemma CanonicalDoc(env: ShareEnvelope)
    requires CanonicalRaw(RawCanon(env)) && CanonicalDigest(env.xiHex) && CanonicalDigest(env.sigmaHex)
    requires Ensure0x(env.yiHex) == Ok(env.yiHex)
    ensures ToDoc(env).Ok? && DocFields(ToDoc(env).value) == env
  {
    var norm := s => NormalizeDigest(s);
    CanonFixedPoint(norm, RawCanon(env));
    DocFieldsOf(env, DocOf(env, RawCanon(env), env.xiHex, env.yiHex, env.sigmaHex));
  }

  lemma CanonFixedPoint(norm: string -> Outcome<string>, c: Canon)
    requires norm(c.idHash) == Ok(c.idHash) && norm(c.ui) == Ok(c.ui) && norm(c.tag) == Ok(c.tag)
    requires norm(c.vkSet) == Ok(c.vkSet) && norm(c.guardianSet) == Ok(c.guardianSet)
    requires norm(c.dealerPk) == Ok(c.dealerPk) && norm(c.rhoCommit) == Ok(c.rhoCommit)
    ensures CanonThrough(norm, c) == Ok(c)
  {
  }
}
