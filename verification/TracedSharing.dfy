/** Sharing and tracing together: the x values of issued envelopes accuse exactly their guardians. */
module TracedSharing {
  import opened Outcomes
  import opened Hex
  import opened ShareField
  import opened FieldText
  import opened Envelope
  import opened Sharing
  import opened NitsShamir
  import opened Trace

  /** Key entry and envelope of guardian `k` carry the digest of the guardian's own x. */
  lemma IssuedKey(h: TextHash, req: Request, cm: Common, chunks: seq<nat>, rows: seq<seq<nat>>, xs: seq<NonZero>, k: nat)
    requires SharedFrom(h, req, cm, chunks, rows, xs) && Share(h, req).Ok? && k < req.n
    ensures var setup := Share(h, req).value;
            && |setup.tk| == |setup.shareEnvelopes| == req.n && setup.vk == setup.tk
            && setup.tk[k].guardianIndex == setup.shareEnvelopes[k].guardianIndex == k + 1
            && setup.tk[k].uiHex == setup.shareEnvelopes[k].uiHex == UiOf(h, xs[k])
            && setup.shareEnvelopes[k].xiHex == FieldToHex(xs[k])
  {
    hide Share, HashJoined, FieldToHex, NormalizeDigest;
    var setup := Share(h, req).value;
    IssuedEnvelope(h, req, cm, chunks, rows, xs, k);
    SignedSigma(h, Unsigned(h, req, cm, rows, xs[k], setup.vkSetHash, k), cm.dealerPk);
    SealKeys(h, req, cm, rows, xs);
    assert setup.tk[k] == KeyAt(h, req, xs[k], k);
  }

  lemma SealKeys(h: TextHash, req: Request, cm: Common, rows: seq<seq<nat>>, xs: seq<NonZero>)
    requires GuardiansMatch(req) && |xs| == req.n && Rows(rows) && Seal(h, req, cm, rows, xs).Ok?
    ensures Seal(h, req, cm, rows, xs).value.tk == Keys(h, req, xs) == Seal(h, req, cm, rows, xs).value.vk
  {
    hide VkSetHash, Signed, Sequence, Keys;
  }

  /** The text of an x is its own normal form, and its digest is the guardian's. */
  lemma IssuedRoot(h: TextHash, x: NonZero)
    ensures NormalizeField(FieldToHex(x)) == Ok(FieldToHex(x))
    ensures UiText(h, FieldToHex(x)) == UiOf(h, x) == Lower(UiOf(h, x))
    ensures NormalizeDigest(UiOf(h, x)) == Ok(UiOf(h, x))
  {
    hide FieldToHex, FieldOfHex, NormalizeDigest, Lower, HexOf;
    FieldTextRoundTrip(x);
    HashJoinedCanonical(h, ["NITS-UI", FieldToHex(x)]);
    LowerHexOf(h(Join(["NITS-UI", FieldToHex(x)], "|")));
  }

  /** Texts that are their own normal form are the normalised roots. */
  lemma {:induction false} RootsNormal(roots: seq<string>)
    requires forall i :: 0 <= i < |roots| ==> NormalizeField(roots[i]) == Ok(roots[i])
    ensures NormalizedRoots(roots) == Ok(roots)
  {
    hide NormalizeField;
    if roots != [] {
      RootsNormal(roots[..|roots| - 1]);
      assert roots == roots[..|roots| - 1] + [roots[|roots| - 1]];
    }
  }

  /** Keys with canonical digests make a table with the same indexes and digests. */
  lemma {:induction false} TableOfKeys(keys: seq<KeyEntry>)
    requires forall i :: 0 <= i < |keys| ==> NormalizeDigest(keys[i].uiHex) == Ok(keys[i].uiHex) && Lower(keys[i].uiHex) == keys[i].uiHex
    ensures TableOf(keys).Ok? && |TableOf(keys).value| == |keys|
    ensures forall i :: 0 <= i < |keys| ==> TableOf(keys).value[i] == Entry(keys[i].guardianIndex, keys[i].uiHex)
  {
    hide NormalizeDigest, Lower;
    if keys != [] {
      TableOfKeys(keys[..|keys| - 1]);
    }
  }

  function RootsOf(envs: seq<ShareEnvelope>, picks: seq<nat>): (roots: seq<string>)
    requires forall i :: 0 <= i < |picks| ==> picks[i] < |envs|
    ensures |roots| == |picks|
  {
    seq(|picks|, i requires 0 <= i < |picks| => envs[picks[i]].xiHex)
  }

  function IndexesOf(picks: seq<nat>): (found: seq<nat>)
    ensures |found| == |picks|
  {
    seq(|picks|, i requires 0 <= i < |picks| => picks[i] + 1)
  }

  predicate DistinctKeys(keys: seq<KeyEntry>)
  {
    forall j, k :: 0 <= j < k < |keys| ==> keys[j].uiHex != keys[k].uiHex
  }

  /** Key and envelope belong to guardian `k + 1`, in canonical text, and the key is the digest of the envelope's x. */
  predicate Traceable(h: TextHash, key: KeyEntry, env: ShareEnvelope, k: nat)
  {
    && key.guardianIndex == k + 1 && NormalizeDigest(key.uiHex) == Ok(key.uiHex) && Lower(key.uiHex) == key.uiHex
    && NormalizeField(env.xiHex) == Ok(env.xiHex) && UiText(h, env.xiHex) == key.uiHex
  }

  predicate AllTraceable(h: TextHash, keys: seq<KeyEntry>, envs: seq<ShareEnvelope>)
  {
    |keys| == |envs| && forall k :: 0 <= k < |keys| ==> Traceable(h, keys[k], envs[k], k)
  }

  /** Every issued envelope is traceable to its guardian. */
  lemma IssuedTraceable(h: TextHash, req: Request)
    requires Share(h, req).Ok?
    ensures |Share(h, req).value.shareEnvelopes| == req.n
    ensures AllTraceable(h, Share(h, req).value.tk, Share(h, req).value.shareEnvelopes)
    ensures NormalizeDigest(req.idHash).Ok?
  {
    hide Share, HashJoined, FieldToHex, NormalizeField, NormalizeDigest, UiText, Lower, UiOf;
    var cm, chunks, rows, xs := ShareIngredients(h, req);
    var setup := Share(h, req).value;
    forall k | 0 <= k < req.n
      ensures |setup.tk| == |setup.shareEnvelopes| == req.n && Traceable(h, setup.tk[k], setup.shareEnvelopes[k], k)
    {
      IssuedKey(h, req, cm, chunks, rows, xs, k);
      IssuedRoot(h, xs[k]);
    }
    assert 0 < req.n;
  }

  /** Envelopes in guardian order trace to their guardians. */
  lemma TraceableTrace(h: TextHash, keys: seq<KeyEntry>, envs: seq<ShareEnvelope>, idHash: string, picks: seq<nat>)
    requires AllTraceable(h, keys, envs) && DistinctKeys(keys) && NormalizeDigest(idHash).Ok?
    requires picks != [] && StrictlyAscending(picks) && forall i :: 0 <= i < |picks| ==> picks[i] < |envs|
    ensures var r := TraceFromRoots(h, keys, idHash, RootsOf(envs, picks));
            r.Ok? && r.value.TraceDone? && r.value.result.ok && r.value.result.accused == IndexesOf(picks)
  {
    hide NormalizeField, NormalizeDigest, UiText, Lower, Traced, Hits;
    forall k | 0 <= k < |keys| ensures Traceable(h, keys[k], envs[k], k) {
    }
    TableOfKeys(keys);
    var table, roots, found := TableOf(keys).value, RootsOf(envs, picks), IndexesOf(picks);
    var ui: Ui := r => UiText(h, r);
    forall i | 0 <= i < |picks| ensures NormalizeField(roots[i]) == Ok(roots[i]) && Finds(table, ui, roots[i], found[i]) {
      assert Traceable(h, keys[picks[i]], envs[picks[i]], picks[i]);
      assert table[picks[i]] == Entry(found[i], ui(roots[i]));
    }
    RootsNormal(roots);
    AscendingTrace(table, ui, roots, found);
  }

  /**
   Tracing what was issued: when the digests do not collide, the x texts of any
   envelopes in guardian order trace successfully, to exactly their guardians.
   */
  lemma IssuedRootsTrace(h: TextHash, req: Request, picks: seq<nat>)
    requires Share(h, req).Ok? && DistinctKeys(Share(h, req).value.tk)
    requires picks != [] && StrictlyAscending(picks) && forall i :: 0 <= i < |picks| ==> picks[i] < req.n
    ensures |Share(h, req).value.shareEnvelopes| == req.n
    ensures var setup := Share(h, req).value;
            var r := TraceFromRoots(h, setup.tk, req.idHash, RootsOf(setup.shareEnvelopes, picks));
            r.Ok? && r.value.TraceDone? && r.value.result.ok && r.value.result.accused == IndexesOf(picks)
  {
    hide Share, AllTraceable, NormalizeDigest, TraceFromRoots;
    IssuedTraceable(h, req);
    TraceableTrace(h, Share(h, req).value.tk, Share(h, req).value.shareEnvelopes, req.idHash, picks);
  }

  lemma AscendingTrace(table: seq<Entry>, ui: Ui, roots: seq<string>, found: seq<nat>)
    requires DistinctTable(table) && roots != [] && |found| == |roots| && StrictlyAscending(found)
    requires forall i :: 0 <= i < |roots| ==> Finds(table, ui, roots[i], found[i])
    ensures Traced(table, ui, roots).ok && Traced(table, ui, roots).accused == found
  {
    AscendingHits(table, ui, roots, found);
    CheckOfHits(table, ui, roots);
    SortIsIdentity(found);
  }
}
