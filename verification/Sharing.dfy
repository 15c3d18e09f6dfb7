/** Splitting a seed into share envelopes. */
module Sharing {
  import opened Outcomes
  import opened Hex
  import opened ShareField
  import opened Polynomials
  import opened Interpolation
  import opened Packing
  import opened FieldText
  import opened Envelope

  type NonZero = x: nat | 1 <= x < 65537 witness 1

  datatype KeyEntry = KeyEntry(guardianIndex: U32, guardianId: string, uiHex: string)

  datatype Request = Request(
    seed: string, n: U32, t: U32, rhoSeed: string, id: string, idHash: string,
    ver: U64, epoch: U64, guardianIds: seq<string>, guardianSetHash: string,
    dealerKey: string, dealerPk: string, issuedAt: U64, expiresAt: U64)

  datatype Setup = Setup(
    shareEnvelopes: seq<ShareEnvelope>, tk: seq<KeyEntry>, vk: seq<KeyEntry>,
    vkSetHash: string, rhoCommitHex: string)

  // ----- derivations from the hash -----

  function HashToField(h: TextHash, parts: seq<string>): Felt
  {
    FieldOfBytes(h(Join(parts, "|")));
    FieldOfHex(HashJoined(h, parts)).value
  }

  /** Coefficient `k` of chunk `c`, and the `ctr`-th x candidate of a guardian. */
  datatype Derivation = Derivation(coeff: (nat, nat) -> Felt, candidate: (nat, string, nat) -> NonZero)

  function CoefficientParts(rho: string, idHash: string, ver: U64, epoch: U64, c: nat, k: nat): seq<string>
  {
    ["TTSS-COEFF", rho, idHash, Decimal(ver), Decimal(epoch), Decimal(c), Decimal(k)]
  }

  function CandidateParts(rho: string, idHash: string, ver: U64, epoch: U64, index: nat, id: string, ctr: nat): seq<string>
  {
    ["TTSS-X", rho, idHash, Decimal(ver), Decimal(epoch), Decimal(index), id, Decimal(ctr)]
  }

  function DerivationOf(h: TextHash, rho: string, idHash: string, ver: U64, epoch: U64): Derivation
  {
    Derivation(
      (c, k) => HashToField(h, CoefficientParts(rho, idHash, ver, epoch, c, k)),
      (index, id, ctr) => HashToField(h, CandidateParts(rho, idHash, ver, epoch, index, id, ctr)) % (FIELD_MOD - 1) + 1)
  }

  /** The first candidate, from counter `ctr` on, that no earlier guardian uses. */
  function FirstFree(d: Derivation, index: nat, id: string, used: set<nat>, ctr: nat): (r: Outcome<NonZero>)
    ensures r.Ok? ==> r.value !in used
    ensures r.Ok? ==> exists k :: ctr <= k < 4096 && r.value == d.candidate(index, id, k)
                                  && forall j :: ctr <= j < k ==> d.candidate(index, id, j) in used
    ensures r.Throw? ==> forall k :: ctr <= k < 4096 ==> d.candidate(index, id, k) in used
    decreases 4096 - ctr
  {
    if ctr >= 4096 then Throw("unable_to_derive_distinct_x")
    else if d.candidate(index, id, ctr) !in used then Ok(d.candidate(index, id, ctr))
    else FirstFree(d, index, id, used, ctr + 1)
  }

  method DeriveDistinctX(d: Derivation, index: nat, id: string, used: set<nat>) returns (r: Outcome<NonZero>)
    ensures r == FirstFree(d, index, id, used, 0)
  {
    for ctr := 0 to 4096
      invariant FirstFree(d, index, id, used, ctr) == FirstFree(d, index, id, used, 0)
    {
      var x := d.candidate(index, id, ctr);
      if x !in used {
        return Ok(x);
      }
    }
    r := Throw("unable_to_derive_distinct_x");
  }

  // ----- the polynomials and the points -----

  function Coefficients(d: Derivation, chunks: seq<nat>, t: nat): (rows: seq<seq<nat>>)
    requires |chunks| == 16 && t >= 1
    ensures |rows| == 16
    ensures forall c :: 0 <= c < 16 ==> |rows[c]| == t && rows[c][0] == chunks[c]
    ensures forall c, k :: 0 <= c < 16 && 1 <= k < t ==> rows[c][k] == d.coeff(c, k)
  {
    seq(16, c requires 0 <= c < 16 => CoefficientRow(d, chunks[c], c, t))
  }

  function CoefficientRow(d: Derivation, chunk: nat, c: nat, t: nat): (row: seq<nat>)
    requires t >= 1
    ensures |row| == t && row[0] == chunk && forall k :: 1 <= k < t ==> row[k] == d.coeff(c, k)
  {
    seq(t, k requires 0 <= k < t => Coefficient(d, chunk, c, k))
  }

  /** Each chunk is the constant term of its own polynomial. */
  function Coefficient(d: Derivation, chunk: nat, c: nat, k: nat): nat
  {
    if k == 0 then chunk else d.coeff(c, k)
  }

  predicate Rows(rows: seq<seq<nat>>)
  {
    |rows| == 16 && forall c :: 0 <= c < 16 ==> |rows[c]| >= 1
  }

  /** The sixteen values at `x`. */
  function Values(rows: seq<seq<nat>>, x: nat): (ys: seq<nat>)
    requires Rows(rows)
    ensures |ys| == 16 && InField(ys)
  {
    seq(16, c requires 0 <= c < 16 => ValueAt(rows[c], x))
  }

  function ValueAt(row: seq<nat>, x: nat): Felt
  {
    Eval(row, x) % FIELD_MOD
  }

  function GuardianId(req: Request, i: nat): string
    requires req.guardianIds == [] || i < |req.guardianIds|
  {
    if req.guardianIds == [] then "G" + Decimal(i + 1) else req.guardianIds[i]
  }

  predicate GuardiansMatch(req: Request)
  {
    req.guardianIds == [] || |req.guardianIds| == req.n
  }

  /** The x-coordinates of the first `i` guardians. */
  function Xs(d: Derivation, req: Request, i: nat): (r: Outcome<seq<NonZero>>)
    requires GuardiansMatch(req) && i <= req.n
    ensures r.Ok? ==> |r.value| == i && forall j, k :: 0 <= j < k < i ==> r.value[j] != r.value[k]
  {
    if i == 0 then Ok([]) else
      var xs :- Xs(d, req, i - 1);
      var x :- FirstFree(d, i, GuardianId(req, i - 1), UsedX(xs), 0);
      Ok(xs + [x])
  }

  /** Every guardian has the first of its candidates that no guardian before it has. */
  lemma {:induction false} XsAre(d: Derivation, req: Request, n: nat, i: nat)
    requires GuardiansMatch(req) && i < n <= req.n && Xs(d, req, n).Ok?
    ensures FirstFree(d, i + 1, GuardianId(req, i), UsedX(Xs(d, req, n).value[..i]), 0) == Ok(Xs(d, req, n).value[i])
  {
    hide FirstFree, GuardianId;
    var before := Xs(d, req, n - 1).value;
    assert Xs(d, req, n).value[..n - 1] == before;
    if i < n - 1 {
      XsAre(d, req, n - 1, i);
      assert Xs(d, req, n).value[..i] == before[..i];
    }
  }

  function UsedX(xs: seq<nat>): set<nat>
  {
    set x | x in xs
  }

  // ----- envelopes -----

  /** The normalised inputs every envelope carries. */
  datatype Common = Common(idHash: string, guardianSet: string, dealerPk: string, rhoCommit: string)

  function CommonOf(h: TextHash, req: Request, rho: string): Outcome<Common>
  {
    var idHash :- NormalizeDigest(req.idHash);
    var guardianSet :- if req.guardianSetHash == ""
                       then Ok(HashJoined(h, ["TTSS-GSET", Decimal(req.n), req.id]))
                       else NormalizeDigest(req.guardianSetHash);
    var dealerPk :- NormalizeDigest(if req.dealerPk == "" then req.dealerKey else req.dealerPk);
    Ok(Common(idHash, guardianSet, dealerPk, HashJoined(h, ["TTSS-RHO-COMMIT", rho])))
  }

  function ComputeUi(h: TextHash, xiHex: string): Outcome<string>
  {
    var norm :- NormalizeField(xiHex);
    Ok(HashJoined(h, ["NITS-UI", norm]))
  }

  function UiOf(h: TextHash, x: NonZero): string
  {
    HashJoined(h, ["NITS-UI", FieldToHex(x)])
  }

  function TagOf(h: TextHash, req: Request, idHash: string, index: nat, ui: string): string
  {
    HashJoined(h, ["TTSS-TAG", idHash, Decimal(req.ver), Decimal(req.epoch), Decimal(index), ui])
  }

  function Draft(h: TextHash, req: Request, cm: Common, rows: seq<seq<nat>>, x: NonZero, i: nat): ShareEnvelope
    requires GuardiansMatch(req) && i < req.n && Rows(rows)
  {
    var ui := UiOf(h, x);
    ShareEnvelope(SCHEME, req.id, cm.idHash, i + 1, GuardianId(req, i), req.n, req.t, req.ver, req.epoch, SECRET_TYPE,
                  FieldToHex(x), PackHex(Values(rows, x)).value, ui, TagOf(h, req, cm.idHash, i + 1, ui), SIG_ALG, "",
                  ShareMeta("", cm.guardianSet, cm.dealerPk, cm.rhoCommit, req.issuedAt, req.expiresAt), true)
  }

  function KeyAt(h: TextHash, req: Request, x: NonZero, i: nat): KeyEntry
    requires GuardiansMatch(req) && i < req.n
  {
    KeyEntry(i + 1, GuardianId(req, i), UiOf(h, x))
  }

  // ----- the set hash -----

  /** Lexicographic order, as `std::string` compares. */
  predicate StringLeq(a: string, b: string)
  {
    a == "" || (b != "" && (a[0] < b[0] || (a[0] == b[0] && StringLeq(a[1..], b[1..]))))
  }

  function InsertSorted(s: string, sorted: seq<string>): seq<string>
  {
    if sorted == [] then [s]
    else if StringLeq(s, sorted[0]) then [s] + sorted
    else [sorted[0]] + InsertSorted(s, sorted[1..])
  }

  function SortStrings(parts: seq<string>): seq<string>
  {
    if parts == [] then [] else InsertSorted(parts[0], SortStrings(parts[1..]))
  }

  function CanonEntries(entries: seq<KeyEntry>): Outcome<seq<string>>
  {
    if entries == [] then Ok([]) else
      var ui :- NormalizeDigest(entries[0].uiHex);
      var rest :- CanonEntries(entries[1..]);
      Ok([Decimal(entries[0].guardianIndex) + ":" + ui] + rest)
  }

  function VkSetHash(h: TextHash, entries: seq<KeyEntry>): Outcome<string>
  {
    var canon :- CanonEntries(entries);
    Ok(HashJoined(h, SortStrings(canon)))
  }

  // ----- sharing -----

  function WithVkSet(env: ShareEnvelope, vkSetHash: string): ShareEnvelope
  {
    env.(meta := env.meta.(vkSetHash := vkSetHash))
  }

  function Share(h: TextHash, req: Request): (r: Outcome<Setup>)
    ensures r.Ok? ==> |r.value.shareEnvelopes| == |r.value.tk| == |r.value.vk| == req.n
  {
    if req.n < 2 || req.t < 2 || req.t > req.n then Throw("bad_threshold")
    else if !GuardiansMatch(req) then Throw("guardian_count_mismatch")
    else
      var rho :- NormalizeDigest(req.rhoSeed);
      var chunks :- SplitSeed(req.seed);
      var cm :- CommonOf(h, req, rho);
      ShareChunks(h, req, DerivationOf(h, rho, cm.idHash, req.ver, req.epoch), chunks, cm)
  }

  /** Sharing once all inputs are normalised, with any source of coefficients and x candidates. */
  function ShareChunks(h: TextHash, req: Request, d: Derivation, chunks: seq<nat>, cm: Common): (r: Outcome<Setup>)
    requires |chunks| == 16 && req.t >= 1 && GuardiansMatch(req)
    ensures r.Ok? ==> |r.value.shareEnvelopes| == |r.value.tk| == |r.value.vk| == req.n
  {
    var xs :- Xs(d, req, req.n);
    Seal(h, req, cm, Coefficients(d, chunks, req.t), xs)
  }

  /** Envelopes and keys for given polynomials and x-coordinates. */
  function Seal(h: TextHash, req: Request, cm: Common, rows: seq<seq<nat>>, xs: seq<NonZero>): (r: Outcome<Setup>)
    requires GuardiansMatch(req) && |xs| == req.n && Rows(rows)
    ensures r.Ok? ==> |r.value.shareEnvelopes| == |r.value.tk| == |r.value.vk| == req.n
  {
    var keys := Keys(h, req, xs);
    var vkSetHash :- VkSetHash(h, keys);
    var envs :- Sequence(i requires 0 <= i < req.n => Signed(h, req, cm, rows, xs[i], vkSetHash, i), req.n);
    Ok(Setup(envs, keys, keys, vkSetHash, cm.rhoCommit))
  }

  function Keys(h: TextHash, req: Request, xs: seq<NonZero>): (keys: seq<KeyEntry>)
    requires GuardiansMatch(req) && |xs| == req.n
    ensures |keys| == req.n
  {
    seq(req.n, i requires 0 <= i < req.n => KeyAt(h, req, xs[i], i))
  }

  function Unsigned(h: TextHash, req: Request, cm: Common, rows: seq<seq<nat>>, x: NonZero,
                    vkSetHash: string, i: nat): ShareEnvelope
    requires GuardiansMatch(req) && i < req.n && Rows(rows)
  {
    WithVkSet(Draft(h, req, cm, rows, x, i), vkSetHash)
  }

  function Signed(h: TextHash, req: Request, cm: Common, rows: seq<seq<nat>>, x: NonZero,
                  vkSetHash: string, i: nat): Outcome<ShareEnvelope>
    requires GuardiansMatch(req) && i < req.n && Rows(rows)
  {
    Sign(h, Unsigned(h, req, cm, rows, x, vkSetHash, i), cm.dealerPk)
  }

  /** The results of `f` at `0..n`, or the first exception. */
  function Sequence<T>(f: nat --> Outcome<T>, n: nat): (r: Outcome<seq<T>>)
    requires forall i :: 0 <= i < n ==> f.requires(i)
    ensures r.Ok? ==> |r.value| == n
  {
    if n == 0 then Ok([]) else
      var before :- Sequence(f, n - 1);
      var last :- f(n - 1);
      Ok(before + [last])
  }

  lemma {:induction false} SequenceAt<T>(f: nat --> Outcome<T>, n: nat, k: nat)
    requires forall i :: 0 <= i < n ==> f.requires(i)
    requires Sequence(f, n).Ok? && k < n
    ensures f(k) == Ok(Sequence(f, n).value[k])
  {
    if k < n - 1 {
      SequenceAt(f, n - 1, k);
    }
  }

  // ----- the loops -----

  method BuildRows(d: Derivation, chunks: seq<U32>, t: U32) returns (rows: seq<seq<U32>>)
    requires |chunks| == 16 && t >= 1
    ensures rows == Coefficients(d, chunks, t)
    ensures |rows| == 16 && forall c :: 0 <= c < 16 ==> |rows[c]| == t && rows[c][0] == chunks[c]
    ensures forall c, k :: 0 <= c < 16 && 1 <= k < t ==> rows[c][k] == d.coeff(c, k)
  {
    rows := [];
    for c := 0 to 16
      invariant |rows| == c
      invariant forall b :: 0 <= b < c ==> rows[b] == CoefficientRow(d, chunks[b], b, t)
    {
      var row: seq<U32> := [chunks[c]];
      for k := 1 to t
        invariant |row| == k
        invariant forall j :: 0 <= j < k ==> row[j] == Coefficient(d, chunks[c], c, j)
      {
        row := row + [d.coeff(c, k)];
      }
      assert row == CoefficientRow(d, chunks[c], c, t);
      rows := rows + [row];
    }
  }

  method EvalRows(rows: seq<seq<U32>>, x: U32) returns (ys: seq<U32>)
    requires Rows(rows)
    ensures ys == Values(rows, x)
  {
    ys := [];
    for c := 0 to 16
      invariant |ys| == c
      invariant forall b :: 0 <= b < c ==> ys[b] == ValueAt(rows[b], x)
    {
      var y := PolyEval(rows[c], x);
      ys := ys + [y];
    }
  }

  /** One guardian: its x, its packed values, its unsigned envelope and its key entry. */
  method MakeShare(h: TextHash, req: Request, cm: Common, d: Derivation, rows: seq<seq<U32>>, used: set<nat>, i: nat)
    returns (x: Outcome<NonZero>, env: ShareEnvelope, key: KeyEntry)
    requires GuardiansMatch(req) && i < req.n && Rows(rows)
    ensures x == FirstFree(d, i + 1, GuardianId(req, i), used, 0)
    ensures x.Ok? ==> env == Draft(h, req, cm, rows, x.value, i) && key == KeyAt(h, req, x.value, i)
  {
    var index, id := i + 1, GuardianId(req, i);
    x := DeriveDistinctX(d, index, id, used);
    var meta := ShareMeta("", cm.guardianSet, cm.dealerPk, cm.rhoCommit, req.issuedAt, req.expiresAt);
    env := ShareEnvelope(SCHEME, req.id, cm.idHash, index, id, req.n, req.t, req.ver, req.epoch, SECRET_TYPE,
                         "", "", "", "", SIG_ALG, "", meta, true);
    key := KeyEntry(index, id, "");
    if x.Ok? {
      var yChunks := EvalRows(rows, x.value);
      var packed := PackYChunksHex(yChunks);
      var ui := UiOf(h, x.value);
      env := env.(xiHex := FieldToHex(x.value), yiHex := packed.value, uiHex := ui,
                  tagHex := TagOf(h, req, cm.idHash, index, ui));
      key := key.(uiHex := ui);
    }
  }

  lemma {:induction false} XsFailure(d: Derivation, req: Request, i: nat, n: nat, error: string)
    requires GuardiansMatch(req) && i <= n <= req.n && Xs(d, req, i) == Throw(error)
    ensures Xs(d, req, n) == Throw(error)
  {
    hide FirstFree, GuardianId;
    if i < n {
      XsFailure(d, req, i, n - 1, error);
    }
  }

  lemma {:induction false} SequenceFailure<T>(f: nat --> Outcome<T>, i: nat, n: nat, error: string)
    requires forall k :: 0 <= k < n ==> f.requires(k)
    requires i <= n && Sequence(f, i) == Throw(error)
    ensures Sequence(f, n) == Throw(error)
  {
    if i < n {
      SequenceFailure(f, i, n - 1, error);
    }
  }

  /** The drafts and keys made so far are those of the first guardians at `xs`. */
  ghost predicate Made(h: TextHash, req: Request, cm: Common, rows: seq<seq<nat>>, xs: seq<NonZero>,
                       envs: seq<ShareEnvelope>, keys: seq<KeyEntry>)
    requires GuardiansMatch(req) && Rows(rows)
  {
    && |xs| == |envs| == |keys| <= req.n
    && (forall k :: 0 <= k < |xs| ==> envs[k] == Draft(h, req, cm, rows, xs[k], k))
    && (forall k :: 0 <= k < |xs| ==> keys[k] == KeyAt(h, req, xs[k], k))
  }

  lemma MadeStep(h: TextHash, req: Request, cm: Common, rows: seq<seq<nat>>, xs: seq<NonZero>,
                 envs: seq<ShareEnvelope>, keys: seq<KeyEntry>, x: NonZero, env: ShareEnvelope, key: KeyEntry)
    requires GuardiansMatch(req) && Rows(rows) && |xs| < req.n && Made(h, req, cm, rows, xs, envs, keys)
    requires env == Draft(h, req, cm, rows, x, |xs|) && key == KeyAt(h, req, x, |xs|)
    ensures Made(h, req, cm, rows, xs + [x], envs + [env], keys + [key])
  {
    hide Draft, KeyAt;
    forall k | 0 <= k < |xs| + 1
      ensures (envs + [env])[k] == Draft(h, req, cm, rows, (xs + [x])[k], k)
    {
      if k < |xs| {
        assert envs[k] == Draft(h, req, cm, rows, xs[k], k);
      }
    }
  }

  lemma XsStep(d: Derivation, req: Request, i: nat, xs: seq<NonZero>, used: set<nat>, x: Outcome<NonZero>)
    requires GuardiansMatch(req) && i < req.n && Xs(d, req, i) == Ok(xs) && used == UsedX(xs)
    requires x == FirstFree(d, i + 1, GuardianId(req, i), used, 0)
    ensures x.Ok? ==> Xs(d, req, i + 1) == Ok(xs + [x.value])
    ensures x.Ok? ==> used + {x.value as nat} == UsedX(xs + [x.value])
    ensures x.Throw? ==> Xs(d, req, req.n) == Throw(x.error)
  {
    hide FirstFree, GuardianId;
    if x.Throw? {
      XsFailure(d, req, i + 1, req.n, x.error);
    }
  }

  /** All guardians in order; the set of used x values grows with them. */
  method MakeShares(h: TextHash, req: Request, cm: Common, d: Derivation, rows: seq<seq<U32>>)
    returns (failure: Option<string>, ghost xs: seq<NonZero>, envs: seq<ShareEnvelope>, keys: seq<KeyEntry>)
    requires GuardiansMatch(req) && Rows(rows)
    ensures failure.Some? ==> Xs(d, req, req.n) == Throw(failure.value)
    ensures failure.None? ==> Xs(d, req, req.n) == Ok(xs) && Made(h, req, cm, rows, xs, envs, keys)
  {
    xs, envs, keys, failure := [], [], [], None;
    var usedX: set<nat> := {};
    for i := 0 to req.n
      invariant Xs(d, req, i) == Ok(xs) && |xs| == i && usedX == UsedX(xs)
      invariant Made(h, req, cm, rows, xs, envs, keys)
    {
      var x, env, key := MakeShare(h, req, cm, d, rows, usedX, i);
      XsStep(d, req, i, xs, usedX, x);
      if x.Throw? {
        failure := Some(x.error);
        return;
      }
      MadeStep(h, req, cm, rows, xs, envs, keys, x.value, env, key);
      xs, envs, keys := xs + [x.value], envs + [env], keys + [key];
      usedX := usedX + {x.value as nat};
    }
  }

  lemma SignedDraft(h: TextHash, req: Request, cm: Common, rows: seq<seq<nat>>, x: NonZero, vkSetHash: string,
                    i: nat, draft: ShareEnvelope)
    requires GuardiansMatch(req) && i < req.n && Rows(rows) && draft == Draft(h, req, cm, rows, x, i)
    ensures Sign(h, WithVkSet(draft, vkSetHash), draft.meta.dealerPkHex) == Signed(h, req, cm, rows, x, vkSetHash, i)
  {
    assert draft.meta.dealerPkHex == cm.dealerPk;
  }

  /** The final pass: every envelope gets the set hash and its attestation. */
  method SealLoop(h: TextHash, req: Request, cm: Common, rows: seq<seq<U32>>, ghost xs: seq<NonZero>,
                  drafts: seq<ShareEnvelope>, keys: seq<KeyEntry>) returns (r: Outcome<Setup>)
    requires GuardiansMatch(req) && Rows(rows) && |xs| == req.n && Made(h, req, cm, rows, xs, drafts, keys)
    ensures r == Seal(h, req, cm, rows, xs)
  {
    assert keys == Keys(h, req, xs);
    var vkSetHash := VkSetHash(h, keys);
    if vkSetHash.Throw? {
      return Throw(vkSetHash.error);
    }
    var signer := (env: ShareEnvelope) => Sign(h, WithVkSet(env, vkSetHash.value), env.meta.dealerPkHex);
    var envs := SignLoop(signer, drafts);
    SignersAgree(h, req, cm, rows, xs, vkSetHash.value, drafts, signer);
    if envs.Throw? {
      return Throw(envs.error);
    }
    r := Ok(Setup(envs.value, keys, keys, vkSetHash.value, cm.rhoCommit));
  }

  lemma SignersAgree(h: TextHash, req: Request, cm: Common, rows: seq<seq<nat>>, xs: seq<NonZero>, vkSetHash: string,
                     drafts: seq<ShareEnvelope>, signer: ShareEnvelope -> Outcome<ShareEnvelope>)
    requires GuardiansMatch(req) && Rows(rows) && |xs| == |drafts| == req.n
    requires forall k :: 0 <= k < req.n ==> drafts[k] == Draft(h, req, cm, rows, xs[k], k)
    requires forall env :: signer(env) == Sign(h, WithVkSet(env, vkSetHash), env.meta.dealerPkHex)
    ensures Sequence(i requires 0 <= i < |drafts| => signer(drafts[i]), |drafts|)
            == Sequence(i requires 0 <= i < req.n => Signed(h, req, cm, rows, xs[i], vkSetHash, i), req.n)
  {
    hide Draft, Sign, Signed, WithVkSet, Sequence;
    forall k | 0 <= k < req.n ensures signer(drafts[k]) == Signed(h, req, cm, rows, xs[k], vkSetHash, k) {
      SignedDraft(h, req, cm, rows, xs[k], vkSetHash, k, drafts[k]);
    }
    SequenceSame(i requires 0 <= i < |drafts| => signer(drafts[i]),
                 i requires 0 <= i < req.n => Signed(h, req, cm, rows, xs[i], vkSetHash, i), req.n);
  }

  lemma {:induction false} SequenceSame<T>(f: nat --> Outcome<T>, g: nat --> Outcome<T>, n: nat)
    requires forall k :: 0 <= k < n ==> f.requires(k) && g.requires(k) && f(k) == g(k)
    ensures Sequence(f, n) == Sequence(g, n)
  {
    if n > 0 {
      SequenceSame(f, g, n - 1);
    }
  }

  method SignLoop(signer: ShareEnvelope -> Outcome<ShareEnvelope>, drafts: seq<ShareEnvelope>)
    returns (r: Outcome<seq<ShareEnvelope>>)
    ensures r == Sequence(i requires 0 <= i < |drafts| => signer(drafts[i]), |drafts|)
  {
    ghost var sign: nat --> Outcome<ShareEnvelope> := i requires 0 <= i < |drafts| => signer(drafts[i]);
    var envs: seq<ShareEnvelope> := [];
    for i := 0 to |drafts|
      invariant Sequence(sign, i) == Ok(envs)
    {
      var env := signer(drafts[i]);
      SequenceTurn(sign, |drafts|, i, envs, env);
      if env.Throw? {
        return Throw(env.error);
      }
      envs := envs + [env.value];
    }
    r := Ok(envs);
  }

  lemma SequenceTurn<T>(f: nat --> Outcome<T>, n: nat, i: nat, before: seq<T>, last: Outcome<T>)
    requires forall k :: 0 <= k < n ==> f.requires(k)
    requires i < n && Sequence(f, i) == Ok(before) && last == f(i)
    ensures last.Ok? ==> Sequence(f, i + 1) == Ok(before + [last.value])
    ensures last.Throw? ==> Sequence(f, n) == Throw(last.error)
  {
    if last.Throw? {
      SequenceFailure(f, i + 1, n, last.error);
    }
  }

  method ShareNitsShamir(h: TextHash, req: Request) returns (r: Outcome<Setup>)
    ensures r == Share(h, req)
  {
    if req.n < 2 || req.t < 2 || req.t > req.n {
      return Throw("bad_threshold");
    }
    if |req.guardianIds| != 0 && |req.guardianIds| != req.n {
      return Throw("guardian_count_mismatch");
    }
    var rho := NormalizeDigest(req.rhoSeed);
    if rho.Throw? {
      return Throw(rho.error);
    }
    var chunks := SplitSeedHex(req.seed);
    if chunks.Throw? {
      return Throw(chunks.error);
    }
    var cm := CommonOf(h, req, rho.value);
    if cm.Throw? {
      return Throw(cm.error);
    }
    r := ShareChunksLoop(h, req, DerivationOf(h, rho.value, cm.value.idHash, req.ver, req.epoch), chunks.value, cm.value);
  }

  method ShareChunksLoop(h: TextHash, req: Request, d: Derivation, chunks: seq<U32>, cm: Common) returns (r: Outcome<Setup>)
    requires |chunks| == 16 && req.t >= 1 && GuardiansMatch(req)
    ensures r == ShareChunks(h, req, d, chunks, cm)
  {
    var rows := BuildRows(d, chunks, req.t);
    var failure, xs, envs, keys := MakeShares(h, req, cm, d, rows);
    if failure.Some? {
      return Throw(failure.value);
    }
    r := SealLoop(h, req, cm, rows, xs, envs, keys);
  }
}
