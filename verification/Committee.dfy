/** One committee node: its two indexes, and the requests that change or read them under the node's lock. */
module Committee {
  import opened Outcomes
  import opened Hex
  import opened ShareField
  import opened Envelope

  datatype Stored = Stored(
    env: ShareEnvelope, shareKey: string, storedAtMs: nat, invalidatedAtMs: nat, invalidatedReason: string)

  /** The two indexes; a version lists its share keys in insertion order, repeats included. */
  datatype Node = Node(shares: map<string, Stored>, byVersion: map<string, seq<string>>)

  // ----- keys -----

  function Tagged(s: string, n: nat): string
  {
    s + ":" + Decimal(n)
  }

  /** Made from the raw digest text. */
  function ShareKey(env: ShareEnvelope): string
  {
    Tagged(Tagged(Tagged(env.idHash, env.ver), env.epoch), env.guardianIndex)
  }

  /** Made from the normalised digest text. */
  function VersionKey(idHash: string, ver: U64, epoch: U64): Outcome<string>
  {
    var digest :- NormalizeDigest(idHash);
    Ok(Tagged(Tagged(digest, ver), epoch))
  }

  function LookupKey(idHash: string, ver: U64, epoch: U64, guardianIndex: U32): Outcome<string>
  {
    var version :- VersionKey(idHash, ver, epoch);
    Ok(Tagged(version, guardianIndex))
  }

  function VersionOf(env: ShareEnvelope): Outcome<string>
  {
    VersionKey(env.idHash, env.ver, env.epoch)
  }

  /** The number after the last colon can be split off. */
  lemma TaggedInjective(a: string, m: nat, b: string, n: nat)
    requires Tagged(a, m) == Tagged(b, n)
    ensures a == b && m == n
  {
    hide Decimal;
    var s, d, e := a + ":" + Decimal(m), Decimal(m), Decimal(n);
    assert s[|a|] == ':' && s[|b|] == ':';
    assert forall i :: 0 <= i < |d| ==> s[|a| + 1 + i] == d[i];
    assert forall i :: 0 <= i < |e| ==> s[|b| + 1 + i] == e[i];
    if |a| == |b| {
      assert a == s[..|a|] == b;
      assert d == s[|a| + 1..] == e;
      DecimalInjective(m, n);
    }
  }

  /** A share key determines the raw digest text, the version, the epoch and the guardian. */
  lemma ShareKeyInjective(a: ShareEnvelope, b: ShareEnvelope)
    requires ShareKey(a) == ShareKey(b)
    ensures a.idHash == b.idHash && a.ver == b.ver && a.epoch == b.epoch && a.guardianIndex == b.guardianIndex
  {
    hide Tagged;
    TaggedInjective(Tagged(Tagged(a.idHash, a.ver), a.epoch), a.guardianIndex,
                    Tagged(Tagged(b.idHash, b.ver), b.epoch), b.guardianIndex);
    TaggedInjective(Tagged(a.idHash, a.ver), a.epoch, Tagged(b.idHash, b.ver), b.epoch);
    TaggedInjective(a.idHash, a.ver, b.idHash, b.ver);
  }

  /** A version key determines the normalised digest, the version and the epoch. */
  lemma VersionKeyInjective(a: string, ver: U64, epoch: U64, b: string, ver': U64, epoch': U64)
    requires VersionKey(a, ver, epoch).Ok? && VersionKey(a, ver, epoch) == VersionKey(b, ver', epoch')
    ensures NormalizeDigest(a) == NormalizeDigest(b) && ver == ver' && epoch == epoch'
  {
    hide Tagged, NormalizeDigest;
    var d, e := NormalizeDigest(a).value, NormalizeDigest(b).value;
    TaggedInjective(Tagged(d, ver), epoch, Tagged(e, ver'), epoch');
    TaggedInjective(d, ver, e, ver');
  }

  /**
   Looking up by guardian finds only a share whose raw digest text is the
   normalised one: a share stored with another spelling is not reachable this way.
   */
  lemma LookupIsNormalised(env: ShareEnvelope, idHash: string, ver: U64, epoch: U64, guardianIndex: U32)
    requires NormalizeDigest(idHash).Ok?
    ensures LookupKey(idHash, ver, epoch, guardianIndex) == Ok(ShareKey(env)) <==>
            && env.idHash == NormalizeDigest(idHash).value
            && env.ver == ver && env.epoch == epoch && env.guardianIndex == guardianIndex
  {
    hide Tagged, NormalizeDigest;
    var d := NormalizeDigest(idHash).value;
    if Tagged(Tagged(Tagged(d, ver), epoch), guardianIndex) == ShareKey(env) {
      TaggedInjective(Tagged(Tagged(d, ver), epoch), guardianIndex, Tagged(Tagged(env.idHash, env.ver), env.epoch), env.guardianIndex);
      TaggedInjective(Tagged(d, ver), epoch, Tagged(env.idHash, env.ver), env.epoch);
      TaggedInjective(d, ver, env.idHash, env.ver);
    }
  }

  // ----- the node as a value -----

  function KeysOf(node: Node, version: string): seq<string>
  {
    if version in node.byVersion then node.byVersion[version] else []
  }

  /**
   The invariant of both indexes: a stored share is listed under its normalised
   version, and everything listed is stored under that version.
   */
  ghost predicate Indexed(node: Node)
  {
    && (forall k :: k in node.shares ==> ShareIndexed(node, k))
    && (forall v, k :: v in node.byVersion && k in node.byVersion[v] ==>
          k in node.shares && VersionOf(node.shares[k].env) == Ok(v))
  }

  ghost predicate ShareIndexed(node: Node, k: string)
    requires k in node.shares
  {
    var stored := node.shares[k];
    && stored.shareKey == k == ShareKey(stored.env)
    && VersionOf(stored.env).Ok? && k in KeysOf(node, VersionOf(stored.env).value)
  }

  /** The active shares of a version. */
  function ActiveOf(node: Node, version: string): set<string>
  {
    set k | k in node.shares && node.shares[k].env.active && VersionOf(node.shares[k].env) == Ok(version)
  }

  function WithShare(node: Node, env: ShareEnvelope, version: string, now: nat): Node
  {
    var key := ShareKey(env);
    Node(node.shares[key := Stored(env, key, now, 0, "")], node.byVersion[version := KeysOf(node, version) + [key]])
  }

  function SwitchedOff(stored: Stored, reason: string, now: nat): Stored
  {
    stored.(env := stored.env.(active := false), invalidatedAtMs := now, invalidatedReason := reason)
  }

  /** The active shares among `keys` are switched off, everything else stays. */
  function Swept(shares: map<string, Stored>, keys: seq<string>, reason: string, now: nat): map<string, Stored>
  {
    map k | k in shares ::
      if k in keys && shares[k].env.active then SwitchedOff(shares[k], reason, now) else shares[k]
  }

  function WithoutVersion(node: Node, version: string, reason: string, now: nat): Node
  {
    node.(shares := Swept(node.shares, KeysOf(node, version), reason, now))
  }

  function ActiveIn(shares: map<string, Stored>, keys: seq<string>): set<string>
  {
    set k | k in keys && k in shares && shares[k].env.active
  }

  lemma WithShareIndexed(node: Node, env: ShareEnvelope, version: string, now: nat)
    requires Indexed(node) && VersionOf(env) == Ok(version)
    ensures Indexed(WithShare(node, env, version, now))
  {
    hide VersionOf, ShareKey;
    var next, key := WithShare(node, env, version, now), ShareKey(env);
    forall k | k in next.shares ensures ShareIndexed(next, k) {
      if k != key {
        assert ShareIndexed(node, k);
      }
    }
    forall v, k | v in next.byVersion && k in next.byVersion[v]
      ensures k in next.shares && VersionOf(next.shares[k].env) == Ok(v)
    {
      if k == key && !(v == version && k == (KeysOf(node, version) + [key])[|KeysOf(node, version)|]) {
        assert k in node.byVersion[v];
      }
      if k == key && k in node.shares {
        assert ShareIndexed(node, k);
        SameKeySameVersion(node.shares[k].env, env);
      }
    }
  }

  lemma SameKeySameVersion(a: ShareEnvelope, b: ShareEnvelope)
    requires ShareKey(a) == ShareKey(b)
    ensures VersionOf(a) == VersionOf(b)
  {
    hide VersionKey, ShareKey;
    ShareKeyInjective(a, b);
  }

  lemma WithoutVersionIndexed(node: Node, version: string, reason: string, now: nat)
    requires Indexed(node)
    ensures Indexed(WithoutVersion(node, version, reason, now))
  {
    hide VersionKey, Tagged;
    var next := WithoutVersion(node, version, reason, now);
    forall k | k in next.shares ensures ShareIndexed(next, k) {
      assert ShareIndexed(node, k);
      SameVersionOff(node.shares[k].env);
    }
    forall v, k | v in next.byVersion && k in next.byVersion[v]
      ensures k in next.shares && VersionOf(next.shares[k].env) == Ok(v)
    {
      assert k in node.byVersion[v];
      SameVersionOff(node.shares[k].env);
    }
  }

  lemma SameVersionOff(env: ShareEnvelope)
    ensures ShareKey(env.(active := false)) == ShareKey(env) && VersionOf(env.(active := false)) == VersionOf(env)
  {
    hide VersionKey, Tagged;
  }

  /** Invalidation leaves nothing active in the version, and touches no other share. */
  lemma NothingActiveLeft(node: Node, version: string, reason: string, now: nat)
    requires Indexed(node)
    ensures ActiveOf(WithoutVersion(node, version, reason, now), version) == {}
    ensures forall v :: v != version ==> ActiveOf(WithoutVersion(node, version, reason, now), v) == ActiveOf(node, v)
    ensures forall k :: k in node.shares && VersionOf(node.shares[k].env) != Ok(version) ==>
              WithoutVersion(node, version, reason, now).shares[k] == node.shares[k]
  {
    hide VersionOf, ShareKey;
    var next := WithoutVersion(node, version, reason, now);
    forall k | k in node.shares
      ensures ShareIndexed(node, k) && VersionOf(next.shares[k].env) == VersionOf(node.shares[k].env)
      ensures k in KeysOf(node, version) <==> VersionOf(node.shares[k].env) == Ok(version)
    {
      assert ShareIndexed(node, k);
      SameVersionOff(node.shares[k].env);
      if k in KeysOf(node, version) {
        assert k in node.byVersion[version];
      }
    }
  }

  /** An active share of the version keeps all but its active flag and notes when and why; the others of the version stay. */
  lemma InvalidatedRecord(node: Node, version: string, reason: string, now: nat, k: string)
    requires Indexed(node) && k in node.shares && VersionOf(node.shares[k].env) == Ok(version)
    ensures k in WithoutVersion(node, version, reason, now).shares
    ensures var before, after := node.shares[k], WithoutVersion(node, version, reason, now).shares[k];
            if before.env.active then
              && !after.env.active && after.env.(active := true) == before.env
              && after.invalidatedAtMs == now && after.invalidatedReason == reason
              && after.shareKey == before.shareKey && after.storedAtMs == before.storedAtMs
            else after == before
  {
    hide VersionOf, ShareKey;
    assert ShareIndexed(node, k);
  }

  /** The listed active keys are the active shares of the version: repeats do not matter. */
  lemma ListedIsActive(node: Node, version: string)
    requires Indexed(node)
    ensures ActiveIn(node.shares, KeysOf(node, version)) == ActiveOf(node, version)
  {
    hide VersionOf, ShareKey;
    forall k | k in node.shares ensures ShareIndexed(node, k) {
    }
    forall k | k in ActiveIn(node.shares, KeysOf(node, version)) ensures k in ActiveOf(node, version) {
      assert k in node.byVersion[version];
    }
  }

  // ----- what a node accepts -----

  datatype Admission = Admitted(env: ShareEnvelope) | Turned(reason: string)

  /** A document is parsed, then its attestation is verified; the second check may itself throw. */
  function Admit(h: TextHash, doc: Doc): Outcome<Admission>
  {
    var parsed := FromDoc(doc);
    if parsed.Throw? then Ok(Turned(parsed.error)) else
      var check :- Verify(h, parsed.value);
      Ok(if check.Pass? then Admitted(parsed.value) else Turned("share_verify_failed"))
  }

  /** What is admitted has a version key. */
  lemma AdmittedHasVersion(h: TextHash, doc: Doc)
    requires Admit(h, doc).Ok? && Admit(h, doc).value.Admitted?
    ensures Verifies(h, Admit(h, doc).value.env) && VersionOf(Admit(h, doc).value.env).Ok?
  {
    hide Tagged, NormalizeDigest, Verify, FromDoc;
    var env := Admit(h, doc).value.env;
    assert Verify(h, env) == Ok(Pass);
    VerifiedDigest(h, env);
  }

  lemma VerifiedDigest(h: TextHash, env: ShareEnvelope)
    requires Verify(h, env) == Ok(Pass)
    ensures Verifies(h, env) && NormalizeDigest(env.idHash).Ok?
  {
    hide NormalizeDigest, Verify;
    VerifyingParts(h, env);
    DigestOfCanon(RawCanon(env));
  }

  lemma DigestOfCanon(raw: Canon)
    requires NormalizeCanon(raw).Ok?
    ensures NormalizeDigest(raw.idHash).Ok?
  {
    hide NormalizeDigest;
    CanonFields(s => NormalizeDigest(s), raw);
  }

  /** Storing a document: what is turned away, or throws, changes nothing. */
  function AfterSet(h: TextHash, node: Node, doc: Doc, now: nat): Node
  {
    var admission := Admit(h, doc);
    if admission.Ok? && admission.value.Admitted? && VersionOf(admission.value.env).Ok?
    then WithShare(node, admission.value.env, VersionOf(admission.value.env).value, now)
    else node
  }

  function AfterInvalidate(node: Node, idHash: string, ver: U64, epoch: U64, reason: string, now: nat): Node
  {
    var version := VersionKey(idHash, ver, epoch);
    if idHash == "" || epoch == 0 || version.Throw? then node
    else WithoutVersion(node, version.value, reason, now)
  }

  datatype Reply =
    | BadArgs | NoShare | NoActiveShare | ShareInactive
    | Found(stored: Stored)

  datatype MetaReply = BadMetaArgs | NoShareMeta | Meta(stored: Stored)

  function MetaOf(node: Node, idHash: string, ver: U64, epoch: U64, guardianIndex: U32): Outcome<MetaReply>
  {
    if idHash == "" || epoch == 0 || guardianIndex == 0 then Ok(BadMetaArgs) else
      var key :- LookupKey(idHash, ver, epoch, guardianIndex);
      Ok(if key in node.shares then Meta(node.shares[key]) else NoShareMeta)
  }

  datatype SetReply = NotStored(reason: string) | StoredAs(shareKey: string, active: bool)

  datatype InvalidateReply = InvalidArgs | Invalidated(count: nat)

  /** The share of one guardian for the normalised digest, the version and the epoch. */
  predicate IsShareFor(env: ShareEnvelope, idHash: string, ver: U64, epoch: U64, guardianIndex: U32)
  {
    NormalizeDigest(idHash) == Ok(env.idHash) && env.ver == ver && env.epoch == epoch && env.guardianIndex == guardianIndex
  }

  /** In a node with consistent indexes, the lookup key is stored exactly with the guardian's share. */
  lemma LookupFinds(node: Node, idHash: string, ver: U64, epoch: U64, guardianIndex: U32)
    requires Indexed(node)
    ensures LookupKey(idHash, ver, epoch, guardianIndex).Throw? <==> NormalizeDigest(idHash).Throw?
    ensures forall k :: k in node.shares ==>
              (IsShareFor(node.shares[k].env, idHash, ver, epoch, guardianIndex)
               <==> LookupKey(idHash, ver, epoch, guardianIndex) == Ok(k))
  {
    hide Tagged, NormalizeDigest, ShareKey, VersionOf, LookupKey;
    LookupThrows(idHash, ver, epoch, guardianIndex);
    forall k | k in node.shares
      ensures IsShareFor(node.shares[k].env, idHash, ver, epoch, guardianIndex)
         <==> LookupKey(idHash, ver, epoch, guardianIndex) == Ok(k)
    {
      assert ShareIndexed(node, k);
      if NormalizeDigest(idHash).Ok? {
        LookupIsNormalised(node.shares[k].env, idHash, ver, epoch, guardianIndex);
      }
    }
  }

  lemma LookupThrows(idHash: string, ver: U64, epoch: U64, guardianIndex: U32)
    ensures LookupKey(idHash, ver, epoch, guardianIndex).Throw? <==> NormalizeDigest(idHash).Throw?
  {
    hide Tagged, NormalizeDigest;
  }

  // ----- the node in place -----

  class CommitteeStore {
    var ttssShares: map<string, Stored>
    var byVersion: map<string, seq<string>>

    function Value(): Node
      reads this
    {
      Node(ttssShares, byVersion)
    }

    constructor ()
      ensures Value() == Node(map[], map[]) && Indexed(Value())
    {
      ttssShares := map[];
      byVersion := map[];
    }

    method SetShareEnvelope(h: TextHash, doc: Doc, now: nat) returns (r: Outcome<SetReply>)
      requires Indexed(Value())
      modifies this
      ensures Indexed(Value()) && Value() == AfterSet(h, old(Value()), doc, now)
      ensures Admit(h, doc).Throw? <==> r.Throw?
      ensures r.Ok? && r.value.StoredAs? <==> Admit(h, doc).Ok? && Admit(h, doc).value.Admitted?
      ensures r.Ok? && r.value.StoredAs? ==>
                && r.value.shareKey == ShareKey(Admit(h, doc).value.env)
                && r.value.shareKey in ttssShares
                && ttssShares[r.value.shareKey].env == Admit(h, doc).value.env
    {
      hide Admit, VersionOf, ShareKey, Indexed, Verifies;
      var admission := Admit(h, doc);
      if admission.Throw? {
        return Throw(admission.error);
      }
      if admission.value.Turned? {
        return Ok(NotStored(admission.value.reason));
      }
      var env := admission.value.env;
      AdmittedHasVersion(h, doc);
      var version := VersionOf(env).value;
      WithShareIndexed(Value(), env, version, now);
      var shareKey := ShareKey(env);
      ttssShares := ttssShares[shareKey := Stored(env, shareKey, now, 0, "")];
      byVersion := byVersion[version := (if version in byVersion then byVersion[version] else []) + [shareKey]];
      r := Ok(StoredAs(shareKey, env.active));
    }

    method InvalidateShares(idHash: string, ver: U64, epoch: U64, reason: string, now: nat)
      returns (r: Outcome<InvalidateReply>)
      requires Indexed(Value())
      modifies this`ttssShares
      ensures Indexed(Value()) && Value() == AfterInvalidate(old(Value()), idHash, ver, epoch, reason, now)
      ensures r == Ok(InvalidArgs) <==> idHash == "" || epoch == 0
      ensures idHash != "" && epoch != 0 ==>
                match VersionKey(idHash, ver, epoch)
                case Throw(e) => r == Throw(e)
                case Ok(version) => r == Ok(Invalidated(|ActiveOf(old(Value()), version)|)) && ActiveOf(Value(), version) == {}
    {
      hide VersionKey, Indexed, ShareKey, ActiveOf;
      if idHash == "" || epoch == 0 {
        return Ok(InvalidArgs);
      }
      var key := VersionKey(idHash, ver, epoch);
      if key.Throw? {
        return Throw(key.error);
      }
      ghost var node := Value();
      var keys := if key.value in byVersion then byVersion[key.value] else [];
      var count := Sweep(keys, reason, now);
      WithoutVersionIndexed(node, key.value, reason, now);
      NothingActiveLeft(node, key.value, reason, now);
      ListedIsActive(node, key.value);
      r := Ok(Invalidated(count));
    }

    /** Every listed share that is still active is switched off and counted once. */
    method Sweep(keys: seq<string>, reason: string, now: nat) returns (invalidated: nat)
      modifies this`ttssShares
      ensures ttssShares == Swept(old(ttssShares), keys, reason, now)
      ensures invalidated == |ActiveIn(old(ttssShares), keys)|
    {
      ghost var shares := ttssShares;
      invalidated := 0;
      var i := 0;
      SweptNothing(shares, reason, now);
      while i < |keys|
        invariant 0 <= i <= |keys|
        invariant ttssShares == Swept(shares, keys[..i], reason, now)
        invariant invalidated == |ActiveIn(shares, keys[..i])|
      {
        SweepStep(shares, keys, i, reason, now);
        var k := keys[i];
        if k in ttssShares && ttssShares[k].env.active {
          ttssShares := ttssShares[k := SwitchedOff(ttssShares[k], reason, now)];
          invalidated := invalidated + 1;
        }
        i := i + 1;
      }
      assert keys[..i] == keys;
    }

    /** A request by guardian index, or for any active share of the version when the index is 0. */
    method FindRequestedEnvelope(idHash: string, ver: U64, epoch: U64, guardianIndex: U32) returns (r: Outcome<Reply>)
      requires Indexed(Value())
      ensures Serves(Value(), idHash, ver, epoch, guardianIndex, r)
    {
      hide VersionKey, Indexed;
      if idHash == "" || epoch == 0 {
        return Ok(BadArgs);
      }
      if guardianIndex != 0 {
        var key := LookupKey(idHash, ver, epoch, guardianIndex);
        if key.Throw? {
          return Throw(key.error);
        }
        if key.value !in ttssShares {
          return Ok(NoShare);
        }
        if !ttssShares[key.value].env.active {
          return Ok(ShareInactive);
        }
        return Ok(Found(ttssShares[key.value]));
      }
      var version := VersionKey(idHash, ver, epoch);
      if version.Throw? {
        return Throw(version.error);
      }
      r := FirstActive(version.value);
    }

    /** The state of one guardian's share, active or not. */
    method ShareMeta(idHash: string, ver: U64, epoch: U64, guardianIndex: U32) returns (r: Outcome<MetaReply>)
      requires Indexed(Value())
      ensures r == Ok(BadMetaArgs) <==> idHash == "" || epoch == 0 || guardianIndex == 0
      ensures r.Throw? <==> r != Ok(BadMetaArgs) && NormalizeDigest(idHash).Throw?
      ensures r.Ok? && r.value.Meta? ==>
                exists k :: k in ttssShares && ttssShares[k] == r.value.stored
                  && IsShareFor(ttssShares[k].env, idHash, ver, epoch, guardianIndex)
      ensures r == Ok(NoShareMeta) ==>
                forall k :: k in ttssShares ==> !IsShareFor(ttssShares[k].env, idHash, ver, epoch, guardianIndex)
      ensures r == MetaOf(Value(), idHash, ver, epoch, guardianIndex)
    {
      hide LookupKey, Indexed, IsShareFor, NormalizeDigest;
      if idHash == "" || epoch == 0 || guardianIndex == 0 {
        return Ok(BadMetaArgs);
      }
      var key := LookupKey(idHash, ver, epoch, guardianIndex);
      LookupFinds(Value(), idHash, ver, epoch, guardianIndex);
      if key.Throw? {
        return Throw(key.error);
      }
      if key.value !in ttssShares {
        return Ok(NoShareMeta);
      }
      r := Ok(Meta(ttssShares[key.value]));
    }

    method FirstActive(version: string) returns (r: Outcome<Reply>)
      requires Indexed(Value())
      ensures r == Ok(NoActiveShare) || (r.Ok? && r.value.Found?)
      ensures r == Ok(NoActiveShare) <==> ActiveOf(Value(), version) == {}
      ensures r.Ok? && r.value.Found? ==> ServesShare(Value(), version, r.value.stored)
    {
      hide VersionOf, ShareKey, Indexed, ActiveOf;
      ListedIsActive(Value(), version);
      var keys := if version in byVersion then byVersion[version] else [];
      var i := 0;
      while i < |keys|
        invariant 0 <= i <= |keys|
        invariant forall j :: 0 <= j < i ==> keys[j] !in ActiveIn(ttssShares, keys)
      {
        if keys[i] in ttssShares && ttssShares[keys[i]].env.active {
          assert keys[i] in ActiveIn(ttssShares, keys);
          return Ok(Found(ttssShares[keys[i]]));
        }
        i := i + 1;
      }
      r := Ok(NoActiveShare);
    }
  }

  lemma SweptNothing(shares: map<string, Stored>, reason: string, now: nat)
    ensures Swept(shares, [], reason, now) == shares && ActiveIn(shares, []) == {}
  {
  }

  /** One more key: a repeat, an unknown key or an inactive share changes nothing. */
  lemma SweepStep(shares: map<string, Stored>, keys: seq<string>, i: nat, reason: string, now: nat)
    requires i < |keys|
    ensures var before, k := Swept(shares, keys[..i], reason, now), keys[i];
            && (k in before && before[k].env.active ==>
                  && Swept(shares, keys[..i + 1], reason, now) == before[k := SwitchedOff(before[k], reason, now)]
                  && |ActiveIn(shares, keys[..i + 1])| == |ActiveIn(shares, keys[..i])| + 1)
            && (!(k in before && before[k].env.active) ==>
                  && Swept(shares, keys[..i + 1], reason, now) == before
                  && ActiveIn(shares, keys[..i + 1]) == ActiveIn(shares, keys[..i]))
  {
    var before, after, k := Swept(shares, keys[..i], reason, now), Swept(shares, keys[..i + 1], reason, now), keys[i];
    assert keys[..i + 1] == keys[..i] + [k];
    if k in before && before[k].env.active {
      assert k !in keys[..i];
      assert ActiveIn(shares, keys[..i + 1]) == ActiveIn(shares, keys[..i]) + {k};
    }
  }

  /** A stored share of the version, active. */
  predicate ServesShare(node: Node, version: string, stored: Stored)
  {
    exists k :: k in ActiveOf(node, version) && node.shares[k] == stored
  }

  /** What a request may be answered with. */
  predicate Serves(node: Node, idHash: string, ver: U64, epoch: U64, guardianIndex: U32, r: Outcome<Reply>)
  {
    if idHash == "" || epoch == 0 then r == Ok(BadArgs)
    else if VersionKey(idHash, ver, epoch).Throw? then r.Throw?
    else if guardianIndex != 0 then r == Ok(ByGuardian(node, LookupKey(idHash, ver, epoch, guardianIndex).value))
    else
      var version := VersionKey(idHash, ver, epoch).value;
      if ActiveOf(node, version) == {} then r == Ok(NoActiveShare)
      else r.Ok? && r.value.Found? && ServesShare(node, version, r.value.stored)
  }

  function ByGuardian(node: Node, key: string): Reply
  {
    if key !in node.shares then NoShare
    else if !node.shares[key].env.active then ShareInactive
    else Found(node.shares[key])
  }

  /** Whatever is served is an active share of the version asked for. */
  lemma ServedIsActive(node: Node, idHash: string, ver: U64, epoch: U64, guardianIndex: U32, r: Outcome<Reply>)
    requires Indexed(node) && Serves(node, idHash, ver, epoch, guardianIndex, r) && r.Ok? && r.value.Found?
    ensures VersionKey(idHash, ver, epoch).Ok?
    ensures ServesShare(node, VersionKey(idHash, ver, epoch).value, r.value.stored)
    ensures guardianIndex != 0 ==>
              r.value.stored.env.guardianIndex == guardianIndex
              && r.value.stored.env.idHash == NormalizeDigest(idHash).value
  {
    hide VersionKey, Tagged, NormalizeDigest;
    if guardianIndex != 0 {
      var key := LookupKey(idHash, ver, epoch, guardianIndex).value;
      assert ShareIndexed(node, key);
      var env := node.shares[key].env;
      GuardianVersion(env, idHash, ver, epoch, guardianIndex);
      assert key in ActiveOf(node, VersionKey(idHash, ver, epoch).value);
    }
  }

  lemma GuardianVersion(env: ShareEnvelope, idHash: string, ver: U64, epoch: U64, guardianIndex: U32)
    requires LookupKey(idHash, ver, epoch, guardianIndex) == Ok(ShareKey(env))
    ensures VersionOf(env) == VersionKey(idHash, ver, epoch)
    ensures env.guardianIndex == guardianIndex && NormalizeDigest(idHash) == Ok(env.idHash)
  {
    hide Tagged, NormalizeDigest;
    LookupIsNormalised(env, idHash, ver, epoch, guardianIndex);
    DigestIdempotent(idHash);
  }

  /** A document that spells every field as the envelope does. */
  function RawDoc(env: ShareEnvelope): Doc
  {
    DocOf(env, RawCanon(env), env.xiHex, env.yiHex, env.sigmaHex)
  }

  lemma AdmitRaw(h: TextHash, env: ShareEnvelope)
    requires Verifies(h, env)
    ensures Admit(h, RawDoc(env)) == Ok(Admitted(env))
  {
    VerifyingParts(h, env);
    assert DocFields(RawDoc(env)) == env;
  }

  /** The attested share with its identity digest spelt `0x1`. */
  function WithShortDigest(h: TextHash, env: ShareEnvelope): Outcome<ShareEnvelope>
  {
    Sign(h, env.(idHash := "0x1"), env.meta.dealerPkHex)
  }

  /**
   A dealer may attest a share under an unpadded digest. It is admitted and becomes
   an active share of its version, and no request by guardian, however the digest
   is spelt there, finds it.
   */
  lemma ShortDigestUnreachable(h: TextHash, node: Node, env: ShareEnvelope, now: nat)
    requires Indexed(node) && Verifies(h, env) && env.active
    ensures WithShortDigest(h, env).Ok?
    ensures var share := WithShortDigest(h, env).value;
            var next := AfterSet(h, node, RawDoc(share), now);
            && VersionOf(share) == VersionKey("0x1", env.ver, env.epoch) && VersionOf(share).Ok?
            && ShareKey(share) in ActiveOf(next, VersionOf(share).value) && next.shares[ShareKey(share)].env == share
            && forall idHash, ver, epoch, g :: LookupKey(idHash, ver, epoch, g) != Ok(ShareKey(share))
  {
    hide NormalizeDigest, IsHexString, Verify, Sign, Admit, RawDoc, ShareKey, LookupKey, ActiveOf;
    OneDigit();
    VerifyingParts(h, env);
    ValidFields(s => IsHexString(s), env);
    SignedAgain(h, env, "0x1", env.xiHex);
    var share := WithShortDigest(h, env).value;
    AdmitRaw(h, share);
    AdmittedHasVersion(h, RawDoc(share));
    SetChangesOneShare(node, share, VersionOf(share).value, now, VersionOf(share).value);
    forall idHash, ver, epoch, g ensures LookupKey(idHash, ver, epoch, g) != Ok(ShareKey(share)) {
      LookupThrows(idHash, ver, epoch, g);
      if NormalizeDigest(idHash).Ok? {
        LookupIsNormalised(share, idHash, ver, epoch, g);
        DigestIdempotent(idHash);
      }
    }
  }

  /** After invalidation a version serves nothing, under any request. */
  lemma InvalidatedServesNothing(node: Node, idHash: string, ver: U64, epoch: U64, guardianIndex: U32, r: Outcome<Reply>)
    requires Indexed(node) && VersionKey(idHash, ver, epoch).Ok?
    requires ActiveOf(node, VersionKey(idHash, ver, epoch).value) == {}
    requires Serves(node, idHash, ver, epoch, guardianIndex, r)
    ensures !(r.Ok? && r.value.Found?)
  {
    hide VersionKey, Tagged, NormalizeDigest;
    if r.Ok? && r.value.Found? {
      ServedIsActive(node, idHash, ver, epoch, guardianIndex, r);
    }
  }

  // ----- runs of one node -----

  datatype Op =
    | SetOp(doc: Doc, now: nat)
    | InvalidateOp(idHash: string, ver: U64, epoch: U64, reason: string, now: nat)

  function After(h: TextHash, node: Node, op: Op): Node
  {
    match op
    case SetOp(doc, now) => AfterSet(h, node, doc, now)
    case InvalidateOp(idHash, ver, epoch, reason, now) => AfterInvalidate(node, idHash, ver, epoch, reason, now)
  }

  function AfterAll(h: TextHash, node: Node, ops: seq<Op>): Node
  {
    if ops == [] then node else After(h, AfterAll(h, node, ops[..|ops| - 1]), ops[|ops| - 1])
  }

  /** The operation stores an active share of the version. */
  predicate Revives(h: TextHash, op: Op, version: string)
  {
    op.SetOp? && var a := Admit(h, op.doc);
    a.Ok? && a.value.Admitted? && a.value.env.active && VersionOf(a.value.env) == Ok(version)
  }

  lemma AfterIndexed(h: TextHash, node: Node, op: Op)
    requires Indexed(node)
    ensures Indexed(After(h, node, op))
  {
    hide Admit, VersionOf, ShareKey, VersionKey, Indexed;
    match op
    case SetOp(doc, now) =>
      var a := Admit(h, doc);
      if a.Ok? && a.value.Admitted? && VersionOf(a.value.env).Ok? {
        WithShareIndexed(node, a.value.env, VersionOf(a.value.env).value, now);
      }
    case InvalidateOp(idHash, ver, epoch, reason, now) =>
      if VersionKey(idHash, ver, epoch).Ok? {
        WithoutVersionIndexed(node, VersionKey(idHash, ver, epoch).value, reason, now);
      }
  }

  /** Storing a share makes exactly that share active or inactive, in its own version only. */
  lemma SetChangesOneShare(node: Node, env: ShareEnvelope, version: string, now: nat, v: string)
    requires Indexed(node) && VersionOf(env) == Ok(version)
    ensures ActiveOf(WithShare(node, env, version, now), v)
         == if v != version then ActiveOf(node, v)
            else if env.active then ActiveOf(node, v) + {ShareKey(env)} else ActiveOf(node, v) - {ShareKey(env)}
  {
    hide VersionOf, ShareKey;
    var next, key := WithShare(node, env, version, now), ShareKey(env);
    if key in node.shares {
      assert ShareIndexed(node, key);
      SameKeySameVersion(node.shares[key].env, env);
    }
    forall k | k != key ensures k in ActiveOf(next, v) <==> k in ActiveOf(node, v) {
      assert k in next.shares <==> k in node.shares;
    }
  }

  /** One operation: a version without active shares gets one exactly when a share of it is set. */
  lemma RevivedExactlyBySet(h: TextHash, node: Node, op: Op, version: string)
    requires Indexed(node) && ActiveOf(node, version) == {}
    ensures ActiveOf(After(h, node, op), version) != {} <==> Revives(h, op, version)
  {
    hide Admit, VersionOf, ShareKey, VersionKey, Indexed, ActiveOf;
    match op
    case SetOp(doc, now) =>
      var a := Admit(h, doc);
      if a.Ok? && a.value.Admitted? {
        AdmittedHasVersion(h, doc);
        SetChangesOneShare(node, a.value.env, VersionOf(a.value.env).value, now, version);
      }
    case InvalidateOp(idHash, ver, epoch, reason, now) =>
      if VersionKey(idHash, ver, epoch).Ok? {
        NothingActiveLeft(node, VersionKey(idHash, ver, epoch).value, reason, now);
      }
  }

  lemma {:induction false} RunIndexed(h: TextHash, node: Node, ops: seq<Op>)
    requires Indexed(node)
    ensures Indexed(AfterAll(h, node, ops))
  {
    hide Indexed, After;
    if ops != [] {
      RunIndexed(h, node, ops[..|ops| - 1]);
      AfterIndexed(h, AfterAll(h, node, ops[..|ops| - 1]), ops[|ops| - 1]);
    }
  }

  /** An invalidated version stays invalidated over every run that sets no active share of it. */
  lemma {:induction false} StaysInvalidated(h: TextHash, node: Node, ops: seq<Op>, version: string)
    requires Indexed(node) && ActiveOf(node, version) == {}
    requires forall i :: 0 <= i < |ops| ==> !Revives(h, ops[i], version)
    ensures ActiveOf(AfterAll(h, node, ops), version) == {}
  {
    hide Indexed, After, ActiveOf, Revives;
    if ops != [] {
      var before, last := ops[..|ops| - 1], ops[|ops| - 1];
      StaysInvalidated(h, node, before, version);
      RunIndexed(h, node, before);
      RevivedExactlyBySet(h, AfterAll(h, node, before), last, version);
    }
  }
}
