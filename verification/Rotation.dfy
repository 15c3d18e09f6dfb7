/**
 Rotating the committee's shares to a new version, as a transition system: the
 rotation's own requests, one node at a time and in any order within a phase,
 interleaved with the requests of other clients.
 */
module Rotation {
  import opened Outcomes
  import opened NumberTheory
  import opened Hex
  import opened ShareField
  import opened Envelope
  import opened Sharing
  import opened Recovery
  import opened NitsShamir
  import opened Committee

  type Envelopes = s: seq<ShareEnvelope> | |s| < TWO32

  /**
   `urls[i]` is the node behind the i-th committee address (addresses may share a
   node); `issued` are the envelopes of the new version, one for each guardian.
   */
  datatype Plan = Plan(
    urls: seq<nat>, idHash: string, oldVer: U64, oldEpoch: U64, ver: U64, epoch: U64,
    issued: Envelopes, reason: string)

  datatype Phase =
    | Invalidating(done: set<nat>)
    | Distributing(done: set<nat>)
    | Verifying(done: set<nat>)
    | Completed
    | Aborted

  datatype System = System(nodes: seq<Node>, phase: Phase)

  datatype Move =
    | InvalidateAt(i: nat, now: nat)
    | DistributeAt(i: nat, now: nat)
    | VerifyAt(i: nat)
    | Advance
    | Abort
    | Other(k: nat, op: Op)

  // ----- the plan -----

  function OldVersion(plan: Plan): Outcome<string>
  {
    VersionKey(plan.idHash, plan.oldVer, plan.oldEpoch)
  }

  function NewVersion(plan: Plan): Outcome<string>
  {
    VersionKey(plan.idHash, plan.ver, plan.epoch)
  }

  /** The document sent to a node for the `i`-th guardian. */
  function FreshDoc(plan: Plan, i: nat): Outcome<Doc>
    requires i < |plan.issued|
  {
    ToDoc(plan.issued[i])
  }

  /** Envelope `i` is admitted as itself, and stored where the lookup by guardian `i + 1` looks. */
  predicate GoodFresh(h: TextHash, plan: Plan, i: nat)
    requires i < |plan.issued|
  {
    var env := plan.issued[i];
    && FreshDoc(plan, i).Ok? && Admit(h, FreshDoc(plan, i).value) == Ok(Admitted(env))
    && env.active && env.guardianIndex == i + 1 && VersionOf(env) == NewVersion(plan)
    && LookupKey(plan.idHash, plan.ver, plan.epoch, i + 1) == Ok(ShareKey(env))
  }

  ghost predicate Planned(h: TextHash, plan: Plan)
  {
    && |plan.issued| <= |plan.urls|
    && OldVersion(plan) != NewVersion(plan) && NewVersion(plan).Ok?
    && forall i :: 0 <= i < |plan.issued| ==> GoodFresh(h, plan, i)
  }

  // ----- moves -----

  predicate Everyone(done: set<nat>, n: nat)
  {
    forall i :: 0 <= i < n ==> i in done
  }

  /** An operation on the version's shares, other than the rotation's own. */
  predicate Touches(h: TextHash, op: Op, version: Outcome<string>)
  {
    match op
    case SetOp(doc, now) =>
      var a := Admit(h, doc);
      a.Ok? && a.value.Admitted? && VersionOf(a.value.env) == version
    case InvalidateOp(idHash, ver, epoch, reason, now) => VersionKey(idHash, ver, epoch) == version
  }

  /** Other clients leave the new version alone, and revive the old one only where it is not yet invalidated. */
  ghost predicate Allowed(h: TextHash, plan: Plan, s: System, k: nat, op: Op)
  {
    && !Touches(h, op, NewVersion(plan))
    && (Touches(h, op, OldVersion(plan)) && op.SetOp? ==>
          s.phase.Invalidating? && forall i :: 0 <= i < |plan.urls| && plan.urls[i] == k ==> i !in s.phase.done)
  }

  ghost predicate Enabled(h: TextHash, plan: Plan, s: System, move: Move)
  {
    match move
    case InvalidateAt(i, now) => s.phase.Invalidating? && i < |plan.urls| && i !in s.phase.done && plan.urls[i] < |s.nodes|
    case DistributeAt(i, now) =>
      s.phase.Distributing? && i < |plan.issued| && i < |plan.urls| && i !in s.phase.done && plan.urls[i] < |s.nodes|
    case VerifyAt(i) =>
      s.phase.Verifying? && i < |plan.issued| && i < |plan.urls| && i !in s.phase.done && plan.urls[i] < |s.nodes|
    case Advance =>
      || (s.phase.Invalidating? && Everyone(s.phase.done, |plan.urls|))
      || (s.phase.Distributing? && Everyone(s.phase.done, |plan.issued|))
      || (s.phase.Verifying? && Everyone(s.phase.done, |plan.issued|))
    case Abort => !s.phase.Completed?
    case Other(k, op) => k < |s.nodes| && Allowed(h, plan, s, k, op)
  }

  /** What a move does; a request that is answered with an error aborts the rotation. */
  ghost function Moved(h: TextHash, plan: Plan, s: System, move: Move): System
    requires Enabled(h, plan, s, move)
  {
    match move
    case InvalidateAt(i, now) =>
      var k := plan.urls[i];
      if plan.idHash == "" || plan.oldEpoch == 0 || OldVersion(plan).Throw? then s.(phase := Aborted)
      else System(
        s.nodes[k := AfterInvalidate(s.nodes[k], plan.idHash, plan.oldVer, plan.oldEpoch, plan.reason, now)],
        Invalidating(s.phase.done + {i}))
    case DistributeAt(i, now) =>
      var k, doc := plan.urls[i], FreshDoc(plan, i);
      if doc.Throw? then s.(phase := Aborted) else
        var admission := Admit(h, doc.value);
        if admission.Throw? || admission.value.Turned? then s.(phase := Aborted)
        else System(s.nodes[k := AfterSet(h, s.nodes[k], doc.value, now)], Distributing(s.phase.done + {i}))
    case VerifyAt(i) =>
      var meta := MetaOf(s.nodes[plan.urls[i]], plan.idHash, plan.ver, plan.epoch, i + 1);
      if meta.Ok? && meta.value.Meta? && meta.value.stored.env.active
      then s.(phase := Verifying(s.phase.done + {i}))
      else s.(phase := Aborted)
    case Advance =>
      s.(phase := if s.phase.Invalidating? then Distributing({})
                  else if s.phase.Distributing? then Verifying({}) else Completed)
    case Abort => s.(phase := Aborted)
    case Other(k, op) => s.(nodes := s.nodes[k := After(h, s.nodes[k], op)])
  }

  ghost predicate Starts(plan: Plan, s: System)
  {
    && s.phase == Invalidating({})
    && (forall k :: 0 <= k < |s.nodes| ==> Indexed(s.nodes[k]))
    && (forall i :: 0 <= i < |plan.urls| ==> plan.urls[i] < |s.nodes|)
  }

  /** Move `i` of a run is enabled and leads to the next state. */
  ghost predicate StepAt(h: TextHash, plan: Plan, states: seq<System>, moves: seq<Move>, i: nat)
    requires i < |moves| && |states| == |moves| + 1
  {
    Enabled(h, plan, states[i], moves[i]) && Moved(h, plan, states[i], moves[i]) == states[i + 1]
  }

  /** A run from a start of the rotation. */
  ghost predicate Run(h: TextHash, plan: Plan, states: seq<System>, moves: seq<Move>)
  {
    && |states| == |moves| + 1 && Starts(plan, states[0])
    && forall i :: 0 <= i < |moves| ==> StepAt(h, plan, states, moves, i)
  }

  // ----- the invariant -----

  ghost predicate OldGone(plan: Plan, node: Node)
  {
    OldVersion(plan).Ok? && ActiveOf(node, OldVersion(plan).value) == {}
  }

  /** The node stores exactly this envelope under its key. */
  predicate Holds(node: Node, env: ShareEnvelope)
  {
    ShareKey(env) in node.shares && node.shares[ShareKey(env)].env == env
  }

  predicate HoldsFresh(plan: Plan, s: System, i: nat)
  {
    i < |plan.issued| ==> i < |plan.urls| && plan.urls[i] < |s.nodes| && Holds(s.nodes[plan.urls[i]], plan.issued[i])
  }

  ghost predicate Safe(plan: Plan, s: System)
  {
    && (forall k :: 0 <= k < |s.nodes| ==> Indexed(s.nodes[k]))
    && (forall i :: 0 <= i < |plan.urls| ==> plan.urls[i] < |s.nodes|)
    && (forall i :: 0 <= i < |plan.urls| && (s.phase.Invalidating? ==> i in s.phase.done) && !s.phase.Aborted? ==>
          OldGone(plan, s.nodes[plan.urls[i]]))
    && (s.phase.Distributing? ==> forall i :: i in s.phase.done ==> HoldsFresh(plan, s, i))
    && (s.phase.Verifying? && s.phase.done != {} ==> plan.epoch != 0)
    && (s.phase.Completed? && plan.issued != [] ==> plan.epoch != 0)
    && (s.phase.Verifying? || s.phase.Completed? ==> forall i :: 0 <= i < |plan.issued| ==> HoldsFresh(plan, s, i))
  }

  // ----- what one request does to a held envelope -----

  /** A request on another version does not disturb a held envelope. */
  lemma HeldThrough(h: TextHash, node: Node, op: Op, env: ShareEnvelope)
    requires Indexed(node) && Holds(node, env) && !Touches(h, op, VersionOf(env))
    ensures Holds(After(h, node, op), env)
  {
    hide Admit, VersionOf, ShareKey, VersionKey;
    assert ShareIndexed(node, ShareKey(env));
    match op
    case SetOp(doc, now) =>
      var a := Admit(h, doc);
      if a.Ok? && a.value.Admitted? && ShareKey(a.value.env) == ShareKey(env) {
        SameKeySameVersion(a.value.env, env);
      }
    case InvalidateOp(idHash, ver, epoch, reason, now) =>
      if VersionKey(idHash, ver, epoch).Ok? {
        hide Indexed, ActiveOf;
        NothingActiveLeft(node, VersionKey(idHash, ver, epoch).value, reason, now);
      }
  }

  lemma GoneThrough(h: TextHash, node: Node, op: Op, version: string)
    requires Indexed(node) && ActiveOf(node, version) == {} && !(op.SetOp? && Touches(h, op, Ok(version)))
    ensures ActiveOf(After(h, node, op), version) == {}
  {
    hide Admit, VersionOf, ShareKey, VersionKey, Indexed, ActiveOf;
    RevivedExactlyBySet(h, node, op, version);
  }

  // ----- the invariant over every move -----

  lemma InvalidateStep(h: TextHash, plan: Plan, s: System, i: nat, now: nat)
    requires Planned(h, plan) && Safe(plan, s)
    requires Enabled(h, plan, s, InvalidateAt(i, now))
    ensures Safe(plan, Moved(h, plan, s, InvalidateAt(i, now)))
  {
    hide VersionKey, Indexed, ActiveOf, ShareKey, Holds;
    var k := plan.urls[i];
    var version := OldVersion(plan);
    if plan.idHash != "" && plan.oldEpoch != 0 && version.Ok? {
      WithoutVersionIndexed(s.nodes[k], version.value, plan.reason, now);
      NothingActiveLeft(s.nodes[k], version.value, plan.reason, now);
    }
  }

  lemma DistributeStep(h: TextHash, plan: Plan, s: System, i: nat, now: nat)
    requires Planned(h, plan) && Safe(plan, s)
    requires Enabled(h, plan, s, DistributeAt(i, now))
    ensures Safe(plan, Moved(h, plan, s, DistributeAt(i, now)))
  {
    hide VersionKey, LookupKey, Indexed, ActiveOf, ShareKey, Holds, WithShare, Admit, ToDoc;
    var k, env := plan.urls[i], plan.issued[i];
    var node := s.nodes[k];
    assert GoodFresh(h, plan, i);
    var version := NewVersion(plan).value;
    var next := WithShare(node, env, version, now);
    var t := Moved(h, plan, s, DistributeAt(i, now));
    assert t == System(s.nodes[k := next], Distributing(s.phase.done + {i}));
    WithShareIndexed(node, env, version, now);
    NewlyHeld(node, env, version, now);
    if OldVersion(plan).Ok? {
      SetChangesOneShare(node, env, version, now, OldVersion(plan).value);
    }
    forall j | j in t.phase.done ensures HoldsFresh(plan, t, j) {
      if j != i && j < |plan.issued| {
        assert HoldsFresh(plan, s, j);
        assert GoodFresh(h, plan, j);
        HeldBesides(node, env, version, now, plan.issued[j]);
      }
    }
  }

  lemma NewlyHeld(node: Node, env: ShareEnvelope, version: string, now: nat)
    ensures Holds(WithShare(node, env, version, now), env)
  {
    hide ShareKey;
  }

  /** Another guardian's share on the same node stays. */
  lemma HeldBesides(node: Node, env: ShareEnvelope, version: string, now: nat, held: ShareEnvelope)
    requires env.guardianIndex != held.guardianIndex
    ensures Holds(WithShare(node, env, version, now), held) == Holds(node, held)
  {
    hide ShareKey;
    if ShareKey(env) == ShareKey(held) {
      ShareKeyInjective(env, held);
    }
  }

  lemma OtherKeepsGone(h: TextHash, plan: Plan, s: System, k: nat, op: Op, i: nat)
    requires Safe(plan, s) && k < |s.nodes| && Allowed(h, plan, s, k, op) && i < |plan.urls|
    requires (s.phase.Invalidating? ==> i in s.phase.done) && !s.phase.Aborted?
    ensures OldGone(plan, s.nodes[k := After(h, s.nodes[k], op)][plan.urls[i]])
  {
    hide VersionKey, Indexed, ActiveOf, ShareKey, Holds, Touches, After;
    assert OldGone(plan, s.nodes[plan.urls[i]]);
    if plan.urls[i] == k {
      GoneThrough(h, s.nodes[k], op, OldVersion(plan).value);
    }
  }

  lemma OtherKeepsHeld(h: TextHash, plan: Plan, s: System, k: nat, op: Op, i: nat)
    requires Planned(h, plan) && k < |s.nodes| && Indexed(s.nodes[k]) && Allowed(h, plan, s, k, op)
    requires HoldsFresh(plan, s, i)
    ensures HoldsFresh(plan, s.(nodes := s.nodes[k := After(h, s.nodes[k], op)]), i)
  {
    hide VersionKey, LookupKey, Indexed, ShareKey, Holds, Touches, After, ToDoc, Admit;
    if i < |plan.issued| && plan.urls[i] == k {
      assert GoodFresh(h, plan, i);
      HeldThrough(h, s.nodes[k], op, plan.issued[i]);
    }
  }

  lemma OtherStep(h: TextHash, plan: Plan, s: System, k: nat, op: Op)
    requires Planned(h, plan) && Safe(plan, s)
    requires Enabled(h, plan, s, Other(k, op))
    ensures Safe(plan, Moved(h, plan, s, Other(k, op)))
  {
    hide OldGone, HoldsFresh, Indexed, Allowed, After, Planned;
    AfterIndexed(h, s.nodes[k], op);
    var t := Moved(h, plan, s, Other(k, op));
    assert t == s.(nodes := s.nodes[k := After(h, s.nodes[k], op)]);
    forall i | 0 <= i < |plan.urls| && (s.phase.Invalidating? ==> i in s.phase.done) && !s.phase.Aborted?
      ensures OldGone(plan, t.nodes[plan.urls[i]])
    {
      OtherKeepsGone(h, plan, s, k, op, i);
    }
    forall i: nat | HoldsFresh(plan, s, i) ensures HoldsFresh(plan, t, i) {
      OtherKeepsHeld(h, plan, s, k, op, i);
    }
  }

  lemma VerifyStep(h: TextHash, plan: Plan, s: System, i: nat)
    requires Planned(h, plan) && Safe(plan, s)
    requires Enabled(h, plan, s, VerifyAt(i))
    ensures Safe(plan, Moved(h, plan, s, VerifyAt(i)))
  {
    hide VersionKey, LookupKey, Indexed, ActiveOf, ShareKey, Holds;
    var t := Moved(h, plan, s, VerifyAt(i));
    forall j | 0 <= j < |plan.issued| ensures HoldsFresh(plan, t, j) {
      assert HoldsFresh(plan, s, j);
    }
  }

  lemma AdvanceStep(h: TextHash, plan: Plan, s: System)
    requires Planned(h, plan) && Safe(plan, s)
    requires Enabled(h, plan, s, Advance)
    ensures Safe(plan, Moved(h, plan, s, Advance))
  {
    hide VersionKey, Indexed, ActiveOf, ShareKey, Holds;
    var t := Moved(h, plan, s, Advance);
    if !s.phase.Invalidating? {
      assert plan.issued != [] ==> 0 in s.phase.done;
      forall j | 0 <= j < |plan.issued| ensures HoldsFresh(plan, t, j) {
        assert HoldsFresh(plan, s, j);
      }
    }
  }

  /** Every move keeps the invariant. */
  lemma MoveKeepsSafe(h: TextHash, plan: Plan, s: System, move: Move)
    requires Planned(h, plan) && Safe(plan, s)
    requires Enabled(h, plan, s, move)
    ensures Safe(plan, Moved(h, plan, s, move))
  {
    match move
    case InvalidateAt(i, now) => InvalidateStep(h, plan, s, i, now);
    case DistributeAt(i, now) => DistributeStep(h, plan, s, i, now);
    case VerifyAt(i) => VerifyStep(h, plan, s, i);
    case Advance => AdvanceStep(h, plan, s);
    case Abort =>
    case Other(k, op) => OtherStep(h, plan, s, k, op);
  }

  lemma {:induction false} RunKeepsSafe(h: TextHash, plan: Plan, states: seq<System>, moves: seq<Move>, i: nat)
    requires Planned(h, plan) && Run(h, plan, states, moves) && i < |states|
    ensures Safe(plan, states[i])
  {
    hide Safe, Enabled, Moved;
    if i == 0 {
      StartIsSafe(plan, states[0]);
    } else {
      RunKeepsSafe(h, plan, states, moves, i - 1);
      assert StepAt(h, plan, states, moves, i - 1);
      MoveKeepsSafe(h, plan, states[i - 1], moves[i - 1]);
    }
  }

  lemma StartIsSafe(plan: Plan, s: System)
    requires Starts(plan, s)
    ensures Safe(plan, s)
  {
  }

  // ----- what a rotation achieves -----

  lemma NamedIdentity(h: TextHash, plan: Plan)
    requires Planned(h, plan)
    ensures plan.idHash != ""
  {
    assert NormalizeDigest(plan.idHash).Ok?;
    EnsureShape(plan.idHash);
  }

  /** The closing check never fails: once distributed, every share is there and active. */
  lemma VerifyNeverAborts(h: TextHash, plan: Plan, s: System, i: nat)
    requires Planned(h, plan) && Safe(plan, s)
    requires Enabled(h, plan, s, VerifyAt(i))
    requires plan.epoch != 0
    ensures Moved(h, plan, s, VerifyAt(i)).phase == Verifying(s.phase.done + {i})
  {
    hide VersionKey, LookupKey, Indexed, ActiveOf, ShareKey, Admit, ToDoc, VersionOf;
    NamedIdentity(h, plan);
    assert HoldsFresh(plan, s, i);
    assert GoodFresh(h, plan, i);
  }

  /** After a completed rotation, what a node of the plan answers about the old version is never a share. */
  lemma OldVersionNotServed(h: TextHash, plan: Plan, states: seq<System>, moves: seq<Move>,
                            i: nat, guardianIndex: U32, r: Outcome<Reply>)
    requires Planned(h, plan) && Run(h, plan, states, moves)
    requires states[|moves|].phase.Completed? && i < |plan.urls| && plan.urls[i] < |states[|moves|].nodes|
    requires Serves(states[|moves|].nodes[plan.urls[i]], plan.idHash, plan.oldVer, plan.oldEpoch, guardianIndex, r)
    ensures !(r.Ok? && r.value.Found?)
  {
    hide StepAt, Serves, VersionKey, LookupKey, Indexed, ActiveOf;
    RunKeepsSafe(h, plan, states, moves, |moves|);
    var node := states[|moves|].nodes[plan.urls[i]];
    assert OldGone(plan, node);
    InvalidatedServesNothing(node, plan.idHash, plan.oldVer, plan.oldEpoch, guardianIndex, r);
  }

  /** ... and the i-th address serves exactly the i-th new envelope. */
  lemma NewShareServed(h: TextHash, plan: Plan, states: seq<System>, moves: seq<Move>, i: nat, r: Outcome<Reply>)
    requires Planned(h, plan) && Run(h, plan, states, moves)
    requires states[|moves|].phase.Completed? && i < |plan.issued|
    requires i < |plan.urls| && plan.urls[i] < |states[|moves|].nodes|
    requires Serves(states[|moves|].nodes[plan.urls[i]], plan.idHash, plan.ver, plan.epoch, i + 1, r)
    ensures r.Ok? && r.value.Found? && r.value.stored.env == plan.issued[i]
  {
    hide StepAt, VersionKey, LookupKey, Indexed, ActiveOf, ShareKey;
    RunKeepsSafe(h, plan, states, moves, |moves|);
    NamedIdentity(h, plan);
    assert HoldsFresh(plan, states[|moves|], i);
    assert GoodFresh(h, plan, i);
  }

  // ----- a rotation that nothing disturbs -----

  ghost predicate UpTo(done: set<nat>, n: nat)
  {
    forall i :: i in done <==> 0 <= i < n
  }

  lemma RunSnoc(h: TextHash, plan: Plan, states: seq<System>, moves: seq<Move>, move: Move)
    requires Run(h, plan, states, moves) && Enabled(h, plan, states[|moves|], move)
    ensures Run(h, plan, states + [Moved(h, plan, states[|moves|], move)], moves + [move])
  {
    hide Enabled, Moved, Starts;
    var t := Moved(h, plan, states[|moves|], move);
    var states', moves' := states + [t], moves + [move];
    forall i | 0 <= i < |moves'| ensures StepAt(h, plan, states', moves', i) {
      if i < |moves| {
        assert StepAt(h, plan, states, moves, i);
      }
    }
  }

  lemma UrlsInRange(plan: Plan, s: System)
    requires Safe(plan, s)
    ensures forall i :: 0 <= i < |plan.urls| ==> plan.urls[i] < |s.nodes|
  {
    hide Indexed, OldGone, HoldsFresh;
  }

  lemma NextUpTo(done: set<nat>, i: nat)
    requires UpTo(done, i)
    ensures i !in done && UpTo(done + {i}, i + 1)
  {
  }

  lemma PlannedShape(h: TextHash, plan: Plan)
    requires Planned(h, plan)
    ensures |plan.issued| <= |plan.urls|
  {
    hide GoodFresh;
  }

  lemma InvalidateGoesOn(h: TextHash, plan: Plan, s: System, i: nat)
    requires Planned(h, plan) && Safe(plan, s) && OldVersion(plan).Ok? && plan.oldEpoch != 0
    requires s.phase.Invalidating? && UpTo(s.phase.done, i) && i < |plan.urls|
    ensures Enabled(h, plan, s, InvalidateAt(i, 0))
    ensures var t := Moved(h, plan, s, InvalidateAt(i, 0)); t.phase.Invalidating? && UpTo(t.phase.done, i + 1)
  {
    hide OldVersion, Safe, AfterInvalidate, Planned, UpTo;
    UrlsInRange(plan, s);
    NamedIdentity(h, plan);
    NextUpTo(s.phase.done, i);
  }

  lemma DistributeGoesOn(h: TextHash, plan: Plan, s: System, i: nat)
    requires Planned(h, plan) && Safe(plan, s)
    requires s.phase.Distributing? && UpTo(s.phase.done, i) && i < |plan.issued|
    ensures Enabled(h, plan, s, DistributeAt(i, 0))
    ensures var t := Moved(h, plan, s, DistributeAt(i, 0)); t.phase.Distributing? && UpTo(t.phase.done, i + 1)
  {
    hide OldVersion, Safe, AfterSet, Admit, VersionOf, LookupKey, ShareKey, FreshDoc, UpTo;
    UrlsInRange(plan, s);
    NextUpTo(s.phase.done, i);
    assert GoodFresh(h, plan, i);
  }

  lemma VerifyGoesOn(h: TextHash, plan: Plan, s: System, i: nat)
    requires Planned(h, plan) && Safe(plan, s) && plan.epoch != 0
    requires s.phase.Verifying? && UpTo(s.phase.done, i) && i < |plan.issued|
    ensures Enabled(h, plan, s, VerifyAt(i))
    ensures var t := Moved(h, plan, s, VerifyAt(i)); t.phase.Verifying? && UpTo(t.phase.done, i + 1)
  {
    hide OldVersion, Planned, Safe, MetaOf, Moved, UpTo;
    UrlsInRange(plan, s);
    PlannedShape(h, plan);
    NextUpTo(s.phase.done, i);
    VerifyNeverAborts(h, plan, s, i);
  }

  /** From every start a rotation can complete; the epochs must be ones that the nodes accept. */
  lemma CanComplete(h: TextHash, plan: Plan, start: System) returns (states: seq<System>, moves: seq<Move>)
    requires Planned(h, plan) && Starts(plan, start)
    requires OldVersion(plan).Ok? && plan.oldEpoch != 0 && plan.epoch != 0
    ensures Run(h, plan, states, moves) && states[0] == start && states[|moves|].phase.Completed?
  {
    hide Planned, Safe, Enabled, Moved, OldVersion, Starts;
    states, moves := [start], [];
    StartPhase(plan, start);
    states, moves := InvalidateAll(h, plan, states, moves);
    states, moves := AdvanceOnce(h, plan, states, moves, |plan.urls|);
    states, moves := DistributeAll(h, plan, states, moves);
    states, moves := AdvanceOnce(h, plan, states, moves, |plan.issued|);
    states, moves := VerifyAll(h, plan, states, moves);
    states, moves := AdvanceOnce(h, plan, states, moves, |plan.issued|);
  }

  lemma StartPhase(plan: Plan, s: System)
    requires Starts(plan, s)
    ensures s.phase.Invalidating? && UpTo(s.phase.done, 0)
  {
  }

  lemma AdvanceOnce(h: TextHash, plan: Plan, states: seq<System>, moves: seq<Move>, n: nat)
    returns (states': seq<System>, moves': seq<Move>)
    requires Run(h, plan, states, moves)
    requires var phase := states[|moves|].phase;
             && (phase.Invalidating? || phase.Distributing? || phase.Verifying?) && UpTo(phase.done, n)
             && n == if phase.Invalidating? then |plan.urls| else |plan.issued|
    ensures Run(h, plan, states', moves') && states'[0] == states[0]
    ensures var phase, next := states[|moves|].phase, states'[|moves'|].phase;
            next == if phase.Invalidating? then Distributing({}) else if phase.Distributing? then Verifying({}) else Completed
  {
    hide StepAt, Starts;
    RunSnoc(h, plan, states, moves, Advance);
    states', moves' := states + [Moved(h, plan, states[|moves|], Advance)], moves + [Advance];
  }

  lemma InvalidateAll(h: TextHash, plan: Plan, states: seq<System>, moves: seq<Move>)
    returns (states': seq<System>, moves': seq<Move>)
    requires Planned(h, plan) && Run(h, plan, states, moves) && OldVersion(plan).Ok? && plan.oldEpoch != 0
    requires states[|moves|].phase.Invalidating? && UpTo(states[|moves|].phase.done, 0)
    ensures Run(h, plan, states', moves') && states'[0] == states[0]
    ensures states'[|moves'|].phase.Invalidating? && UpTo(states'[|moves'|].phase.done, |plan.urls|)
  {
    hide Planned, Safe, Enabled, Moved, OldVersion, StepAt, Starts;
    states', moves' := states, moves;
    for i := 0 to |plan.urls|
      invariant Run(h, plan, states', moves') && states'[0] == states[0]
      invariant states'[|moves'|].phase.Invalidating? && UpTo(states'[|moves'|].phase.done, i)
    {
      var last := states'[|moves'|];
      RunKeepsSafe(h, plan, states', moves', |moves'|);
      InvalidateGoesOn(h, plan, last, i);
      RunSnoc(h, plan, states', moves', InvalidateAt(i, 0));
      states', moves' := states' + [Moved(h, plan, last, InvalidateAt(i, 0))], moves' + [InvalidateAt(i, 0)];
    }
  }

  lemma DistributeAll(h: TextHash, plan: Plan, states: seq<System>, moves: seq<Move>)
    returns (states': seq<System>, moves': seq<Move>)
    requires Planned(h, plan) && Run(h, plan, states, moves)
    requires states[|moves|].phase == Distributing({})
    ensures Run(h, plan, states', moves') && states'[0] == states[0]
    ensures states'[|moves'|].phase.Distributing? && UpTo(states'[|moves'|].phase.done, |plan.issued|)
  {
    hide Planned, Safe, Enabled, Moved, StepAt, Starts;
    states', moves' := states, moves;
    for i := 0 to |plan.issued|
      invariant Run(h, plan, states', moves') && states'[0] == states[0]
      invariant states'[|moves'|].phase.Distributing? && UpTo(states'[|moves'|].phase.done, i)
    {
      var last := states'[|moves'|];
      RunKeepsSafe(h, plan, states', moves', |moves'|);
      DistributeGoesOn(h, plan, last, i);
      RunSnoc(h, plan, states', moves', DistributeAt(i, 0));
      states', moves' := states' + [Moved(h, plan, last, DistributeAt(i, 0))], moves' + [DistributeAt(i, 0)];
    }
  }

  lemma VerifyAll(h: TextHash, plan: Plan, states: seq<System>, moves: seq<Move>)
    returns (states': seq<System>, moves': seq<Move>)
    requires Planned(h, plan) && Run(h, plan, states, moves) && plan.epoch != 0
    requires states[|moves|].phase == Verifying({})
    ensures Run(h, plan, states', moves') && states'[0] == states[0]
    ensures states'[|moves'|].phase.Verifying? && UpTo(states'[|moves'|].phase.done, |plan.issued|)
  {
    hide Planned, Safe, Enabled, Moved, StepAt, Starts;
    states', moves' := states, moves;
    for i := 0 to |plan.issued|
      invariant Run(h, plan, states', moves') && states'[0] == states[0]
      invariant states'[|moves'|].phase.Verifying? && UpTo(states'[|moves'|].phase.done, i)
    {
      var last := states'[|moves'|];
      RunKeepsSafe(h, plan, states', moves', |moves'|);
      VerifyGoesOn(h, plan, last, i);
      RunSnoc(h, plan, states', moves', VerifyAt(i));
      states', moves' := states' + [Moved(h, plan, last, VerifyAt(i))], moves' + [VerifyAt(i)];
    }
  }

  // ----- with the envelopes of a sharing -----

  /** The plan of a rotation to the shares that one sharing issued. */
  ghost predicate PlanFor(h: TextHash, req: Request, plan: Plan)
  {
    && Share(h, req).Ok? && plan.issued == Share(h, req).value.shareEnvelopes && req.n <= |plan.urls|
    && plan.idHash == req.idHash && plan.ver == req.ver && plan.epoch == req.epoch
    && (plan.oldVer, plan.oldEpoch) != (req.ver, req.epoch)
  }

  /** Issued envelopes are good to distribute. */
  lemma PlanForIsPlanned(h: TextHash, req: Request, plan: Plan)
    requires PlanFor(h, req, plan)
    ensures Planned(h, plan) && |plan.issued| == req.n
  {
    hide Share, GoodFresh, VersionKey, NormalizeDigest;
    forall i | 0 <= i < |plan.issued| ensures GoodFresh(h, plan, i) {
      IssuedIsGood(h, req, plan, i);
    }
    NewVersionOk(h, req, plan);
    if OldVersion(plan) == NewVersion(plan) {
      VersionKeyInjective(plan.idHash, plan.oldVer, plan.oldEpoch, plan.idHash, plan.ver, plan.epoch);
    }
  }

  lemma NewVersionOk(h: TextHash, req: Request, plan: Plan)
    requires PlanFor(h, req, plan)
    ensures NewVersion(plan).Ok?
  {
    hide NormalizeDigest, Share, Tagged;
    var cm, chunks, rows, xs := ShareIngredients(h, req);
  }

  lemma IssuedIsGood(h: TextHash, req: Request, plan: Plan, i: nat)
    requires PlanFor(h, req, plan) && i < |plan.issued| == req.n
    ensures GoodFresh(h, plan, i)
  {
    hide Share, VersionKey, LookupKey, Tagged, ShareKey, NormalizeDigest, ToDoc, FromDoc, Verify;
    var env := plan.issued[i];
    IssuedRoundTrip(h, req, i);
    AdmitIssued(h, env);
    IssuedFields(h, req, i);
    FreshKeys(plan, env);
  }

  lemma AdmitIssued(h: TextHash, env: ShareEnvelope)
    requires Verifies(h, env) && ToDoc(env).Ok? && FromDoc(ToDoc(env).value) == Ok(env)
    ensures Admit(h, ToDoc(env).value) == Ok(Admitted(env))
  {
    hide Verify, ToDoc, FromDoc;
  }

  lemma IssuedFields(h: TextHash, req: Request, k: nat)
    requires Share(h, req).Ok? && k < req.n
    ensures |Share(h, req).value.shareEnvelopes| == req.n
    ensures var env := Share(h, req).value.shareEnvelopes[k];
            && env.active && env.guardianIndex == k + 1 && env.ver == req.ver && env.epoch == req.epoch
            && NormalizeDigest(req.idHash) == Ok(env.idHash)
  {
    hide NormalizeDigest, Share;
    var cm, chunks, rows, xs := ShareIngredients(h, req);
    IssuedEnvelope(h, req, cm, chunks, rows, xs, k);
    SignedSigma(h, Unsigned(h, req, cm, rows, xs[k], Share(h, req).value.vkSetHash, k), cm.dealerPk);
  }

  lemma FreshKeys(plan: Plan, env: ShareEnvelope)
    requires env.ver == plan.ver && env.epoch == plan.epoch && NormalizeDigest(plan.idHash) == Ok(env.idHash)
    ensures VersionOf(env) == NewVersion(plan) && NewVersion(plan).Ok?
    ensures LookupKey(plan.idHash, plan.ver, plan.epoch, env.guardianIndex) == Ok(ShareKey(env))
  {
    hide NormalizeDigest, Tagged;
    DigestIdempotent(plan.idHash);
    LookupIsNormalised(env, plan.idHash, plan.ver, plan.epoch, env.guardianIndex);
  }

  /** A share as the client gets it: served, written as JSON, parsed. */
  ghost predicate Fetched(node: Node, plan: Plan, i: nat, env: ShareEnvelope)
    requires i < |plan.issued|
  {
    exists r: Outcome<Reply> :: Serves(node, plan.idHash, plan.ver, plan.epoch, i + 1, r)
      && r.Ok? && r.value.Found? && ToDoc(r.value.stored.env).Ok? && FromDoc(ToDoc(r.value.stored.env).value) == Ok(env)
  }

  lemma FetchedIsFresh(h: TextHash, plan: Plan, states: seq<System>, moves: seq<Move>, i: nat, env: ShareEnvelope)
    requires Planned(h, plan) && Run(h, plan, states, moves) && i < |plan.issued|
    requires states[|moves|].phase.Completed?
    requires plan.urls[i] < |states[|moves|].nodes|
    requires Fetched(states[|moves|].nodes[plan.urls[i]], plan, i, env)
    ensures env == plan.issued[i]
  {
    hide StepAt, Serves, ToDoc, FromDoc, Verify, VersionKey, LookupKey, ShareKey;
    var node := states[|moves|].nodes[plan.urls[i]];
    var r :| Serves(node, plan.idHash, plan.ver, plan.epoch, i + 1, r)
      && r.Ok? && r.value.Found? && ToDoc(r.value.stored.env).Ok? && FromDoc(ToDoc(r.value.stored.env).value) == Ok(env);
    NewShareServed(h, plan, states, moves, i, r);
    assert GoodFresh(h, plan, i);
    AdmittedParses(h, FreshDoc(plan, i).value, plan.issued[i]);
  }

  lemma AdmittedParses(h: TextHash, doc: Doc, env: ShareEnvelope)
    requires Admit(h, doc) == Ok(Admitted(env))
    ensures FromDoc(doc) == Ok(env)
  {
    hide FromDoc, Verify;
  }

  /** After a completed rotation any `t` shares fetched from different addresses recover the new seed. */
  lemma RotatedSharesRecover(h: TextHash, req: Request, plan: Plan, states: seq<System>, moves: seq<Move>,
                             picks: seq<nat>, shares: seq<ShareEnvelope>)
    requires PlanFor(h, req, plan) && |plan.issued| == req.n && Run(h, plan, states, moves)
    requires states[|moves|].phase.Completed?
    requires |shares| == |picks| >= req.t && DistinctNats(picks[..req.t])
    requires forall j :: 0 <= j < |picks| ==> picks[j] < req.n && plan.urls[picks[j]] < |states[|moves|].nodes|
    requires forall j :: 0 <= j < |picks| ==> Fetched(states[|moves|].nodes[plan.urls[picks[j]]], plan, picks[j], shares[j])
    ensures ReadsFull(RealReader(h)) && NormalizeDigest(req.seed).Ok?
    ensures Recover(RealReader(h), shares) == Ok(Recovered(NormalizeDigest(req.seed).value, req.t))
  {
    hide StepAt, Fetched, Share, Recover, NormalizeDigest, RealReader, ReadsFull;
    PlanForIsPlanned(h, req, plan);
    forall j | 0 <= j < |picks| ensures shares[j] == plan.issued[picks[j]] {
      FetchedIsFresh(h, plan, states, moves, picks[j], shares[j]);
    }
    ShareThenRecover(h, req, picks);
    assert shares == Pick(plan.issued, picks);
  }

  /** A list that mixes a share of the old version into the new ones is refused. */
  lemma MixedSharesRefused(h: TextHash, plan: Plan, shares: seq<ShareEnvelope>, i: nat, j: nat)
    requires (plan.oldVer, plan.oldEpoch) != (plan.ver, plan.epoch)
    requires i < |shares| && j < |shares| && i < shares[0].t && j < shares[0].t
    requires shares[i].ver == plan.oldVer && shares[i].epoch == plan.oldEpoch
    requires shares[j].ver == plan.ver && shares[j].epoch == plan.epoch
    ensures ReadsFull(RealReader(h))
    ensures !(Recover(RealReader(h), shares).Ok? && Recover(RealReader(h), shares).value.Recovered?)
  {
    hide Recover;
    RealReaderReadsFull(h);
    if (shares[i].ver, shares[i].epoch) != (shares[0].ver, shares[0].epoch) {
      MixedVersionsRejected(RealReader(h), shares, i);
    } else {
      MixedVersionsRejected(RealReader(h), shares, j);
    }
  }
}
