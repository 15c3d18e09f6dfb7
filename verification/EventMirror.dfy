/**
 The mirror of identity records: chain events are fetched by kind for a range of
 blocks and applied kind by kind, not in log order.
 */
module EventMirror {
  import opened Outcomes

  /** Owner and recovery address are missing when no registration or recovery was seen. */
  datatype Owners = Owners(owner: Option<string>, recovery: Option<string>)

  datatype Content = Content(cid: string, pkNormHash: string, pkRecHash: string, version: nat)

  datatype Record = Record(content: Content, owners: Owners, active: bool)

  datatype Event =
    | Registered(idHash: string, cid: string, pkNormHash: string, pkRecHash: string, owner: string, recovery: string)
    | Updated(idHash: string, cid: string, pkNormHash: string, pkRecHash: string, newVersion: nat)
    | Recovered(idHash: string, cid: string, pkNormHash: string, pkRecHash: string, newVersion: nat,
                newOwner: string, newRecovery: string)

  type Mirror = map<string, Record>

  function VersionOf(ev: Event): nat
  {
    if ev.Registered? then 0 else ev.newVersion
  }

  function ContentOf(ev: Event): Content
  {
    Content(ev.cid, ev.pkNormHash, ev.pkRecHash, VersionOf(ev))
  }

  /** Whom the event makes owner; an update keeps the owners there are. */
  function OwnersAfter(owners: Owners, ev: Event): Owners
  {
    match ev
    case Registered(_, _, _, _, owner, recovery) => Owners(Some(owner), Some(recovery))
    case Updated(_, _, _, _, _) => owners
    case Recovered(_, _, _, _, _, owner, recovery) => Owners(Some(owner), Some(recovery))
  }

  function OwnersOf(mirror: Mirror, idHash: string): Owners
  {
    if idHash in mirror then mirror[idHash].owners else Owners(None, None)
  }

  function Apply(mirror: Mirror, ev: Event): Mirror
  {
    mirror[ev.idHash := Record(ContentOf(ev), OwnersAfter(OwnersOf(mirror, ev.idHash), ev), true)]
  }

  /** In-order replay. */
  function Replay(mirror: Mirror, events: seq<Event>): Mirror
  {
    if events == [] then mirror else Apply(Replay(mirror, events[..|events| - 1]), events[|events| - 1])
  }

  datatype Kind = Registrations | Updates | Recoveries

  function KindOf(ev: Event): Kind
  {
    match ev
    case Registered(_, _, _, _, _, _) => Registrations
    case Updated(_, _, _, _, _) => Updates
    case Recovered(_, _, _, _, _, _, _) => Recoveries
  }

  predicate Is(ev: Event, kind: Kind)
  {
    KindOf(ev) == kind
  }

  function Only(events: seq<Event>, kind: Kind): (r: seq<Event>)
    ensures forall i :: 0 <= i < |r| ==> Is(r[i], kind) && r[i] in events
  {
    if events == [] then []
    else
      var before, last := Only(events[..|events| - 1], kind), events[|events| - 1];
      if Is(last, kind) then before + [last] else before
  }

  /** The order in which a range is applied. */
  function Grouped(events: seq<Event>): seq<Event>
  {
    Only(events, Registrations) + Only(events, Updates) + Only(events, Recoveries)
  }

  lemma OnlySnoc(before: seq<Event>, last: Event, kind: Kind)
    ensures Only(before + [last], kind) == Only(before, kind) + (if Is(last, kind) then [last] else [])
  {
    assert (before + [last])[..|before|] == before;
  }

  // ----- one identity at a time -----

  function For(events: seq<Event>, idHash: string): (r: seq<Event>)
    ensures forall i :: 0 <= i < |r| ==> r[i].idHash == idHash && r[i] in events
  {
    if events == [] then []
    else
      var before, last := For(events[..|events| - 1], idHash), events[|events| - 1];
      if last.idHash == idHash then before + [last] else before
  }

  function OwnersThrough(owners: Owners, events: seq<Event>): Owners
  {
    if events == [] then owners
    else OwnersAfter(OwnersThrough(owners, events[..|events| - 1]), events[|events| - 1])
  }

  /** What replay leaves for one identity: the content of its last event, and the last owners named. */
  lemma {:induction false} ReplayFor(mirror: Mirror, events: seq<Event>, idHash: string)
    ensures var mine, after := For(events, idHash), Replay(mirror, events);
            && OwnersOf(after, idHash) == OwnersThrough(OwnersOf(mirror, idHash), mine)
            && (mine == [] ==> (idHash in after <==> idHash in mirror) && (idHash in mirror ==> after[idHash] == mirror[idHash]))
            && (mine != [] ==> idHash in after && after[idHash].content == ContentOf(mine[|mine| - 1]) && after[idHash].active)
  {
    if events != [] {
      var before := events[..|events| - 1];
      ReplayFor(mirror, before, idHash);
      if events[|events| - 1].idHash == idHash {
        assert For(events, idHash)[..|For(events, idHash)| - 1] == For(before, idHash);
      }
    }
  }

  /** The record shows the fields of the identity's last event, one by one. */
  lemma RecordFields(mirror: Mirror, events: seq<Event>, idHash: string)
    requires For(events, idHash) != []
    ensures idHash in Replay(mirror, events)
    ensures var last := For(events, idHash)[|For(events, idHash)| - 1];
            var record := Replay(mirror, events)[idHash];
            && record.content.cid == last.cid && record.active
            && record.content.pkNormHash == last.pkNormHash && record.content.pkRecHash == last.pkRecHash
            && record.content.version == (if last.Registered? then 0 else last.newVersion)
  {
    ReplayFor(mirror, events, idHash);
  }

  /** ... and the two addresses named last: by the registration or recovery after which there are only updates. */
  lemma RecordAddresses(mirror: Mirror, events: seq<Event>, idHash: string, k: nat)
    requires k < |For(events, idHash)| && !For(events, idHash)[k].Updated?
    requires forall i :: k < i < |For(events, idHash)| ==> For(events, idHash)[i].Updated?
    ensures idHash in Replay(mirror, events)
    ensures var naming, record := For(events, idHash)[k], Replay(mirror, events)[idHash];
            && record.owners.owner == Some(if naming.Registered? then naming.owner else naming.newOwner)
            && record.owners.recovery == Some(if naming.Registered? then naming.recovery else naming.newRecovery)
  {
    var mine, owners := For(events, idHash), OwnersOf(mirror, idHash);
    ReplayFor(mirror, events, idHash);
    assert mine == mine[..k + 1] + mine[k + 1..] && mine[..k + 1][..k] == mine[..k];
    OwnersConcat(owners, mine[..k + 1], mine[k + 1..]);
    UpdatesKeepOwners(OwnersThrough(owners, mine[..k + 1]), mine[k + 1..]);
  }

  /** An identity that is only updated keeps the addresses it had, or has none. */
  lemma UpdatesKeepAddresses(mirror: Mirror, events: seq<Event>, idHash: string)
    requires forall i :: 0 <= i < |For(events, idHash)| ==> For(events, idHash)[i].Updated?
    ensures OwnersOf(Replay(mirror, events), idHash) == OwnersOf(mirror, idHash)
  {
    ReplayFor(mirror, events, idHash);
    UpdatesKeepOwners(OwnersOf(mirror, idHash), For(events, idHash));
  }

  lemma {:induction false} ForConcat(a: seq<Event>, b: seq<Event>, idHash: string)
    ensures For(a + b, idHash) == For(a, idHash) + For(b, idHash)
  {
    if b == [] {
      assert a + b == a;
    } else {
      ForConcat(a, b[..|b| - 1], idHash);
      assert (a + b)[..|a + b| - 1] == a + b[..|b| - 1];
    }
  }

  lemma {:induction false} ForOnly(events: seq<Event>, kind: Kind, idHash: string)
    ensures For(Only(events, kind), idHash) == Only(For(events, idHash), kind)
  {
    if events != [] {
      var before, last := events[..|events| - 1], events[|events| - 1];
      ForOnly(before, kind, idHash);
      var ofKind, mine := Only(events, kind), For(events, idHash);
      if Is(last, kind) {
        assert ofKind[..|ofKind| - 1] == Only(before, kind);
      }
      if last.idHash == idHash {
        assert mine[..|mine| - 1] == For(before, idHash);
      }
    }
  }

  lemma ForGrouped(events: seq<Event>, idHash: string)
    ensures For(Grouped(events), idHash) == Grouped(For(events, idHash))
  {
    ForConcat(Only(events, Registrations) + Only(events, Updates), Only(events, Recoveries), idHash);
    ForConcat(Only(events, Registrations), Only(events, Updates), idHash);
    ForOnly(events, Registrations, idHash);
    ForOnly(events, Updates, idHash);
    ForOnly(events, Recoveries, idHash);
  }

  lemma {:induction false} OwnersConcat(owners: Owners, a: seq<Event>, b: seq<Event>)
    ensures OwnersThrough(owners, a + b) == OwnersThrough(OwnersThrough(owners, a), b)
  {
    if b == [] {
      assert a + b == a;
    } else {
      OwnersConcat(owners, a, b[..|b| - 1]);
      assert (a + b)[..|a + b| - 1] == a + b[..|b| - 1];
    }
  }

  // ----- histories of one identity -----

  /** The later of two events is no registration and has the higher version. */
  predicate Follows(earlier: Event, later: Event)
  {
    !later.Registered? && VersionOf(earlier) < VersionOf(later)
  }

  /** A registration comes first, and versions increase. */
  predicate Ordered(mine: seq<Event>)
  {
    forall i, j :: 0 <= i < j < |mine| ==> Follows(mine[i], mine[j])
  }

  lemma OrderedPrefix(mine: seq<Event>)
    requires mine != [] && Ordered(mine)
    ensures Ordered(mine[..|mine| - 1])
  {
    hide Follows;
  }

  lemma OrderedSnoc(mine: seq<Event>, last: Event)
    requires Ordered(mine)
    requires forall i :: 0 <= i < |mine| ==> Follows(mine[i], last)
    ensures Ordered(mine + [last])
  {
    hide Follows;
  }

  lemma {:induction false} UpdatesKeepOwners(owners: Owners, mine: seq<Event>)
    requires forall i :: 0 <= i < |mine| ==> mine[i].Updated?
    ensures OwnersThrough(owners, mine) == owners
  {
    if mine != [] {
      UpdatesKeepOwners(owners, mine[..|mine| - 1]);
    }
  }

  lemma {:induction false} OnlyLast(mine: seq<Event>, kind: Kind)
    requires mine != [] && Is(mine[|mine| - 1], kind)
    ensures Only(mine, kind) != [] && Only(mine, kind)[|Only(mine, kind)| - 1] == mine[|mine| - 1]
  {
  }

  /** The last recovery names the owners, in either order of application. */
  lemma {:induction false} GroupedOwners(owners: Owners, mine: seq<Event>)
    requires Ordered(mine)
    ensures OwnersThrough(owners, Grouped(mine)) == OwnersThrough(owners, mine)
  {
    var regs, upds, recs := Only(mine, Registrations), Only(mine, Updates), Only(mine, Recoveries);
    OwnersConcat(owners, regs + upds, recs);
    OwnersConcat(owners, regs, upds);
    UpdatesKeepOwners(OwnersThrough(owners, regs), upds);
    if mine != [] {
      var before, last := mine[..|mine| - 1], mine[|mine| - 1];
      OrderedPrefix(mine);
      GroupedOwners(owners, before);
      var regs', upds', recs' := Only(before, Registrations), Only(before, Updates), Only(before, Recoveries);
      OwnersConcat(owners, regs' + upds', recs');
      OwnersConcat(owners, regs', upds');
      UpdatesKeepOwners(OwnersThrough(owners, regs'), upds');
      match last
      case Registered(_, _, _, _, _, _) =>
        assert before == [];
        assert regs == [last] && recs == [];
      case Updated(_, _, _, _, _) =>
      case Recovered(_, _, _, _, _, _, _) =>
        assert recs == recs' + [last];
        OwnersConcat(OwnersThrough(owners, regs), recs', [last]);
    }
  }

  lemma NoneOf()
    ensures Only([], Registrations) == [] && Only([], Updates) == [] && Only([], Recoveries) == []
  {
  }

  lemma FirstIfRegistered(mine: seq<Event>)
    requires mine != [] && Ordered(mine) && mine[|mine| - 1].Registered?
    ensures |mine| == 1
  {
    assert |mine| > 1 ==> Follows(mine[0], mine[|mine| - 1]);
  }

  /** Without a recovery, grouping changes nothing. */
  lemma {:induction false} GroupedWithoutRecovery(mine: seq<Event>)
    requires Ordered(mine) && Only(mine, Recoveries) == []
    ensures Grouped(mine) == mine
  {
    hide Only, Follows;
    NoneOf();
    if mine != [] {
      var before, last := mine[..|mine| - 1], mine[|mine| - 1];
      OrderedPrefix(mine);
      assert mine == before + [last];
      OnlySnoc(before, last, Registrations);
      OnlySnoc(before, last, Updates);
      OnlySnoc(before, last, Recoveries);
      GroupedWithoutRecovery(before);
      if last.Registered? {
        FirstIfRegistered(mine);
      }
    }
  }

  predicate RecoveryLast(mine: seq<Event>)
  {
    Only(mine, Recoveries) != [] ==> mine[|mine| - 1].Recovered?
  }

  /** Grouping ends with the same content exactly when a range with a recovery ends with one. */
  lemma GroupedLast(mine: seq<Event>)
    requires Ordered(mine) && mine != []
    ensures Grouped(mine) != []
    ensures ContentOf(Grouped(mine)[|Grouped(mine)| - 1]) == ContentOf(mine[|mine| - 1]) <==> RecoveryLast(mine)
  {
    var recs, last := Only(mine, Recoveries), mine[|mine| - 1];
    if recs == [] {
      GroupedWithoutRecovery(mine);
    } else {
      var end := recs[|recs| - 1];
      assert Grouped(mine)[|Grouped(mine)| - 1] == end;
      if last.Recovered? {
        OnlyLast(mine, Recoveries);
      } else {
        var i :| 0 <= i < |mine| && mine[i] == end;
        assert i < |mine| - 1 && VersionOf(end) < VersionOf(last);
      }
    }
  }

  // ----- ranges -----

  /** Per identity, the range holds at most one registration, first, and versions increase. */
  predicate OrderedRange(events: seq<Event>)
  {
    forall i, j :: 0 <= i < j < |events| && events[i].idHash == events[j].idHash ==> Follows(events[i], events[j])
  }

  lemma {:induction false} OrderedFor(events: seq<Event>, idHash: string)
    requires OrderedRange(events)
    ensures Ordered(For(events, idHash))
  {
    hide Follows;
    if events != [] {
      var before, last := events[..|events| - 1], events[|events| - 1];
      OrderedFor(before, idHash);
      var mine := For(before, idHash);
      if last.idHash == idHash {
        forall i | 0 <= i < |mine| ensures Follows(mine[i], last) {
          var k :| 0 <= k < |before| && before[k] == mine[i];
          assert events[k] == mine[i];
        }
        OrderedSnoc(mine, last);
      }
    }
  }

  /** Each identity with a recovery in the range has one as its last event there. */
  predicate RecoveriesLast(events: seq<Event>)
  {
    forall i :: 0 <= i < |events| ==> RecoveryLast(For(events, events[i].idHash))
  }

  lemma {:induction false} ForMember(events: seq<Event>, idHash: string)
    requires For(events, idHash) != []
    ensures exists i :: 0 <= i < |events| && events[i].idHash == idHash
  {
    assert For(events, idHash)[0] in events;
  }

  lemma NothingGrouped()
    ensures Grouped([]) == [] && RecoveryLast([])
  {
  }

  predicate SameAt(a: Mirror, b: Mirror, idHash: string)
  {
    (idHash in a <==> idHash in b) && (idHash in a ==> a[idHash] == b[idHash])
  }

  lemma SameMirror(a: Mirror, b: Mirror)
    requires forall idHash :: SameAt(a, b, idHash)
    ensures a == b
  {
    assert forall idHash :: SameAt(a, b, idHash) ==> (idHash in a <==> idHash in b);
    assert a.Keys == b.Keys;
    assert forall idHash | idHash in a :: SameAt(a, b, idHash) ==> a[idHash] == b[idHash];
  }

  /** One identity after grouped application and after replay. */
  lemma GroupedFor(mirror: Mirror, events: seq<Event>, idHash: string)
    requires OrderedRange(events)
    ensures SameAt(Replay(mirror, Grouped(events)), Replay(mirror, events), idHash) <==> RecoveryLast(For(events, idHash))
  {
    hide Only, For, Replay, Grouped, OwnersThrough, OrderedRange, Ordered;
    var mine := For(events, idHash);
    NothingGrouped();
    OrderedFor(events, idHash);
    ForGrouped(events, idHash);
    ReplayFor(mirror, events, idHash);
    ReplayFor(mirror, Grouped(events), idHash);
    GroupedOwners(OwnersOf(mirror, idHash), mine);
    if mine != [] {
      GroupedLast(mine);
    }
  }

  /**
   Applying a range kind by kind equals replaying it in order exactly when every
   identity with a recovery in the range ends the range with a recovery.
   */
  lemma GroupedIsReplay(mirror: Mirror, events: seq<Event>)
    requires OrderedRange(events)
    ensures Replay(mirror, Grouped(events)) == Replay(mirror, events) <==> RecoveriesLast(events)
  {
    hide For, Replay, Grouped, OrderedRange, RecoveryLast, SameAt;
    var g, r := Replay(mirror, Grouped(events)), Replay(mirror, events);
    if RecoveriesLast(events) {
      forall idHash ensures SameAt(g, r, idHash) {
        GroupedFor(mirror, events, idHash);
        LastFor(events, idHash);
      }
      SameMirror(g, r);
    } else if g == r {
      var i :| 0 <= i < |events| && !RecoveryLast(For(events, events[i].idHash));
      GroupedFor(mirror, events, events[i].idHash);
      SameSelf(g, events[i].idHash);
    }
  }

  lemma LastFor(events: seq<Event>, idHash: string)
    requires RecoveriesLast(events)
    ensures RecoveryLast(For(events, idHash))
  {
    hide For, RecoveryLast;
    if For(events, idHash) != [] {
      ForMember(events, idHash);
    } else {
      NothingGrouped();
    }
  }

  lemma SameSelf(a: Mirror, idHash: string)
    ensures SameAt(a, a, idHash)
  {
  }

  // ----- synchronisation -----

  datatype Entry = Entry(block: nat, event: Event)

  predicate SortedLog(log: seq<Entry>)
  {
    forall i, j :: 0 <= i < j < |log| ==> log[i].block <= log[j].block
  }

  /** The events of a block range, in log order. */
  function InRange(log: seq<Entry>, from: nat, to: nat): seq<Event>
  {
    if log == [] then []
    else
      var before, last := InRange(log[..|log| - 1], from, to), log[|log| - 1];
      if from <= last.block <= to then before + [last.event] else before
  }

  datatype Sync = Sync(mirror: Mirror, lastSyncedBlock: nat)

  function FromBlock(s: Sync, forceFull: bool): nat
  {
    if forceFull || s.lastSyncedBlock == 0 then 0 else s.lastSyncedBlock + 1
  }

  /** Which of the three queries is answered; a failed one counts as an empty answer. */
  datatype Answers = Answers(registrations: bool, updates: bool, recoveries: bool)

  const ALL := Answers(true, true, true)

  function Queried(events: seq<Event>, kind: Kind, answered: bool): seq<Event>
  {
    if answered then Only(events, kind) else []
  }

  function Fetched(events: seq<Event>, answers: Answers): seq<Event>
  {
    Queried(events, Registrations, answers.registrations) + Queried(events, Updates, answers.updates)
    + Queried(events, Recoveries, answers.recoveries)
  }

  /** One synchronisation up to block `latest`. */
  function Synced(s: Sync, log: seq<Entry>, latest: nat, forceFull: bool, answers: Answers): Sync
  {
    var from := FromBlock(s, forceFull);
    if !forceFull && from > latest then s
    else Sync(Replay(if forceFull then map[] else s.mirror, Fetched(InRange(log, from, latest), answers)), latest)
  }

  class MirrorSync {
    var mirror: Mirror
    var lastSyncedBlock: nat

    function Value(): Sync
      reads this
    {
      Sync(mirror, lastSyncedBlock)
    }

    constructor ()
      ensures Value() == Sync(map[], 0)
    {
      mirror, lastSyncedBlock := map[], 0;
    }

    method SyncFromEvents(log: seq<Entry>, latest: nat, forceFull: bool, answers: Answers) returns (count: nat)
      modifies this
      ensures Value() == Synced(old(Value()), log, latest, forceFull, answers)
      ensures count == if !forceFull && FromBlock(old(Value()), forceFull) > latest then 0
                       else |Fetched(InRange(log, FromBlock(old(Value()), forceFull), latest), answers)|
    {
      var fromBlock := if forceFull || lastSyncedBlock == 0 then 0 else lastSyncedBlock + 1;
      if !forceFull && fromBlock > latest {
        return 0;
      }
      if forceFull {
        mirror := map[];
      }
      var regEvents := Queried(InRange(log, fromBlock, latest), Registrations, answers.registrations);
      var updEvents := Queried(InRange(log, fromBlock, latest), Updates, answers.updates);
      var recEvents := Queried(InRange(log, fromBlock, latest), Recoveries, answers.recoveries);
      ghost var start := mirror;
      ApplyAll(regEvents);
      ApplyAll(updEvents);
      ApplyAll(recEvents);
      ReplayConcat(start, regEvents, updEvents);
      ReplayConcat(start, regEvents + updEvents, recEvents);
      lastSyncedBlock := latest;
      count := |regEvents| + |updEvents| + |recEvents|;
    }

    method ApplyAll(events: seq<Event>)
      modifies this`mirror
      ensures mirror == Replay(old(mirror), events)
    {
      var i := 0;
      while i < |events|
        invariant 0 <= i <= |events| && mirror == Replay(old(mirror), events[..i])
      {
        assert events[..i + 1][..i] == events[..i];
        ApplyEvent(events[i]);
        i := i + 1;
      }
      assert events[..i] == events;
    }

    /** The record of the event's identity is made or changed field by field. */
    method ApplyEvent(ev: Event)
      modifies this`mirror
      ensures mirror == Apply(old(mirror), ev)
    {
      match ev
      case Registered(idHash, cid, pkNormHash, pkRecHash, owner, recovery) =>
        mirror := mirror[idHash := Record(Content(cid, pkNormHash, pkRecHash, 0), Owners(Some(owner), Some(recovery)), true)];
      case Updated(idHash, cid, pkNormHash, pkRecHash, newVersion) =>
        var owners := if idHash in mirror then mirror[idHash].owners else Owners(None, None);
        mirror := mirror[idHash := Record(Content(cid, pkNormHash, pkRecHash, newVersion), owners, true)];
      case Recovered(idHash, cid, pkNormHash, pkRecHash, newVersion, newOwner, newRecovery) =>
        mirror := mirror[idHash := Record(Content(cid, pkNormHash, pkRecHash, newVersion),
                                          Owners(Some(newOwner), Some(newRecovery)), true)];
    }
  }

  lemma {:induction false} ReplayConcat(mirror: Mirror, a: seq<Event>, b: seq<Event>)
    ensures Replay(mirror, a + b) == Replay(Replay(mirror, a), b)
  {
    if b == [] {
      assert a + b == a;
    } else {
      ReplayConcat(mirror, a, b[..|b| - 1]);
      assert (a + b)[..|a + b| - 1] == a + b[..|b| - 1];
    }
  }

  // ----- queries that fail -----

  predicate KindAnswered(kind: Kind, answers: Answers)
  {
    match kind
    case Registrations => answers.registrations
    case Updates => answers.updates
    case Recoveries => answers.recoveries
  }

  predicate Answered(ev: Event, answers: Answers)
  {
    KindAnswered(KindOf(ev), answers)
  }

  predicate RecoveredIn(events: seq<Event>, idHash: string)
  {
    exists k :: 0 <= k < |events| && events[k].Recovered? && events[k].idHash == idHash
  }

  /** Every recovery is answered, and whatever else is not belongs to an identity with a recovery in the range. */
  predicate AnsweredEnough(events: seq<Event>, answers: Answers)
  {
    forall i :: 0 <= i < |events| && !Answered(events[i], answers) ==>
      !events[i].Recovered? && RecoveredIn(events, events[i].idHash)
  }

  /** The mirror is older than the range: it lacks what is registered there and holds lower versions of the rest. */
  predicate OlderThan(mirror: Mirror, events: seq<Event>)
  {
    forall i :: 0 <= i < |events| && events[i].idHash in mirror ==>
      !events[i].Registered? && mirror[events[i].idHash].content.version < VersionOf(events[i])
  }

  lemma ForFetched(events: seq<Event>, answers: Answers, idHash: string)
    ensures For(Fetched(events, answers), idHash) == Fetched(For(events, idHash), answers)
  {
    hide Only;
    var regs, upds := Queried(events, Registrations, answers.registrations), Queried(events, Updates, answers.updates);
    ForConcat(regs + upds, Queried(events, Recoveries, answers.recoveries), idHash);
    ForConcat(regs, upds, idHash);
    ForOnly(events, Registrations, idHash);
    ForOnly(events, Updates, idHash);
    ForOnly(events, Recoveries, idHash);
  }

  lemma {:induction false} ForHas(events: seq<Event>, i: nat)
    requires i < |events|
    ensures events[i] in For(events, events[i].idHash)
  {
    if i < |events| - 1 {
      ForHas(events[..|events| - 1], i);
    }
  }

  lemma {:induction false} OnlyHas(events: seq<Event>, kind: Kind, i: nat)
    requires i < |events| && Is(events[i], kind)
    ensures events[i] in Only(events, kind)
  {
    if i < |events| - 1 {
      OnlyHas(events[..|events| - 1], kind, i);
    }
  }

  lemma OneVersion(mine: seq<Event>, a: Event, b: Event)
    requires Ordered(mine) && a in mine && b in mine && VersionOf(a) == VersionOf(b)
    ensures a == b
  {
    var i, j :| 0 <= i < |mine| && 0 <= j < |mine| && mine[i] == a && mine[j] == b;
    assert i < j ==> Follows(a, b);
    assert j < i ==> Follows(b, a);
  }

  /** What a non-empty list of events leaves of one identity. */
  function Left(owners: Owners, mine: seq<Event>): Record
    requires mine != []
  {
    Record(ContentOf(mine[|mine| - 1]), OwnersThrough(owners, mine), true)
  }

  /** With the recoveries answered, they alone decide. */
  lemma RecoveriesDecide(owners: Owners, before: seq<Event>, before': seq<Event>, recs: seq<Event>)
    requires recs != [] && recs[|recs| - 1].Recovered?
    ensures Left(owners, before + recs) == Left(owners, before' + recs)
  {
    OwnersConcat(owners, before, recs);
    OwnersConcat(owners, before', recs);
  }

  /** A kind of events of one identity is answered, or the answered recoveries hide that it is not. */
  predicate KindEnough(mine: seq<Event>, answers: Answers, kind: Kind)
  {
    Only(mine, kind) == [] || KindAnswered(kind, answers)
    || (kind != Recoveries && answers.recoveries && Only(mine, Recoveries) != [])
  }

  lemma FetchedEnough(owners: Owners, mine: seq<Event>, answers: Answers)
    requires Ordered(mine) && forall kind :: KindEnough(mine, answers, kind)
    ensures Fetched(mine, answers) == [] <==> Grouped(mine) == []
    ensures Grouped(mine) != [] ==> Left(owners, Fetched(mine, answers)) == Left(owners, Grouped(mine))
  {
    hide Only, OwnersThrough, Ordered;
    var regs, upds, recs := Only(mine, Registrations), Only(mine, Updates), Only(mine, Recoveries);
    var regs', upds' := Queried(mine, Registrations, answers.registrations), Queried(mine, Updates, answers.updates);
    assert KindEnough(mine, answers, Registrations) && KindEnough(mine, answers, Updates) && KindEnough(mine, answers, Recoveries);
    if recs != [] && answers.recoveries {
      RecoveriesDecide(owners, regs + upds, regs' + upds', recs);
    } else {
      assert recs == [] && regs' == regs && upds' == upds;
    }
  }

  lemma RegistrationNames(owners: Owners, regs: seq<Event>, upds: seq<Event>)
    requires regs != [] && regs[|regs| - 1].Registered? && forall i :: 0 <= i < |upds| ==> upds[i].Updated?
    ensures OwnersThrough(owners, regs + upds).owner.Some?
  {
    OwnersConcat(owners, regs, upds);
    UpdatesKeepOwners(OwnersThrough(owners, regs), upds);
  }

  /** With a kind missing, the record that is left has another content, or owners nobody named. */
  lemma FetchedTooLittle(owners: Owners, mine: seq<Event>, answers: Answers, kind: Kind)
    requires Ordered(mine) && !KindEnough(mine, answers, kind)
    requires Only(mine, Registrations) != [] ==> owners.owner.None?
    ensures Grouped(mine) != []
    ensures Fetched(mine, answers) != [] ==> Left(owners, Fetched(mine, answers)) != Left(owners, Grouped(mine))
  {
    hide Only, OwnersThrough, Ordered;
    var regs, upds, recs := Only(mine, Registrations), Only(mine, Updates), Only(mine, Recoveries);
    var f, g := Fetched(mine, answers), Grouped(mine);
    if f != [] {
      var a, b := f[|f| - 1], g[|g| - 1];
      if VersionOf(a) == VersionOf(b) {
        OneVersion(mine, a, b);
        assert recs == [] && f == upds && regs != [];
        UpdatesKeepOwners(owners, upds);
        RegistrationNames(owners, regs, upds);
        assert g == regs + upds;
      }
    }
  }

  lemma FetchedFor(mirror: Mirror, events: seq<Event>, answers: Answers, idHash: string)
    requires OrderedRange(events) && OlderThan(mirror, events)
    ensures SameAt(Replay(mirror, Fetched(events, answers)), Replay(mirror, Grouped(events)), idHash)
       <==> forall kind :: KindEnough(For(events, idHash), answers, kind)
  {
    hide Only, For, Replay, Grouped, OwnersThrough, OrderedRange, Ordered, Fetched, KindEnough;
    var mine, owners := For(events, idHash), OwnersOf(mirror, idHash);
    OrderedFor(events, idHash);
    ForGrouped(events, idHash);
    ForFetched(events, answers, idHash);
    ReplayFor(mirror, Fetched(events, answers), idHash);
    ReplayFor(mirror, Grouped(events), idHash);
    if forall kind :: KindEnough(mine, answers, kind) {
      FetchedEnough(owners, mine, answers);
    } else {
      var kind :| !KindEnough(mine, answers, kind);
      if Only(mine, Registrations) != [] {
        NotYetNamed(mirror, events, idHash);
      }
      FetchedTooLittle(owners, mine, answers, kind);
      if idHash in mirror {
        GroupedIsNewer(mirror, events, idHash);
      }
    }
  }

  lemma NotYetNamed(mirror: Mirror, events: seq<Event>, idHash: string)
    requires OlderThan(mirror, events) && Only(For(events, idHash), Registrations) != []
    ensures idHash !in mirror
  {
    var reg := Only(For(events, idHash), Registrations)[0];
    assert reg in events;
  }

  lemma GroupedIsNewer(mirror: Mirror, events: seq<Event>, idHash: string)
    requires OlderThan(mirror, events) && Grouped(For(events, idHash)) != [] && idHash in mirror
    ensures var g := Grouped(For(events, idHash)); mirror[idHash].content.version < VersionOf(g[|g| - 1])
  {
    var g := Grouped(For(events, idHash));
    assert g[|g| - 1] in For(events, idHash);
    assert g[|g| - 1] in events;
  }

  lemma {:induction false} EmptyRange(log: seq<Entry>, from: nat, to: nat)
    requires from > to
    ensures InRange(log, from, to) == []
  {
    if log != [] {
      EmptyRange(log[..|log| - 1], from, to);
    }
  }

  lemma EnoughFor(events: seq<Event>, answers: Answers, idHash: string, kind: Kind)
    requires AnsweredEnough(events, answers)
    ensures KindEnough(For(events, idHash), answers, kind)
  {
    var mine := For(events, idHash);
    if Only(mine, kind) != [] && !KindAnswered(kind, answers) {
      var ev := Only(mine, kind)[0];
      assert ev in mine && Is(ev, kind) && !Answered(ev, answers);
      var i :| 0 <= i < |events| && events[i] == ev;
      var k :| 0 <= k < |events| && events[k].Recovered? && events[k].idHash == idHash;
      ForHas(events, k);
      var m :| 0 <= m < |mine| && mine[m] == events[k];
      OnlyHas(mine, Recoveries, m);
      assert Answered(events[k], answers);
    }
  }

  lemma EnoughForAll(events: seq<Event>, answers: Answers, i: nat)
    requires i < |events| && !Answered(events[i], answers)
    requires forall kind :: KindEnough(For(events, events[i].idHash), answers, kind)
    ensures !events[i].Recovered? && RecoveredIn(events, events[i].idHash)
  {
    hide Only, For;
    var mine, kind := For(events, events[i].idHash), KindOf(events[i]);
    ForHas(events, i);
    var m :| 0 <= m < |mine| && mine[m] == events[i];
    OnlyHas(mine, kind, m);
    assert KindEnough(mine, answers, kind) && !KindAnswered(kind, answers);
    var rec := Only(mine, Recoveries)[0];
    assert rec in mine && Is(rec, Recoveries);
    var k :| 0 <= k < |events| && events[k] == rec;
  }

  /** Leaving the failed queries out changes the outcome exactly when not enough was answered. */
  lemma FetchedIsGrouped(mirror: Mirror, events: seq<Event>, answers: Answers)
    requires OrderedRange(events) && OlderThan(mirror, events)
    ensures Replay(mirror, Fetched(events, answers)) == Replay(mirror, Grouped(events)) <==> AnsweredEnough(events, answers)
  {
    hide Only, For, Replay, Grouped, OrderedRange, Fetched, KindEnough, OlderThan, Answered, RecoveredIn, SameAt;
    var f, g := Replay(mirror, Fetched(events, answers)), Replay(mirror, Grouped(events));
    if AnsweredEnough(events, answers) {
      forall idHash ensures SameAt(f, g, idHash) {
        forall kind ensures KindEnough(For(events, idHash), answers, kind) {
          EnoughFor(events, answers, idHash, kind);
        }
        FetchedFor(mirror, events, answers, idHash);
      }
      SameMirror(f, g);
    } else if f == g {
      var i :| 0 <= i < |events| && !Answered(events[i], answers)
            && !(!events[i].Recovered? && RecoveredIn(events, events[i].idHash));
      FetchedFor(mirror, events, answers, events[i].idHash);
      SameSelf(f, events[i].idHash);
      EnoughForAll(events, answers, i);
    }
  }

  /**
   A synchronisation with failed queries leaves the mirror of one with all queries
   answered exactly when every recovery of the range is answered and each identity
   with another unanswered event there has a recovery. Either way the range counts
   as synchronised, so what is missing stays missing.
   */
  lemma FailedQueriesHarmlessIff(s: Sync, log: seq<Entry>, latest: nat, forceFull: bool, answers: Answers)
    requires var range := InRange(log, FromBlock(s, forceFull), latest);
             OrderedRange(range) && (!forceFull ==> OlderThan(s.mirror, range))
    ensures Synced(s, log, latest, forceFull, answers).mirror == Synced(s, log, latest, forceFull, ALL).mirror
       <==> AnsweredEnough(InRange(log, FromBlock(s, forceFull), latest), answers)
    ensures Synced(s, log, latest, forceFull, answers).lastSyncedBlock == Synced(s, log, latest, forceFull, ALL).lastSyncedBlock
  {
    if latest < FromBlock(s, forceFull) {
      EmptyRange(log, FromBlock(s, forceFull), latest);
    }
    FetchedIsGrouped(if forceFull then map[] else s.mirror, InRange(log, FromBlock(s, forceFull), latest), answers);
  }

  lemma {:induction false} RangeSplit(log: seq<Entry>, from: nat, mid: nat, to: nat)
    requires SortedLog(log) && from <= mid + 1 && mid <= to
    ensures InRange(log, from, to) == InRange(log, from, mid) + InRange(log, mid + 1, to)
  {
    if log != [] {
      var before, last := log[..|log| - 1], log[|log| - 1];
      RangeSplit(before, from, mid, to);
      if last.block <= mid {
        NothingAfter(before, mid, to);
      }
    }
  }

  lemma {:induction false} NothingAfter(log: seq<Entry>, mid: nat, to: nat)
    requires forall i :: 0 <= i < |log| ==> log[i].block <= mid
    ensures InRange(log, mid + 1, to) == []
  {
    if log != [] {
      NothingAfter(log[..|log| - 1], mid, to);
    }
  }

  /** The state after synchronising up to each of the given blocks in turn, all queries answered. */
  function SyncedAll(s: Sync, log: seq<Entry>, latests: seq<nat>): Sync
  {
    if latests == [] then s
    else Synced(SyncedAll(s, log, latests[..|latests| - 1]), log, latests[|latests| - 1], false, ALL)
  }

  predicate Increasing(latests: seq<nat>)
  {
    (forall i :: 0 <= i < |latests| ==> latests[i] > 0) && forall i, j :: 0 <= i < j < |latests| ==> latests[i] < latests[j]
  }

  function RangeStart(latests: seq<nat>, i: nat): nat
    requires i < |latests|
  {
    if i == 0 then 0 else latests[i - 1] + 1
  }

  /** Range `i` of a sequence of synchronisations is ordered and ends its recoveries with recoveries. */
  predicate GoodRange(log: seq<Entry>, latests: seq<nat>, i: nat)
    requires i < |latests|
  {
    var range := InRange(log, RangeStart(latests, i), latests[i]);
    OrderedRange(range) && RecoveriesLast(range)
  }

  /** Consecutive good ranges compose to in-order replay of the whole log. */
  lemma {:induction false} SyncsReplayTheLog(log: seq<Entry>, latests: seq<nat>)
    requires SortedLog(log) && latests != [] && Increasing(latests)
    requires forall i :: 0 <= i < |latests| ==> GoodRange(log, latests, i)
    ensures SyncedAll(Sync(map[], 0), log, latests)
         == Sync(Replay(map[], InRange(log, 0, latests[|latests| - 1])), latests[|latests| - 1])
  {
    var n := |latests| - 1;
    var before, last := latests[..n], latests[n];
    assert GoodRange(log, latests, n);
    if n == 0 {
      assert before == [];
      GroupedIsReplay(map[], InRange(log, 0, last));
    } else {
      forall i | 0 <= i < n ensures GoodRange(log, before, i) {
        assert GoodRange(log, latests, i);
        assert RangeStart(before, i) == RangeStart(latests, i);
      }
      SyncsReplayTheLog(log, before);
      var mid := latests[n - 1];
      assert before[|before| - 1] == mid;
      var mirror := Replay(map[], InRange(log, 0, mid));
      GroupedIsReplay(mirror, InRange(log, mid + 1, last));
      RangeSplit(log, 0, mid, last);
      ReplayConcat(map[], InRange(log, 0, mid), InRange(log, mid + 1, last));
    }
  }

  /** A forced full synchronisation forgets the mirror and applies the whole log as one range. */
  lemma FullSyncReplays(s: Sync, log: seq<Entry>, latest: nat)
    requires OrderedRange(InRange(log, 0, latest))
    ensures Synced(s, log, latest, true, ALL).mirror == Replay(map[], InRange(log, 0, latest)) <==> RecoveriesLast(InRange(log, 0, latest))
  {
    GroupedIsReplay(map[], InRange(log, 0, latest));
  }

  lemma OneEvent(ev: Event)
    ensures Only([ev], Registrations) == (if ev.Registered? then [ev] else [])
    ensures Only([ev], Updates) == (if ev.Updated? then [ev] else [])
    ensures Only([ev], Recoveries) == (if ev.Recovered? then [ev] else [])
  {
    hide Only;
    assert [ev] == [] + [ev];
    OnlySnoc([], ev, Registrations);
    OnlySnoc([], ev, Updates);
    OnlySnoc([], ev, Recoveries);
    NoneOf();
  }

  lemma ReplayOne(mirror: Mirror, ev: Event)
    ensures Replay(mirror, [ev]) == Apply(mirror, ev)
  {
    hide Apply;
    assert [ev][..0] == [];
  }

  lemma Applied(mirror: Mirror, ev: Event)
    ensures ev.idHash in Apply(mirror, ev) && Apply(mirror, ev)[ev.idHash].content == ContentOf(ev)
  {
  }

  lemma OneEntry(ev: Event, latest: nat)
    requires latest >= 1
    ensures InRange([Entry(1, ev)], 0, latest) == [ev] && InRange([Entry(1, ev)], 2, latest) == []
  {
    NothingAfter([Entry(1, ev)], 1, latest);
    assert [Entry(1, ev)][..0] == [];
  }

  /** Events behind a failed query are lost: the range counts as synchronised, and later ranges start after it. */
  lemma FailedQueryLosesEvents(id: string, latest: nat)
    requires latest >= 1
    ensures var log := [Entry(1, Registered(id, "", "", "", "", ""))];
            var once := Synced(Sync(map[], 0), log, 1, false, ALL.(registrations := false));
            && id in Replay(map[], InRange(log, 0, latest))
            && Synced(once, log, latest, false, ALL).mirror == map[]
  {
    hide Only, InRange, Apply;
    var ev := Registered(id, "", "", "", "", "");
    OneEntry(ev, 1);
    OneEntry(ev, latest);
    OneEvent(ev);
    NoneOf();
    ReplayOne(map[], ev);
    Applied(map[], ev);
    assert Fetched([ev], ALL.(registrations := false)) == [];
    assert Fetched([], ALL) == [];
  }

  lemma GroupedPair(rec: Event, upd: Event)
    requires rec.Recovered? && upd.Updated?
    ensures Grouped([rec] + [upd]) == [upd] + [rec] && Only([rec] + [upd], Recoveries) == [rec]
  {
    hide Only;
    OneEvent(rec);
    OnlySnoc([rec], upd, Registrations);
    OnlySnoc([rec], upd, Updates);
    OnlySnoc([rec], upd, Recoveries);
  }

  lemma PairFor(a: Event, b: Event)
    requires a.idHash == b.idHash
    ensures For([a] + [b], a.idHash) == [a] + [b]
  {
    ForConcat([a], [b], a.idHash);
    assert [a][..0] == [] && [b][..0] == [];
    assert For([a], a.idHash) == [a] && For([b], a.idHash) == [b];
  }

  lemma ReplayPair(a: Event, b: Event)
    ensures Replay(map[], [a] + [b]) == Apply(Apply(map[], a), b)
  {
    hide Apply, Replay;
    ReplayConcat(map[], [a], [b]);
    ReplayOne(map[], a);
    ReplayOne(Apply(map[], a), b);
  }

  /** An update after a recovery in one range: the grouped mirror ends with the older content. */
  lemma UpdateAfterRecoveryLost(rec: Event, upd: Event)
    requires rec.Recovered? && upd.Updated? && rec.idHash == upd.idHash && rec.newVersion < upd.newVersion
    ensures var events, id := [rec] + [upd], rec.idHash;
            && OrderedRange(events) && !RecoveriesLast(events)
            && id in Replay(map[], Grouped(events)) && id in Replay(map[], events)
            && Replay(map[], Grouped(events))[id].content == ContentOf(rec)
            && Replay(map[], events)[id].content == ContentOf(upd)
  {
    hide Only, For, Replay, Apply, Grouped;
    var events := [rec] + [upd];
    assert Follows(rec, upd);
    GroupedPair(rec, upd);
    PairFor(rec, upd);
    ReplayPair(rec, upd);
    ReplayPair(upd, rec);
    Applied(Apply(map[], rec), upd);
    Applied(Apply(map[], upd), rec);
    assert events[0] == rec && !RecoveryLast(For(events, events[0].idHash));
  }
}
