/**
 The rebuild worker of the bulletin board: requests fill two queues and a flag,
 one worker at a time drains them pass by pass. Every stretch of code between two
 awaits is one step; a pass itself is what happens between its start and its end.
 */
module RebuildWorker {
  import opened Outcomes

  /** Trims a text, as the board does with everything it is given. */
  type Cleaner = string -> string

  datatype State = State(ids: seq<string>, ops: seq<string>, fullSync: bool, inFlight: bool, dirty: bool)

  const IDLE := State([], [], false, false, false)

  /** What a pass was started with. */
  datatype Pass = Pass(ids: seq<string>, ops: seq<string>, fullSync: bool)

  datatype Step =
    | Schedule(ids: seq<string>, ops: seq<string>, fullSync: bool)
    | PassDone
    | PassThrown

  // ----- queues -----

  predicate NoRepeats(s: seq<string>)
  {
    forall i, j :: 0 <= i < j < |s| ==> s[i] != s[j]
  }

  /** Cleaned, non-empty, and not there yet. */
  function Appended(clean: Cleaner, queue: seq<string>, items: seq<string>): (r: seq<string>)
    ensures queue <= r && (NoRepeats(queue) ==> NoRepeats(r))
    ensures forall x :: x in r <==> x in queue || (x != "" && exists i :: 0 <= i < |items| && x == clean(items[i]))
    decreases |items|
  {
    if items == [] then queue else
      var x := clean(items[0]);
      var next := if x != "" && x !in queue then queue + [x] else queue;
      assert forall i :: 0 < i < |items| ==> items[i] == items[1..][i - 1];
      assert forall i :: 0 <= i < |items| - 1 ==> items[1..][i] == items[i + 1];
      Appended(clean, next, items[1..])
  }

  /** `[...new Set(queue)]`: first occurrences, in order. */
  function FirstOccurrences(queue: seq<string>): (r: seq<string>)
    ensures NoRepeats(r) && (forall x :: x in r <==> x in queue)
  {
    if queue == [] then [] else
      var before, x := FirstOccurrences(queue[..|queue| - 1]), queue[|queue| - 1];
      assert queue == queue[..|queue| - 1] + [x];
      if x in before then before else before + [x]
  }

  // ----- steps -----

  function Queued(clean: Cleaner, s: State, ids: seq<string>, ops: seq<string>, fullSync: bool): State
  {
    s.(ids := Appended(clean, s.ids, ids), ops := Appended(clean, s.ops, ops), fullSync := s.fullSync || fullSync)
  }

  /** The head of the worker's loop: clear the dirty flag and take everything. */
  function Taken(s: State): State
  {
    s.(ids := [], ops := [], fullSync := false, inFlight := true, dirty := false)
  }

  function PassOf(s: State): Pass
  {
    Pass(FirstOccurrences(s.ids), FirstOccurrences(s.ops), s.fullSync)
  }

  predicate Enabled(s: State, step: Step)
  {
    step.Schedule? || s.inFlight
  }

  function Next(clean: Cleaner, s: State, step: Step): State
    requires Enabled(s, step)
  {
    match step
    case Schedule(ids, ops, fullSync) =>
      var q := Queued(clean, s, ids, ops, fullSync);
      if s.inFlight then q.(dirty := true) else Taken(q)
    case PassDone => if s.dirty then Taken(s) else s.(inFlight := false)
    case PassThrown => s.(inFlight := false)
  }

  /** The pass that a step starts, if it starts one. */
  function Started(clean: Cleaner, s: State, step: Step): Option<Pass>
  {
    match step
    case Schedule(ids, ops, fullSync) =>
      if s.inFlight then None else Some(PassOf(Queued(clean, s, ids, ops, fullSync)))
    case PassDone => if s.inFlight && s.dirty then Some(PassOf(s)) else None
    case PassThrown => None
  }

  // ----- the worker in place -----

  class Worker {
    var pendingAffectedIds: seq<string>
    var pendingOpIds: seq<string>
    var fullSyncRequested: bool
    var rebuildInFlight: bool
    var rebuildDirty: bool

    function Value(): State
      reads this
    {
      State(pendingAffectedIds, pendingOpIds, fullSyncRequested, rebuildInFlight, rebuildDirty)
    }

    constructor ()
      ensures Value() == IDLE
    {
      pendingAffectedIds, pendingOpIds := [], [];
      fullSyncRequested, rebuildInFlight, rebuildDirty := false, false, false;
    }

    method ScheduleRebuild(clean: Cleaner, ids: seq<string>, ops: seq<string>, fullSync: bool) returns (started: Option<Pass>)
      modifies this
      ensures Value() == Next(clean, old(Value()), Schedule(ids, ops, fullSync))
      ensures started == Started(clean, old(Value()), Schedule(ids, ops, fullSync))
    {
      pendingAffectedIds := AppendUnique(clean, pendingAffectedIds, ids);
      pendingOpIds := AppendUnique(clean, pendingOpIds, ops);
      if fullSync {
        fullSyncRequested := true;
      }
      if rebuildInFlight {
        rebuildDirty := true;
        return None;
      }
      rebuildInFlight := true;
      var pass := TakeAll();
      started := Some(pass);
    }

    method TakeAll() returns (pass: Pass)
      modifies this`pendingAffectedIds, this`pendingOpIds, this`fullSyncRequested, this`rebuildDirty
      ensures pass == PassOf(old(Value()))
      ensures Value() == Taken(old(Value())).(inFlight := rebuildInFlight)
    {
      rebuildDirty := false;
      var ids := CopyFirsts(pendingAffectedIds);
      var ops := CopyFirsts(pendingOpIds);
      pass := Pass(ids, ops, fullSyncRequested);
      pendingAffectedIds, pendingOpIds := [], [];
      fullSyncRequested := false;
    }

    /** A pass has returned: the worker goes round again if the dirty flag is set. */
    method FinishPass(clean: Cleaner) returns (started: Option<Pass>)
      requires rebuildInFlight
      modifies this
      ensures Value() == Next(clean, old(Value()), PassDone)
      ensures started == Started(clean, old(Value()), PassDone)
    {
      if rebuildDirty {
        var pass := TakeAll();
        started := Some(pass);
      } else {
        rebuildInFlight := false;
        started := None;
      }
    }

    /** A pass has thrown: the worker leaves its loop through `finally`. */
    method AbandonPass(clean: Cleaner)
      requires rebuildInFlight
      modifies this`rebuildInFlight
      ensures Value() == Next(clean, old(Value()), PassThrown)
    {
      rebuildInFlight := false;
    }
  }

  method AppendUnique(clean: Cleaner, queue: seq<string>, items: seq<string>) returns (r: seq<string>)
    ensures r == Appended(clean, queue, items)
  {
    var seen := set x | x in queue;
    r := queue;
    var i := 0;
    assert items[0..] == items;
    while i < |items|
      invariant 0 <= i <= |items|
      invariant forall x :: x in seen <==> x in r
      invariant Appended(clean, r, items[i..]) == Appended(clean, queue, items)
    {
      var s := clean(items[i]);
      assert items[i..][0] == items[i] && items[i..][1..] == items[i + 1..];
      if s != "" && s !in seen {
        seen := seen + {s};
        r := r + [s];
      }
      i := i + 1;
    }
  }

  method CopyFirsts(queue: seq<string>) returns (r: seq<string>)
    ensures r == FirstOccurrences(queue)
  {
    r := [];
    var i := 0;
    while i < |queue|
      invariant 0 <= i <= |queue| && r == FirstOccurrences(queue[..i])
    {
      assert queue[..i + 1][..i] == queue[..i];
      if queue[i] !in r {
        r := r + [queue[i]];
      }
      i := i + 1;
    }
    assert queue[..i] == queue;
  }

  // ----- runs -----

  predicate StepAt(clean: Cleaner, states: seq<State>, steps: seq<Step>, i: nat)
    requires i < |steps| && |states| == |steps| + 1
  {
    Enabled(states[i], steps[i]) && Next(clean, states[i], steps[i]) == states[i + 1]
  }

  predicate Run(clean: Cleaner, states: seq<State>, steps: seq<Step>)
  {
    |states| == |steps| + 1 && states[0] == IDLE && forall i :: 0 <= i < |steps| ==> StepAt(clean, states, steps, i)
  }

  /** No pass throws. */
  predicate Quiet(steps: seq<Step>)
  {
    forall i :: 0 <= i < |steps| ==> !steps[i].PassThrown?
  }

  predicate Waiting(s: State)
  {
    s.ids != [] || s.ops != [] || s.fullSync
  }

  /** Anything waiting is announced by the dirty flag, and nothing waits for an idle worker. */
  predicate Announced(s: State)
  {
    (Waiting(s) || s.dirty ==> s.inFlight) && (Waiting(s) ==> s.dirty)
  }

  lemma {:induction false} RunAnnounced(clean: Cleaner, states: seq<State>, steps: seq<Step>, i: nat)
    requires Run(clean, states, steps) && Quiet(steps) && i < |states|
    ensures Announced(states[i])
  {
    if i > 0 {
      RunAnnounced(clean, states, steps, i - 1);
      assert StepAt(clean, states, steps, i - 1) && !steps[i - 1].PassThrown?;
    }
  }

  /** In a run whose passes do not throw, an idle worker has empty queues and clear flags. */
  lemma IdleMeansEmpty(clean: Cleaner, states: seq<State>, steps: seq<Step>, i: nat)
    requires Run(clean, states, steps) && Quiet(steps) && i < |states| && !states[i].inFlight
    ensures states[i] == IDLE
  {
    RunAnnounced(clean, states, steps, i);
  }

  // ----- nothing is lost -----

  datatype Queue = AffectedIds | OpIds

  function QueueOf(s: State, q: Queue): seq<string>
  {
    if q.AffectedIds? then s.ids else s.ops
  }

  function ItemsOf(p: Pass, q: Queue): seq<string>
  {
    if q.AffectedIds? then p.ids else p.ops
  }

  function AskedOf(step: Step, q: Queue): seq<string>
    requires step.Schedule?
  {
    if q.AffectedIds? then step.ids else step.ops
  }

  /** One call asks for an id in one of its two lists. */
  predicate Asks(clean: Cleaner, step: Step, q: Queue, id: string)
  {
    step.Schedule? && id != "" && exists i :: 0 <= i < |AskedOf(step, q)| && id == clean(AskedOf(step, q)[i])
  }

  predicate Takes(clean: Cleaner, s: State, step: Step, q: Queue, id: string)
  {
    var p := Started(clean, s, step);
    p.Some? && id in ItemsOf(p.value, q)
  }

  predicate TakenAt(clean: Cleaner, states: seq<State>, steps: seq<Step>, j: nat, q: Queue, id: string)
    requires j < |steps| && |states| == |steps| + 1
  {
    Takes(clean, states[j], steps[j], q, id)
  }

  lemma AskedOrTaken(clean: Cleaner, s: State, step: Step, q: Queue, id: string)
    requires Enabled(s, step) && (Asks(clean, step, q, id) || id in QueueOf(s, q))
    ensures id in QueueOf(Next(clean, s, step), q) || Takes(clean, s, step, q, id)
  {
    if step.Schedule? {
      assert id in QueueOf(Queued(clean, s, step.ids, step.ops, step.fullSync), q);
    }
  }

  predicate FullAt(clean: Cleaner, states: seq<State>, steps: seq<Step>, j: nat)
    requires j < |steps| && |states| == |steps| + 1
  {
    var p := Started(clean, states[j], steps[j]);
    p.Some? && p.value.fullSync
  }

  /** An id asked for at step `i` waits in its queue until a pass takes it. */
  lemma {:induction false} TakenOrWaiting(clean: Cleaner, states: seq<State>, steps: seq<Step>, i: nat, k: nat, q: Queue, id: string)
    requires Run(clean, states, steps) && i < k < |states| && Asks(clean, steps[i], q, id)
    ensures id in QueueOf(states[k], q) || exists j :: i <= j < k && TakenAt(clean, states, steps, j, q, id)
  {
    hide Next, Asks, Takes, QueueOf, Enabled;
    assert StepAt(clean, states, steps, k - 1);
    if k > i + 1 {
      TakenOrWaiting(clean, states, steps, i, k - 1, q, id);
    }
    if k == i + 1 || id in QueueOf(states[k - 1], q) {
      AskedOrTaken(clean, states[k - 1], steps[k - 1], q, id);
      assert id in QueueOf(states[k], q) || TakenAt(clean, states, steps, k - 1, q, id);
    }
  }

  lemma {:induction false} FullOrWaiting(clean: Cleaner, states: seq<State>, steps: seq<Step>, i: nat, k: nat)
    requires Run(clean, states, steps) && i < k < |states| && steps[i].Schedule? && steps[i].fullSync
    ensures states[k].fullSync || exists j :: i <= j < k && FullAt(clean, states, steps, j)
  {
    if k == i + 1 {
      assert StepAt(clean, states, steps, i);
      assert !states[i].inFlight ==> FullAt(clean, states, steps, i);
    } else {
      FullOrWaiting(clean, states, steps, i, k - 1);
      assert StepAt(clean, states, steps, k - 1);
      if states[k - 1].fullSync && !states[k].fullSync {
        assert FullAt(clean, states, steps, k - 1);
      }
    }
  }

  /**
   In a run whose passes do not throw, every id asked for is taken by a pass that
   starts no earlier than the call, and no later than the next end of a pass.
   */
  lemma EveryIdIsTaken(clean: Cleaner, states: seq<State>, steps: seq<Step>, i: nat, k: nat, q: Queue, id: string)
    requires Run(clean, states, steps) && Quiet(steps) && i < |steps| && Asks(clean, steps[i], q, id)
    requires i < k < |steps| && steps[k] == PassDone
    ensures exists j :: i <= j <= k && TakenAt(clean, states, steps, j, q, id)
  {
    TakenOrWaiting(clean, states, steps, i, k, q, id);
    if id in QueueOf(states[k], q) {
      RunAnnounced(clean, states, steps, k);
      assert StepAt(clean, states, steps, k);
      assert TakenAt(clean, states, steps, k, q, id);
    } else {
      var j :| i <= j < k && TakenAt(clean, states, steps, j, q, id);
    }
  }

  /** ... the same for a requested full synchronisation. */
  lemma EveryFullSyncIsTaken(clean: Cleaner, states: seq<State>, steps: seq<Step>, i: nat, k: nat)
    requires Run(clean, states, steps) && Quiet(steps) && i < |steps| && steps[i].Schedule? && steps[i].fullSync
    requires i < k < |steps| && steps[k] == PassDone
    ensures exists j :: i <= j <= k && FullAt(clean, states, steps, j)
  {
    FullOrWaiting(clean, states, steps, i, k);
    if states[k].fullSync {
      RunAnnounced(clean, states, steps, k);
      assert StepAt(clean, states, steps, k);
      assert FullAt(clean, states, steps, k);
    } else {
      var j :| i <= j < k && FullAt(clean, states, steps, j);
    }
  }

  // ----- passes -----

  /** Passes started in the first `n` steps, and passes that ended. */
  function Starts(clean: Cleaner, states: seq<State>, steps: seq<Step>, n: nat): nat
    requires |states| == |steps| + 1 && n <= |steps|
  {
    if n == 0 then 0
    else Starts(clean, states, steps, n - 1) + (if Started(clean, states[n - 1], steps[n - 1]).Some? then 1 else 0)
  }

  function Ends(steps: seq<Step>, n: nat): nat
    requires n <= |steps|
  {
    if n == 0 then 0 else Ends(steps, n - 1) + (if steps[n - 1].Schedule? then 0 else 1)
  }

  function Calls(steps: seq<Step>, n: nat): nat
    requires n <= |steps|
  {
    if n == 0 then 0 else Calls(steps, n - 1) + (if steps[n - 1].Schedule? then 1 else 0)
  }

  /** At any time at most one pass is running, and one is exactly while the worker is in flight. */
  lemma {:induction false} PassesDoNotOverlap(clean: Cleaner, states: seq<State>, steps: seq<Step>, n: nat)
    requires Run(clean, states, steps) && n <= |steps|
    ensures Starts(clean, states, steps, n) == Ends(steps, n) + (if states[n].inFlight then 1 else 0)
  {
    if n > 0 {
      PassesDoNotOverlap(clean, states, steps, n - 1);
      assert StepAt(clean, states, steps, n - 1);
    }
  }

  /** The worker stays in flight from step `i` to step `k`. */
  predicate OneWorkerRun(states: seq<State>, i: nat, k: nat)
    requires i < k < |states|
  {
    !states[i].inFlight && forall j :: i < j <= k ==> states[j].inFlight
  }

  lemma {:induction false} PassesCoveredByCalls(clean: Cleaner, states: seq<State>, steps: seq<Step>, i: nat, k: nat)
    requires Run(clean, states, steps) && i < k < |states| && OneWorkerRun(states, i, k)
    ensures Starts(clean, states, steps, k) - Starts(clean, states, steps, i) + (if states[k].dirty then 1 else 0)
         <= 1 + Calls(steps, k) - Calls(steps, i + 1)
  {
    assert StepAt(clean, states, steps, k - 1);
    if k > i + 1 {
      assert OneWorkerRun(states, i, k - 1);
      PassesCoveredByCalls(clean, states, steps, i, k - 1);
    }
  }

  /** In one worker run there are at most one pass more than calls made while it was going on. */
  lemma PassesBounded(clean: Cleaner, states: seq<State>, steps: seq<Step>, i: nat, k: nat)
    requires Run(clean, states, steps) && i < k < |states| && OneWorkerRun(states, i, k)
    ensures Starts(clean, states, steps, k) - Starts(clean, states, steps, i) <= 1 + (Calls(steps, k) - Calls(steps, i + 1))
  {
    PassesCoveredByCalls(clean, states, steps, i, k);
  }

  // ----- a pass that throws -----

  /** A pass starts with empty queues and a clear flag behind it. */
  lemma StartEmpties(clean: Cleaner, s: State, step: Step, q: Queue)
    requires Enabled(s, step) && Started(clean, s, step).Some?
    ensures var t := Next(clean, s, step); QueueOf(t, q) == [] && !t.fullSync && t.inFlight
  {
  }

  predicate OneAsks(clean: Cleaner, steps: seq<Step>, lo: nat, hi: nat, q: Queue, id: string)
    requires hi <= |steps|
  {
    exists i :: lo <= i < hi && Asks(clean, steps[i], q, id)
  }

  predicate OneAsksFull(steps: seq<Step>, lo: nat, hi: nat)
    requires hi <= |steps|
  {
    exists i :: lo <= i < hi && steps[i].Schedule? && steps[i].fullSync
  }

  /** What a call queues: what was there, and what it asks for. */
  lemma QueuedHolds(clean: Cleaner, s: State, step: Step, q: Queue, id: string)
    requires step.Schedule?
    ensures id in QueueOf(Queued(clean, s, step.ids, step.ops, step.fullSync), q) <==> id in QueueOf(s, q) || Asks(clean, step, q, id)
  {
    var asked := AskedOf(step, q);
    assert QueueOf(Queued(clean, s, step.ids, step.ops, step.fullSync), q) == Appended(clean, QueueOf(s, q), asked);
    AppendedHolds(clean, QueueOf(s, q), asked, id);
  }

  lemma AppendedHolds(clean: Cleaner, queue: seq<string>, items: seq<string>, id: string)
    ensures id in Appended(clean, queue, items)
       <==> id in queue || (id != "" && exists i :: 0 <= i < |items| && id == clean(items[i]))
  {
    hide Appended;
  }

  /** A call during a pass adds exactly what it asks for. */
  lemma CallAdds(clean: Cleaner, s: State, step: Step, q: Queue, id: string)
    requires s.inFlight && step.Schedule?
    ensures id in QueueOf(Next(clean, s, step), q) <==> id in QueueOf(s, q) || Asks(clean, step, q, id)
    ensures Next(clean, s, step).fullSync <==> s.fullSync || step.fullSync
    ensures Next(clean, s, step).inFlight
  {
    hide Appended, Asks;
    QueuedHolds(clean, s, step, q, id);
  }

  /** While a pass runs, the queues hold exactly what was asked for since it started. */
  lemma {:induction false} QueuedSinceStart(clean: Cleaner, states: seq<State>, steps: seq<Step>, j: nat, n: nat, q: Queue, id: string)
    requires Run(clean, states, steps) && j < n <= |steps| && Started(clean, states[j], steps[j]).Some?
    requires forall i :: j < i < n ==> steps[i].Schedule?
    ensures states[n].inFlight
    ensures id in QueueOf(states[n], q) <==> OneAsks(clean, steps, j + 1, n, q, id)
    ensures states[n].fullSync <==> OneAsksFull(steps, j + 1, n)
  {
    hide Next, QueueOf, Started, Asks;
    assert StepAt(clean, states, steps, n - 1);
    if n == j + 1 {
      StartEmpties(clean, states[j], steps[j], q);
    } else {
      QueuedSinceStart(clean, states, steps, j, n - 1, q, id);
      CallAdds(clean, states[n - 1], steps[n - 1], q, id);
      if OneAsks(clean, steps, j + 1, n, q, id) && !Asks(clean, steps[n - 1], q, id) {
        var i :| j + 1 <= i < n && Asks(clean, steps[i], q, id);
        assert OneAsks(clean, steps, j + 1, n - 1, q, id);
      }
    }
  }

  /**
   What a throwing pass leaves behind. A pass starts at step `j` and throws at step
   `k`: afterwards an id is queued, and the flag is set, exactly if some call made
   in between asked for it. Whatever the pass had taken is otherwise gone.
   */
  lemma ThrownPassDropsIds(clean: Cleaner, states: seq<State>, steps: seq<Step>, j: nat, k: nat, q: Queue, id: string)
    requires Run(clean, states, steps) && j < k < |steps| && Started(clean, states[j], steps[j]).Some?
    requires (forall i :: j < i < k ==> steps[i].Schedule?) && steps[k].PassThrown?
    ensures !states[k + 1].inFlight
    ensures id in QueueOf(states[k + 1], q) <==> OneAsks(clean, steps, j + 1, k, q, id)
    ensures states[k + 1].fullSync <==> OneAsksFull(steps, j + 1, k)
  {
    QueuedSinceStart(clean, states, steps, j, k, q, id);
    assert StepAt(clean, states, steps, k);
  }

  lemma TakenWasQueued(clean: Cleaner, s: State, step: Step, q: Queue, id: string)
    requires Enabled(s, step) && (Takes(clean, s, step, q, id) || id in QueueOf(Next(clean, s, step), q))
    ensures id in QueueOf(s, q) || Asks(clean, step, q, id)
  {
    hide Appended, FirstOccurrences, Asks;
    if step.Schedule? {
      QueuedHolds(clean, s, step, q, id);
    }
  }

  /** Nothing is queued after a pass has started that was not asked for since. */
  lemma {:induction false} QueuedWasAsked(clean: Cleaner, states: seq<State>, steps: seq<Step>, j: nat, n: nat, q: Queue, id: string)
    requires Run(clean, states, steps) && j < n <= |steps| && Started(clean, states[j], steps[j]).Some?
    requires id in QueueOf(states[n], q)
    ensures OneAsks(clean, steps, j + 1, n, q, id)
  {
    hide Next, QueueOf, Started, Asks, Takes, Enabled;
    assert StepAt(clean, states, steps, n - 1);
    if n == j + 1 {
      StartEmpties(clean, states[j], steps[j], q);
    } else {
      TakenWasQueued(clean, states[n - 1], steps[n - 1], q, id);
      if !Asks(clean, steps[n - 1], q, id) {
        QueuedWasAsked(clean, states, steps, j, n - 1, q, id);
      }
    }
  }

  /** An id taken by a pass is in a later pass only if it was asked for again: a throwing pass is not repeated. */
  lemma TakenAgainOnlyIfAsked(clean: Cleaner, states: seq<State>, steps: seq<Step>, j: nat, m: nat, q: Queue, id: string)
    requires Run(clean, states, steps) && j < m < |steps| && Started(clean, states[j], steps[j]).Some?
    requires TakenAt(clean, states, steps, m, q, id)
    ensures OneAsks(clean, steps, j + 1, m + 1, q, id)
  {
    hide Next, QueueOf, Started, Asks, Takes, Enabled;
    assert StepAt(clean, states, steps, m);
    TakenWasQueued(clean, states[m], steps[m], q, id);
    if !Asks(clean, steps[m], q, id) {
      QueuedWasAsked(clean, states, steps, j, m, q, id);
    }
  }

  /** The shortest such run: one id, one pass, and nothing left of it. */
  lemma OneThrownPass(clean: Cleaner, id: string)
    requires clean(id) == id && id != ""
    ensures var steps := [Schedule([id], [], false), PassThrown];
            var states := [IDLE, State([], [], false, true, false), IDLE];
            && Run(clean, states, steps)
            && TakenAt(clean, states, steps, 0, AffectedIds, id) && !states[2].inFlight && states[2].ids == []
  {
    var steps := [Schedule([id], [], false), PassThrown];
    var states := [IDLE, State([], [], false, true, false), IDLE];
    assert StepAt(clean, states, steps, 0) by {
      assert Appended(clean, [], []) == [];
      assert Appended(clean, [], [id]) == [id];
    }
    assert StepAt(clean, states, steps, 1);
    assert TakenAt(clean, states, steps, 0, AffectedIds, id);
  }

  /** What was queued while the failing pass ran is kept, and taken by the next call, whatever it asks. */
  lemma LeftoversTakenNext(clean: Cleaner, s: State, step: Step, q: Queue, id: string)
    requires s.inFlight && id in QueueOf(s, q) && step.Schedule?
    ensures id in QueueOf(Next(clean, s, PassThrown), q)
    ensures Takes(clean, Next(clean, s, PassThrown), step, q, id)
  {
  }
}
