/**
 The per-address lock of the bulletin board: a chain of promises, one link for
 each caller. Every stretch of code between two awaits is one step; the entry of
 one address is modelled, since no step touches another address's entry.
 */
module AddrLock {
  import opened Outcomes

  /** A promise is settled already, settled by its caller, or a link that waits for two others. */
  datatype Promise = Settled | Deferred(done: bool) | Link(prev: nat, next: nat, done: bool)

  datatype Phase = Waiting | Holding | Finished

  /** A caller: the promise it awaits, the one it will settle, and the link it left in the map. */
  datatype Call = Call(prev: nat, next: nat, link: nat, phase: Phase)

  datatype State = State(promises: seq<Promise>, entry: Option<nat>, queued: nat, active: nat, calls: seq<Call>)

  const IDLE := State([], None, 0, 0, [])

  datatype Step = Enter | Settle(p: nat) | Acquire(c: nat) | Release(c: nat)

  predicate Done(promises: seq<Promise>, p: nat)
  {
    p < |promises| && match promises[p]
    case Settled => true
    case Deferred(done) => done
    case Link(_, _, done) => done
  }

  predicate Enabled(s: State, step: Step)
  {
    match step
    case Enter => true
    case Settle(p) => p < |s.promises| && s.promises[p].Link?
                      && Done(s.promises, s.promises[p].prev) && Done(s.promises, s.promises[p].next)
    case Acquire(c) => c < |s.calls| && s.calls[c].phase == Waiting && Done(s.promises, s.calls[c].prev)
    case Release(c) => c < |s.calls| && s.calls[c].phase == Holding && s.calls[c].next < |s.promises|
  }

  /** `Math.max(0, n - 1)` */
  function Decremented(n: nat): nat
  {
    if n == 0 then 0 else n - 1
  }

  function Entered(s: State): State
  {
    var settled: seq<Promise> := if s.entry.None? then [Settled] else [];
    var prev := if s.entry.None? then |s.promises| else s.entry.value;
    var next := |s.promises + settled|;
    State(s.promises + settled + [Deferred(false), Link(prev, next, false)], Some(next + 1), s.queued + 1, s.active,
          s.calls + [Call(prev, next, next + 1, Waiting)])
  }

  function Next(s: State, step: Step): State
    requires Enabled(s, step)
  {
    match step
    case Enter => Entered(s)
    case Settle(p) => s.(promises := s.promises[p := s.promises[p].(done := true)])
    case Acquire(c) =>
      s.(queued := Decremented(s.queued), active := s.active + 1, calls := s.calls[c := s.calls[c].(phase := Holding)])
    case Release(c) =>
      s.(active := Decremented(s.active), calls := s.calls[c := s.calls[c].(phase := Finished)],
         promises := s.promises[s.calls[c].next := Deferred(true)])
  }

  // ----- runs -----

  predicate StepAt(states: seq<State>, steps: seq<Step>, i: nat)
    requires i < |steps| && |states| == |steps| + 1
  {
    Enabled(states[i], steps[i]) && Next(states[i], steps[i]) == states[i + 1]
  }

  predicate Run(states: seq<State>, steps: seq<Step>)
  {
    |states| == |steps| + 1 && states[0] == IDLE && forall i :: 0 <= i < |steps| ==> StepAt(states, steps, i)
  }

  function Count(calls: seq<Call>, phase: Phase): nat
  {
    if calls == [] then 0 else Count(calls[..|calls| - 1], phase) + (if calls[|calls| - 1].phase == phase then 1 else 0)
  }

  /** Caller `c` waits for the link of the caller before it, and its promises say how far it is. */
  predicate CallOk(s: State, c: nat)
    requires c < |s.calls|
  {
    var call := s.calls[c];
    && |s.promises| == 1 + 2 * |s.calls|
    && call.prev == 2 * c && call.next == 2 * c + 1 && call.link == 2 * c + 2
    && s.promises[2 * c + 1] == Deferred(call.phase == Finished)
    && s.promises[2 * c + 2].Link? && s.promises[2 * c + 2].prev == 2 * c && s.promises[2 * c + 2].next == 2 * c + 1
    && (s.promises[2 * c + 2].done ==> call.phase == Finished && Done(s.promises, 2 * c))
    && (call.phase != Waiting ==> Done(s.promises, 2 * c))
  }

  predicate Inv(s: State)
  {
    && (s.calls == [] ==> s.promises == [] && s.entry == None)
    && (s.calls != [] ==> |s.promises| == 1 + 2 * |s.calls| && s.promises[0] == Settled && s.entry == Some(2 * |s.calls|))
    && (forall c :: 0 <= c < |s.calls| ==> CallOk(s, c))
    && s.queued == Count(s.calls, Waiting) && s.active == Count(s.calls, Holding)
  }

  lemma {:induction false} CountUpdate(calls: seq<Call>, c: nat, call: Call, phase: Phase)
    requires c < |calls|
    ensures Count(calls[c := call], phase)
         == Count(calls, phase) - (if calls[c].phase == phase then 1 else 0) + (if call.phase == phase then 1 else 0)
  {
    var n := |calls| - 1;
    if c == n {
      assert calls[c := call][..n] == calls[..n];
    } else {
      CountUpdate(calls[..n], c, call, phase);
      assert calls[c := call][..n] == calls[..n][c := call];
    }
  }

  lemma {:induction false} CountedOnce(calls: seq<Call>, c: nat, phase: Phase)
    requires c < |calls| && calls[c].phase == phase
    ensures Count(calls, phase) >= 1
  {
    if c < |calls| - 1 {
      CountedOnce(calls[..|calls| - 1], c, phase);
    }
  }

  lemma EnterKeepsInv(s: State)
    requires Inv(s)
    ensures Inv(Entered(s))
  {
    var t := Entered(s);
    assert t.calls[..|t.calls| - 1] == s.calls;
    forall c | 0 <= c < |t.calls| ensures CallOk(t, c) {
      if c < |s.calls| {
        assert CallOk(s, c);
      }
    }
  }

  lemma SettleKeepsInv(s: State, p: nat)
    requires Inv(s) && Enabled(s, Settle(p))
    ensures Inv(Next(s, Settle(p)))
  {
    var t := Next(s, Settle(p));
    assert p > 0 && s.calls != [];
    var c := (p - 1) / 2;
    assert CallOk(s, c);
    assert p == 2 * c + 2;
    forall d | 0 <= d < |t.calls| ensures CallOk(t, d) {
      assert CallOk(s, d);
    }
  }

  lemma AcquireKeepsInv(s: State, c: nat)
    requires Inv(s) && Enabled(s, Acquire(c))
    ensures Inv(Next(s, Acquire(c)))
    ensures s.queued >= 1
  {
    var t := Next(s, Acquire(c));
    assert CallOk(s, c);
    forall d | 0 <= d < |t.calls| ensures CallOk(t, d) {
      assert CallOk(s, d);
    }
    CountedOnce(s.calls, c, Waiting);
    CountUpdate(s.calls, c, t.calls[c], Waiting);
    CountUpdate(s.calls, c, t.calls[c], Holding);
  }

  lemma ReleaseKeepsInv(s: State, c: nat)
    requires Inv(s) && Enabled(s, Release(c))
    ensures Inv(Next(s, Release(c)))
    ensures s.active >= 1
  {
    var t := Next(s, Release(c));
    assert CallOk(s, c);
    forall d | 0 <= d < |t.calls| ensures CallOk(t, d) {
      assert CallOk(s, d);
    }
    CountedOnce(s.calls, c, Holding);
    CountUpdate(s.calls, c, t.calls[c], Waiting);
    CountUpdate(s.calls, c, t.calls[c], Holding);
  }

  lemma StepKeepsInv(s: State, step: Step)
    requires Inv(s) && Enabled(s, step)
    ensures Inv(Next(s, step))
  {
    match step
    case Enter => EnterKeepsInv(s);
    case Settle(p) => SettleKeepsInv(s, p);
    case Acquire(c) => AcquireKeepsInv(s, c);
    case Release(c) => ReleaseKeepsInv(s, c);
  }

  lemma {:induction false} RunKeepsInv(states: seq<State>, steps: seq<Step>, i: nat)
    requires Run(states, steps) && i < |states|
    ensures Inv(states[i])
  {
    if i > 0 {
      RunKeepsInv(states, steps, i - 1);
      assert StepAt(states, steps, i - 1);
      StepKeepsInv(states[i - 1], steps[i - 1]);
    }
  }

  // ----- what the lock promises -----

  /** Once the promise a caller awaits is done, every earlier caller has finished. */
  lemma {:induction false} EarlierFinished(s: State, c: nat, d: nat)
    requires Inv(s) && d < c < |s.calls| && Done(s.promises, 2 * c)
    ensures s.calls[d].phase == Finished
  {
    assert CallOk(s, c - 1);
    if d < c - 1 {
      EarlierFinished(s, c - 1, d);
    }
  }

  /** A caller that has the lock, or has had it, comes after callers that are done with it. */
  lemma BehindFinished(s: State, c: nat, d: nat)
    requires Inv(s) && d < c < |s.calls| && s.calls[c].phase != Waiting
    ensures s.calls[d].phase == Finished
  {
    assert CallOk(s, c);
    EarlierFinished(s, c, d);
  }

  lemma HolderAlone(s: State, c: nat)
    requires Inv(s) && c < |s.calls| && s.calls[c].phase == Holding
    ensures forall d :: 0 <= d < |s.calls| ==> (s.calls[d].phase == Holding <==> d == c)
    ensures forall d :: 0 <= d < c ==> s.calls[d].phase == Finished
  {
    forall d | 0 <= d < |s.calls| && d != c ensures s.calls[d].phase != Holding && (d < c ==> s.calls[d].phase == Finished) {
      if d < c {
        BehindFinished(s, c, d);
      } else if s.calls[d].phase == Holding {
        BehindFinished(s, d, c);
      }
    }
  }

  /** A settled link means that its caller and every earlier one have finished. */
  lemma SettledMeans(s: State, p: nat)
    requires Inv(s) && p < |s.promises| && s.promises[p].Link? && Done(s.promises, p)
    ensures forall d :: 0 <= d < |s.calls| && s.calls[d].link <= p ==> s.calls[d].phase == Finished
  {
    assert s.calls != [] && p > 0;
    var c := (p - 1) / 2;
    assert CallOk(s, c);
    assert p == 2 * c + 2;
    forall d | 0 <= d < |s.calls| && s.calls[d].link <= p ensures s.calls[d].phase == Finished {
      assert CallOk(s, d);
      if d < c {
        EarlierFinished(s, c, d);
      }
    }
  }

  // ----- the lock in place -----

  class Lock {
    var promises: seq<Promise>
    var entry: Option<nat>
    var queued: nat
    var active: nat
    var calls: seq<Call>

    function Value(): State
      reads this
    {
      State(promises, entry, queued, active, calls)
    }

    constructor ()
      ensures Value() == IDLE && Inv(Value())
    {
      promises, entry, queued, active, calls := [], None, 0, 0, [];
    }

    /** From the call to the first await: the new caller awaits the link of the one before it, or nothing. */
    method DoEnter() returns (caller: nat)
      requires Inv(Value())
      modifies this
      ensures Inv(Value()) && Value() == Next(old(Value()), Enter)
      ensures caller == |old(calls)| && |calls| == caller + 1 && calls[..caller] == old(calls)
      ensures calls[caller].phase == Waiting
      ensures caller > 0 ==> calls[caller].prev == calls[caller - 1].link
      ensures caller == 0 ==> Enabled(Value(), Acquire(caller))
      ensures queued == old(queued) + 1 && active == old(active)
    {
      ghost var before := Value();
      EnterKeepsInv(before);
      assert |calls| > 0 ==> CallOk(before, |calls| - 1);
      var prev;
      if entry.Some? {
        prev := entry.value;
      } else {
        prev := |promises|;
        promises := promises + [Settled];
      }
      queued := queued + 1;
      var next := |promises|;
      promises := promises + [Deferred(false)];
      var link := |promises|;
      promises := promises + [Link(prev, next, false)];
      entry := Some(link);
      caller := |calls|;
      calls := calls + [Call(prev, next, link, Waiting)];
      assert promises == Entered(before).promises;
      assert Value() == Entered(before);
    }

    /** A link settles once both promises it waits for have: its caller and all before it have let go. */
    method DoSettle(p: nat)
      requires Inv(Value()) && Enabled(Value(), Settle(p))
      modifies this`promises
      ensures Inv(Value()) && Value() == Next(old(Value()), Settle(p))
      ensures Done(promises, p)
      ensures forall d :: 0 <= d < |calls| && calls[d].link <= p ==> calls[d].phase == Finished
    {
      SettleKeepsInv(Value(), p);
      promises := promises[p := promises[p].(done := true)];
      SettledMeans(Value(), p);
    }

    /** From the end of the await to the start of the body: all earlier callers have finished, no later one has begun. */
    method DoAcquire(c: nat)
      requires Inv(Value()) && Enabled(Value(), Acquire(c))
      modifies this
      ensures Inv(Value()) && Value() == Next(old(Value()), Acquire(c))
      ensures forall d :: 0 <= d < |calls| ==> (calls[d].phase == Holding <==> d == c)
      ensures forall d :: 0 <= d < c ==> calls[d].phase == Finished
      ensures queued == old(queued) - 1 && active == old(active) + 1
    {
      AcquireKeepsInv(Value(), c);
      queued := Decremented(queued);
      active := active + 1;
      calls := calls[c := calls[c].(phase := Holding)];
      HolderAlone(Value(), c);
    }

    /** The `finally` block, reached whether the body returned or threw: nobody holds the lock afterwards. */
    method DoRelease(c: nat)
      requires Inv(Value()) && Enabled(Value(), Release(c))
      modifies this
      ensures Inv(Value()) && Value() == Next(old(Value()), Release(c))
      ensures calls[c].phase == Finished && Done(promises, calls[c].next)
      ensures forall d :: 0 <= d < |calls| ==> calls[d].phase != Holding
      ensures active == old(active) - 1 && queued == old(queued)
    {
      ReleaseKeepsInv(Value(), c);
      HolderAlone(Value(), c);
      active := Decremented(active);
      promises := promises[calls[c].next := Deferred(true)];
      calls := calls[c := calls[c].(phase := Finished)];
    }
  }

  /** In every run, a caller that has acquired the lock did so after every earlier caller let it go. */
  lemma ArrivalOrder(states: seq<State>, steps: seq<Step>, i: nat, c: nat, d: nat)
    requires Run(states, steps) && i < |states| && d < c < |states[i].calls|
    requires states[i].calls[c].phase != Waiting
    ensures states[i].calls[d].phase == Finished
  {
    RunKeepsInv(states, steps, i);
    BehindFinished(states[i], c, d);
  }

  /** In every run, at most one caller holds the lock. */
  lemma AtMostOneHolder(states: seq<State>, steps: seq<Step>, i: nat, c: nat, d: nat)
    requires Run(states, steps) && i < |states| && c < |states[i].calls| && d < |states[i].calls|
    requires states[i].calls[c].phase == Holding && states[i].calls[d].phase == Holding
    ensures c == d
  {
    if d < c {
      ArrivalOrder(states, steps, i, c, d);
    } else if c < d {
      ArrivalOrder(states, steps, i, d, c);
    }
  }

  /** In every run, the two counters are the true numbers of waiting and holding callers. */
  lemma CountersExact(states: seq<State>, steps: seq<Step>, i: nat)
    requires Run(states, steps) && i < |states|
    ensures states[i].queued == Count(states[i].calls, Waiting)
    ensures states[i].active == Count(states[i].calls, Holding)
  {
    RunKeepsInv(states, steps, i);
  }

  /** ... so the guards against negative counters never act. */
  lemma ClampsNeverAct(states: seq<State>, steps: seq<Step>, i: nat)
    requires Run(states, steps) && i < |steps|
    ensures steps[i].Acquire? ==> states[i].queued >= 1 && states[i + 1].queued == states[i].queued - 1
    ensures steps[i].Release? ==> states[i].active >= 1 && states[i + 1].active == states[i].active - 1
  {
    RunKeepsInv(states, steps, i);
    assert StepAt(states, steps, i);
    match steps[i]
    case Enter =>
    case Settle(p) =>
    case Acquire(c) => AcquireKeepsInv(states[i], c);
    case Release(c) => ReleaseKeepsInv(states[i], c);
  }

  /** The lock is never stuck: when nobody holds it, the first waiting caller can go on, or a link can settle. */
  lemma NeverStuck(s: State, c: nat)
    requires Inv(s) && c < |s.calls| && s.calls[c].phase == Waiting
    requires forall d :: 0 <= d < c ==> s.calls[d].phase == Finished
    ensures Enabled(s, Acquire(c)) || exists d :: 0 <= d < c && !Done(s.promises, 2 * d + 2) && Enabled(s, Settle(2 * d + 2))
  {
    assert CallOk(s, c);
    if c > 0 && !Done(s.promises, 2 * c) {
      assert CallOk(s, c - 1);
      var d := FirstOpen(s, c - 1);
      assert CallOk(s, d);
    }
  }

  /** The earliest link that has not settled, given one. */
  lemma {:induction false} FirstOpen(s: State, c: nat) returns (d: nat)
    requires Inv(s) && c < |s.calls| && !Done(s.promises, 2 * c + 2)
    requires CallOk(s, c)
    ensures d <= c && CallOk(s, d) && !Done(s.promises, 2 * d + 2) && Done(s.promises, 2 * d)
  {
    if Done(s.promises, 2 * c) {
      d := c;
    } else {
      assert c > 0;
      assert CallOk(s, c - 1);
      d := FirstOpen(s, c - 1);
    }
  }
}
