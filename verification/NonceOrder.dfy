/** Sending a wallet's transactions under the address lock: three attempts, each with a freshly read nonce. */
module NonceOrder {
  import opened Outcomes
  import opened AddrLock

  /** Where the body of one send is. */
  datatype Body =
    | NotStarted
    | Reading(attempt: nat)
    | Sending(attempt: nat, nonce: nat)
    | Returned(nonce: nat)
    | Thrown

  /**
   The chain is an account's pending-nonce counter and the list of nonces of the
   transactions it took. It is permissive: it may take any transaction.
   */
  datatype Wallet = Wallet(bodies: seq<Body>, pending: nat, accepted: seq<nat>)

  datatype Act =
    | Read(c: nat)
    | Accept(c: nat)
    | Lose(c: nat, nonceError: bool)
    | Refuse(c: nat, nonceError: bool)

  predicate Ready(w: Wallet, act: Act)
  {
    act.c < |w.bodies| && if act.Read? then w.bodies[act.c].Reading? else w.bodies[act.c].Sending?
  }

  /** After an error: only a nonce error is tried again, three times in all. */
  function AfterError(attempt: nat, nonceError: bool): Body
  {
    if nonceError && attempt + 1 < 3 then Reading(attempt + 1) else Thrown
  }

  function Taken(w: Wallet, nonce: nat): Wallet
  {
    w.(pending := if nonce == w.pending then w.pending + 1 else w.pending, accepted := w.accepted + [nonce])
  }

  /** `Lose`: the chain took the transaction but the caller sees an error. */
  function Acted(w: Wallet, act: Act): Wallet
    requires Ready(w, act)
  {
    var body := w.bodies[act.c];
    match act
    case Read(c) => w.(bodies := w.bodies[c := Sending(body.attempt, w.pending)])
    case Accept(c) => Taken(w, body.nonce).(bodies := w.bodies[c := Returned(body.nonce)])
    case Lose(c, nonceError) => Taken(w, body.nonce).(bodies := w.bodies[c := AfterError(body.attempt, nonceError)])
    case Refuse(c, nonceError) => w.(bodies := w.bodies[c := AfterError(body.attempt, nonceError)])
  }

  /** All sends of the wallet take the lock first. */
  datatype System = System(lock: State, wallet: Wallet)

  datatype Move = LockMove(step: Step) | BodyMove(act: Act)

  predicate MoveEnabled(s: System, move: Move)
  {
    match move
    case LockMove(step) =>
      Enabled(s.lock, step) && |s.wallet.bodies| == |s.lock.calls|
      && (step.Release? ==> s.wallet.bodies[step.c].Returned? || s.wallet.bodies[step.c].Thrown?)
    case BodyMove(act) => Ready(s.wallet, act)
  }

  function Moved(s: System, move: Move): System
    requires MoveEnabled(s, move)
  {
    match move
    case LockMove(step) =>
      System(Next(s.lock, step), s.wallet.(bodies :=
        match step
        case Enter => s.wallet.bodies + [NotStarted]
        case Settle(_) => s.wallet.bodies
        case Acquire(c) => s.wallet.bodies[c := Reading(0)]
        case Release(_) => s.wallet.bodies))
    case BodyMove(act) => s.(wallet := Acted(s.wallet, act))
  }

  predicate MoveAt(states: seq<System>, moves: seq<Move>, i: nat)
    requires i < |moves| && |states| == |moves| + 1
  {
    MoveEnabled(states[i], moves[i]) && Moved(states[i], moves[i]) == states[i + 1]
  }

  predicate SendRun(states: seq<System>, moves: seq<Move>, first: nat)
  {
    && |states| == |moves| + 1 && states[0] == System(IDLE, Wallet([], first, []))
    && forall i :: 0 <= i < |moves| ==> MoveAt(states, moves, i)
  }

  // ----- the invariant -----

  predicate Consecutive(accepted: seq<nat>, first: nat)
  {
    forall i :: 0 <= i < |accepted| ==> accepted[i] == first + i
  }

  /** A body runs only while its caller holds the lock, and the nonce it read is still the pending one. */
  predicate BodyOk(s: System, c: nat)
    requires |s.wallet.bodies| == |s.lock.calls| && c < |s.lock.calls|
  {
    var body := s.wallet.bodies[c];
    && (body.NotStarted? <==> s.lock.calls[c].phase == Waiting)
    && (body.Reading? || body.Sending? ==> s.lock.calls[c].phase == Holding && body.attempt < 3)
    && (body.Sending? ==> body.nonce == s.wallet.pending)
    && (body.Returned? ==> body.nonce < s.wallet.pending && body.nonce in s.wallet.accepted)
  }

  predicate DifferentNonces(bodies: seq<Body>)
  {
    forall c, d :: 0 <= c < d < |bodies| && bodies[c].Returned? && bodies[d].Returned? ==> bodies[c].nonce != bodies[d].nonce
  }

  predicate SendInv(s: System, first: nat)
  {
    && Inv(s.lock) && |s.wallet.bodies| == |s.lock.calls|
    && Consecutive(s.wallet.accepted, first) && s.wallet.pending == first + |s.wallet.accepted|
    && (forall c :: 0 <= c < |s.lock.calls| ==> BodyOk(s, c))
    && DifferentNonces(s.wallet.bodies)
  }

  lemma OneHolder(s: State, c: nat, d: nat)
    requires Inv(s) && c < |s.calls| && d < |s.calls|
    requires s.calls[c].phase == Holding && s.calls[d].phase == Holding
    ensures c == d
  {
    if d < c {
      assert CallOk(s, c);
      EarlierFinished(s, c, d);
    } else if c < d {
      assert CallOk(s, d);
      EarlierFinished(s, d, c);
    }
  }

  lemma BodyMoveKeeps(s: System, act: Act, first: nat)
    requires SendInv(s, first) && Ready(s.wallet, act)
    ensures SendInv(Moved(s, BodyMove(act)), first)
  {
    var t := Moved(s, BodyMove(act));
    assert BodyOk(s, act.c);
    if act.Accept? {
      assert t.wallet.accepted[|s.wallet.accepted|] == s.wallet.bodies[act.c].nonce;
    }
    forall c | 0 <= c < |t.lock.calls| ensures BodyOk(t, c) {
      assert BodyOk(s, c);
      if c != act.c && s.wallet.bodies[c].Sending? {
        OneHolder(s.lock, c, act.c);
      }
    }
    forall c | 0 <= c < |s.lock.calls| && s.wallet.bodies[c].Returned? ensures s.wallet.bodies[c].nonce < s.wallet.pending {
      assert BodyOk(s, c);
    }
  }

  lemma LockMoveKeeps(s: System, step: Step, first: nat)
    requires SendInv(s, first) && MoveEnabled(s, LockMove(step))
    ensures SendInv(Moved(s, LockMove(step)), first)
  {
    hide Inv;
    var t := Moved(s, LockMove(step));
    StepKeepsInv(s.lock, step);
    forall c | 0 <= c < |t.lock.calls| ensures BodyOk(t, c) {
      if c < |s.lock.calls| {
        assert BodyOk(s, c);
      }
    }
  }

  lemma {:induction false} SendRunKeepsInv(states: seq<System>, moves: seq<Move>, first: nat, i: nat)
    requires SendRun(states, moves, first) && i < |states|
    ensures SendInv(states[i], first)
  {
    if i > 0 {
      SendRunKeepsInv(states, moves, first, i - 1);
      assert MoveAt(states, moves, i - 1);
      match moves[i - 1]
      case LockMove(step) => LockMoveKeeps(states[i - 1], step, first);
      case BodyMove(act) => BodyMoveKeeps(states[i - 1], act, first);
    }
  }

  // ----- what the lock buys -----

  /**
   In every run, the transactions the chain took carry consecutive nonces from the
   first pending one on, and sends that returned carry different ones.
   */
  lemma AcceptedNoncesConsecutive(states: seq<System>, moves: seq<Move>, first: nat, i: nat)
    requires SendRun(states, moves, first) && i < |states|
    ensures Consecutive(states[i].wallet.accepted, first)
    ensures states[i].wallet.pending == first + |states[i].wallet.accepted|
    ensures DifferentNonces(states[i].wallet.bodies)
  {
    SendRunKeepsInv(states, moves, first, i);
  }

  /** Without the lock two sends can read the same nonce, and a permissive chain takes both. */
  lemma UnlockedMayRepeat(first: nat)
    ensures var w := Wallet([Reading(0), Reading(0)], first, []);
            && Ready(w, Read(0)) && Ready(Acted(w, Read(0)), Read(1))
            && var v := Acted(Acted(w, Read(0)), Read(1));
            && Ready(v, Accept(0)) && Ready(Acted(v, Accept(0)), Accept(1))
            && Acted(Acted(v, Accept(0)), Accept(1)).accepted == [first, first]
  {
    var w := Wallet([Reading(0), Reading(0)], first, []);
    var v := Acted(Acted(w, Read(0)), Read(1));
    assert v.bodies == [Sending(0, first), Sending(0, first)];
    assert Acted(v, Accept(0)).accepted == [first];
  }
}
