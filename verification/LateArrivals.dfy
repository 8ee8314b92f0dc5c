// Answers, timers and cancels that arrive when their call has ended (src/RpcChannel.cpp).

module LateArrivals {
  import opened Bytes
  import opened RpcChannel
  import opened ChannelLaws
  import ChannelMatching

  /**
   * A channel and what is still to arrive for its calls: `slots` has the slot every call was given; a call's request
   * is first `unsent`, then `open` on the present connection until it is answered; its timer is first in `timing`,
   * until the loop gets to set it, then `armed`. Requests not yet written outlive a close, those written do not;
   * timers are never taken back.
   */
  datatype Session = Session(
    c: Channel, slots: map<nat, nat>, unsent: set<nat>, open: set<nat>, timing: set<nat>, armed: set<nat>)

  const Start := Session(RpcChannel.Fresh, map[], {}, {}, {}, {})

  datatype Happening =
    | NewCall(timed: bool)
    | Write(call: nat)
    | Lose(call: nat)
    | Answer(call: nat)
    | Arm(call: nat, timeoutMs: nat)
    | Expire(call: nat)
    | Cancel(call: nat)
    | HeartbeatAck
    | Other(e: Event)

  /**
   * A call's timer is set before its request is written: the loop gets both tasks in that order. A request is written
   * once the connection is up, even a later connection than the one it was meant for, or it is lost.
   */
  predicate Enabled(s: Session, x: Happening) {
    match x
    case NewCall(_) => RpcChannel.Enabled(s.c, Call)
    case Write(k) => k in s.unsent && k in s.slots && k !in s.timing && s.c.state == Ready
    case Lose(k) => k in s.unsent && k in s.slots
    case Answer(k) => k in s.open && k in s.slots
    case Arm(k, _) => k in s.timing && k in s.slots
    case Expire(k) => k in s.armed && k in s.slots
    case Cancel(k) => k in s.slots
    case HeartbeatAck => true
    case Other(e) => !e.Call? && !e.Response? && !e.GiveUp? && RpcChannel.Enabled(s.c, e)
  }

  /** What the happening does to the channel. */
  function ChannelAfter(s: Session, x: Happening): (c: Channel)
    requires Enabled(s, x)
  {
    match x
    case NewCall(_) => RpcChannel.Step(s.c, Call)
    case Write(_) => s.c
    case Lose(_) => s.c
    case Answer(k) => RpcChannel.Step(s.c, Response(IdOf(s.slots[k])))
    case Arm(_, _) => s.c
    case Expire(k) => RpcChannel.Step(s.c, GiveUp(IdOf(s.slots[k])))
    case Cancel(k) => RpcChannel.Step(s.c, GiveUp(IdOf(s.slots[k])))
    case HeartbeatAck => RpcChannel.Step(s.c, Response(0))
    case Other(e) => RpcChannel.Step(s.c, e)
  }

  /**
   * A closed channel gives out no slot; a timer is set only if a call is in the slot, with that call's timeout;
   * what was written to a socket that is closed is never answered.
   */
  function Step(s: Session, x: Happening): (s': Session)
    requires Enabled(s, x)
  {
    var s1 := s.(c := ChannelAfter(s, x));
    match x
    case NewCall(timed) =>
      if s.c.state == Closed then s1
      else
        var k := s.c.issued;
        s1.(slots := s.slots[k := ChannelMatching.NextSlot(s.c)], unsent := s.unsent + {k},
            timing := if timed then s.timing + {k} else s.timing)
    case Write(k) => s1.(unsent := s.unsent - {k}, open := s.open + {k})
    case Lose(k) => s1.(unsent := s.unsent - {k})
    case Answer(k) => s1.(open := s.open - {k})
    case Arm(k, timeoutMs) =>
      s1.(timing := s.timing - {k},
          armed := if Matches(s.c, IdOf(s.slots[k])) && timeoutMs > 0 then s.armed + {k} else s.armed)
    case Expire(k) => s1.(armed := s.armed - {k})
    case Other(e) => if e.CloseBegins? || e.Stop? then s1.(open := {}) else s1
    case _ => s1
  }

  predicate Possible(s: Session, xs: seq<Happening>)
    decreases |xs|
  {
    xs == [] || (Enabled(s, xs[0]) && Possible(Step(s, xs[0]), xs[1..]))
  }

  function Run(s: Session, xs: seq<Happening>): (s': Session)
    requires Possible(s, xs)
    decreases |xs|
  {
    if xs == [] then s else Run(Step(s, xs[0]), xs[1..])
  }

  // ------------------------------------------------------------------ what is promised, and when it holds

  /** The happening speaks for a call: its answer, its timer or its cancellation. */
  predicate Speaks(x: Happening) {
    x.Answer? || x.Expire? || x.Cancel?
  }

  /** The slot that the id of the happening's call names. */
  function NamedSlot(s: Session, x: Happening): (t: nat)
    requires Enabled(s, x) && Speaks(x)
  {
    ChannelMatching.Named(s.slots[x.call])
  }

  predicate Occupied(c: Channel, t: nat) {
    t < |c.pending| && c.pending[t].Some?
  }

  /** It ends the call it speaks for, or nobody. */
  predicate EndsOwnOrNobody(s: Session, x: Happening)
    requires Enabled(s, x) && Speaks(x)
  {
    var after := Step(s, x).c.inHand;
    after == s.c.inHand || after == s.c.inHand + multiset{x.call}
  }

  predicate FindsAnother(s: Session, x: Happening)
    requires Enabled(s, x) && Speaks(x)
  {
    var t := NamedSlot(s, x);
    Occupied(s.c, t) && s.c.pending[t].value.call != x.call
  }

  /** The call has left the table: answered, timed out, cancelled or failed by a close. */
  ghost predicate Ended(c: Channel, k: nat) {
    forall t :: 0 <= t < |c.pending| && c.pending[t].Some? ==> c.pending[t].value.call != k
  }

  // ------------------------------------------------------------------ one happening

  ghost predicate TableInv(c: Channel) {
    FreeExact(c) && IdsFollowSlots(c) && ClosedIsEmpty(c)
  }

  lemma StepKeepsTableInv(s: Session, x: Happening)
    requires TableInv(s.c) && Enabled(s, x)
    ensures TableInv(Step(s, x).c)
  {
    hide RpcChannel.Step, FreeExact, IdsFollowSlots, ClosedIsEmpty, IdOf;
    match x
    case NewCall(_) => StepKeepsTable(s.c, Call);
    case Write(_) =>
    case Lose(_) =>
    case Answer(k) => StepKeepsTable(s.c, Response(IdOf(s.slots[k])));
    case Arm(_, _) =>
    case Expire(k) => StepKeepsTable(s.c, GiveUp(IdOf(s.slots[k])));
    case Cancel(k) => StepKeepsTable(s.c, GiveUp(IdOf(s.slots[k])));
    case HeartbeatAck => StepKeepsTable(s.c, Response(0));
    case Other(e) => StepKeepsTable(s.c, e);
  }

  /** Whoever sits in the named slot is taken out. */
  lemma TakesTenant(s: Session, x: Happening)
    requires TableInv(s.c) && Enabled(s, x) && Speaks(x)
    ensures var t := NamedSlot(s, x);
            Step(s, x).c ==
            if Occupied(s.c, t)
            then s.c.(pending := s.c.pending[t := None], free := s.c.free + [t],
                      inHand := s.c.inHand + multiset{s.c.pending[t].value.call})
            else s.c
  {
    hide IdOf, SlotOf, ChannelMatching.Named, FreeExact;
    ChannelMatching.SlotAgain(s.slots[x.call]);
  }

  lemma ExactlyUnlessAnother(s: Session, x: Happening)
    requires TableInv(s.c) && Enabled(s, x) && Speaks(x)
    ensures EndsOwnOrNobody(s, x) <==> !FindsAnother(s, x)
    ensures Ended(s.c, x.call) ==> (Step(s, x).c == s.c <==> !Occupied(s.c, NamedSlot(s, x)))
  {
    hide Step, NamedSlot, TableInv;
    TakesTenant(s, x);
    var t := NamedSlot(s, x);
    if Occupied(s.c, t) {
      ChannelMatching.OtherCall(s.c.inHand, s.c.pending[t].value.call, x.call);
    }
  }

  // ------------------------------------------------------------------ whole runs

  lemma {:induction false} RunKeepsTableInv(s: Session, xs: seq<Happening>)
    requires TableInv(s.c) && Possible(s, xs)
    ensures TableInv(Run(s, xs).c)
    decreases |xs|
  {
    hide TableInv, Step, Enabled;
    if xs != [] {
      StepKeepsTableInv(s, xs[0]);
      RunKeepsTableInv(Step(s, xs[0]), xs[1..]);
    }
  }

  predicate AllEndOwnOrNobody(s: Session, xs: seq<Happening>)
    requires Possible(s, xs)
    decreases |xs|
  {
    xs == [] || ((Speaks(xs[0]) ==> EndsOwnOrNobody(s, xs[0])) && AllEndOwnOrNobody(Step(s, xs[0]), xs[1..]))
  }

  predicate NoneFindsAnother(s: Session, xs: seq<Happening>)
    requires Possible(s, xs)
    decreases |xs|
  {
    xs == [] || ((Speaks(xs[0]) ==> !FindsAnother(s, xs[0])) && NoneFindsAnother(Step(s, xs[0]), xs[1..]))
  }

  lemma {:induction false} RunExactly(s: Session, xs: seq<Happening>)
    requires TableInv(s.c) && Possible(s, xs)
    ensures AllEndOwnOrNobody(s, xs) <==> NoneFindsAnother(s, xs)
    decreases |xs|
  {
    hide TableInv, Step, Enabled, EndsOwnOrNobody, FindsAnother;
    if xs != [] {
      StepKeepsTableInv(s, xs[0]);
      if Speaks(xs[0]) {
        ExactlyUnlessAnother(s, xs[0]);
      }
      RunExactly(Step(s, xs[0]), xs[1..]);
    }
  }

  /**
   * In every run of calls, answers, timers, cancels, closes and reconnects: every answer, timer and cancel ends the
   * call it speaks for or nobody, if and only if none finds another call in the slot its id names.
   */
  lemma {:induction false} NoStraysExactly(xs: seq<Happening>)
    requires Possible(Start, xs)
    ensures AllEndOwnOrNobody(Start, xs) <==> NoneFindsAnother(Start, xs)
  {
    RunExactly(Start, xs);
  }

  /**
   * In every run, what arrives late, when its call has left the table, is dropped without trace if and only if the
   * slot its id names is empty.
   */
  lemma {:induction false} LateIsDroppedExactly(xs: seq<Happening>, x: Happening)
    requires Possible(Start, xs) && Enabled(Run(Start, xs), x) && Speaks(x)
    requires Ended(Run(Start, xs).c, x.call)
    ensures var s := Run(Start, xs); Step(s, x).c == s.c <==> !Occupied(s.c, NamedSlot(s, x))
  {
    RunKeepsTableInv(Start, xs);
    ExactlyUnlessAnother(Run(Start, xs), x);
  }

  // ------------------------------------------------------------------ who is hit

  /** Nothing but the call itself or a later one is ever in a call's slot; a channel is only closing when closed. */
  ghost predicate LaterTenants(s: Session) {
    && (forall k :: k in s.slots ==> k < s.c.issued)
    && (forall k :: k in s.slots && Occupied(s.c, s.slots[k]) ==> s.c.pending[s.slots[k]].value.call >= k)
    && (forall t: nat :: Occupied(s.c, t) ==> s.c.pending[t].value.call < s.c.issued)
    && (s.c.closing ==> s.c.state == Closed)
  }

  lemma NewCallKeepsLaterTenants(s: Session, x: Happening)
    requires x.NewCall? && Enabled(s, x) && LaterTenants(s)
    ensures LaterTenants(Step(s, x))
  {
    hide IdOf;
  }

  lemma StepKeepsLaterTenants(s: Session, x: Happening)
    requires Enabled(s, x) && LaterTenants(s)
    ensures LaterTenants(Step(s, x))
  {
    if x.NewCall? {
      NewCallKeepsLaterTenants(s, x);
    } else {
      hide LaterTenants;
      NoNewTenants(s, x);
      FewerTenants(s, Step(s, x));
    }
  }

  /** Every call left in the table was in the same slot before. */
  ghost predicate Shrinks(c: Channel, c': Channel) {
    && c'.issued == c.issued
    && ((c.closing ==> c.state == Closed) ==> c'.closing ==> c'.state == Closed)
    && forall t: nat :: Occupied(c', t) ==> Occupied(c, t) && c'.pending[t] == c.pending[t]
  }

  lemma TakingShrinks(c: Channel, id: uint32)
    ensures Shrinks(c, TakeStep(c, id))
  {
    hide SlotOf;
  }

  lemma OthersShrink(c: Channel, e: Event)
    requires !e.Call? && !e.Response? && !e.GiveUp? && RpcChannel.Enabled(c, e)
    ensures Shrinks(c, RpcChannel.Step(c, e))
  {
    hide Calls, CallStep, TakeStep;
  }

  /** Other happenings only ever take calls out of the table. */
  lemma NoNewTenants(s: Session, x: Happening)
    requires Enabled(s, x) && !x.NewCall?
    ensures Step(s, x).slots == s.slots && Shrinks(s.c, Step(s, x).c)
  {
    hide IdOf, SlotOf, TakeStep, CallStep;
    match x
    case Write(_) =>
    case Lose(_) =>
    case Answer(k) => TakingShrinks(s.c, IdOf(s.slots[k]));
    case Expire(k) => TakingShrinks(s.c, IdOf(s.slots[k]));
    case Cancel(k) => TakingShrinks(s.c, IdOf(s.slots[k]));
    case HeartbeatAck => TakingShrinks(s.c, 0);
    case Arm(_, _) =>
    case Other(e) => OthersShrink(s.c, e);
    hide Shrinks;
  }

  lemma FewerTenants(s: Session, s': Session)
    requires LaterTenants(s) && s'.slots == s.slots && Shrinks(s.c, s'.c)
    ensures LaterTenants(s')
  {
  }

  lemma {:induction false} RunKeepsLaterTenants(s: Session, xs: seq<Happening>)
    requires TableInv(s.c) && LaterTenants(s) && Possible(s, xs)
    ensures TableInv(Run(s, xs).c) && LaterTenants(Run(s, xs))
    decreases |xs|
  {
    hide TableInv, LaterTenants, Step, Enabled;
    if xs != [] {
      StepKeepsTableInv(s, xs[0]);
      StepKeepsLaterTenants(s, xs[0]);
      RunKeepsLaterTenants(Step(s, xs[0]), xs[1..]);
    }
  }

  /** While ids do not wrap, the call that is ended by mistake was issued after the one it is mistaken for. */
  lemma {:induction false} VictimIsLater(xs: seq<Happening>, x: Happening)
    requires Possible(Start, xs) && Enabled(Run(Start, xs), x) && Speaks(x)
    requires Run(Start, xs).slots[x.call] < TWO32 && FindsAnother(Run(Start, xs), x)
    ensures var s := Run(Start, xs);
            s.c.pending[NamedSlot(s, x)].value.call > x.call
  {
    RunKeepsLaterTenants(Start, xs);
  }

  // ------------------------------------------------------------------ which timers run

  /** A timer is set when the loop gets to it, if its timeout is positive and anybody is in the slot its id names. */
  predicate SetsTimer(s: Session, x: Happening, k: nat)
    requires Enabled(s, x)
  {
    x.Arm? && x.call == k && x.timeoutMs > 0 && Occupied(s.c, ChannelMatching.Named(s.slots[k]))
  }

  /** The timer of call `k` runs after `xs`, if it ran before or not: it was set last and has not expired since. */
  predicate TimerRuns(s: Session, xs: seq<Happening>, k: nat, running: bool)
    requires Possible(s, xs)
    decreases |xs|
  {
    if xs == [] then running
    else TimerRuns(Step(s, xs[0]), xs[1..], k, SetsTimer(s, xs[0], k) || (running && xs[0] != Expire(k)))
  }

  lemma StepTimer(s: Session, x: Happening, k: nat)
    requires TableInv(s.c) && Enabled(s, x)
    ensures k in Step(s, x).armed <==> SetsTimer(s, x, k) || (k in s.armed && x != Expire(k))
  {
    if x.Arm? {
      ChannelMatching.SlotAgain(s.slots[x.call]);
    }
    hide IdOf, SlotOf, ChannelMatching.Named, FreeExact, ChannelAfter;
  }

  lemma {:induction false} RunTimers(s: Session, xs: seq<Happening>, k: nat)
    requires TableInv(s.c) && Possible(s, xs)
    ensures k in Run(s, xs).armed <==> TimerRuns(s, xs, k, k in s.armed)
    decreases |xs|
  {
    hide TableInv, Step, Enabled, SetsTimer;
    if xs != [] {
      StepKeepsTableInv(s, xs[0]);
      StepTimer(s, xs[0], k);
      RunTimers(Step(s, xs[0]), xs[1..], k);
    }
  }

  /**
   * In every run the timer of a call can fire if and only if it was set, which takes a positive timeout and a call,
   * its own or another, in the slot its id names, and has not fired since.
   */
  lemma {:induction false} TimersExactly(xs: seq<Happening>, k: nat)
    requires Possible(Start, xs)
    ensures k in Run(Start, xs).armed <==> TimerRuns(Start, xs, k, false)
  {
    RunTimers(Start, xs, k);
  }

  // ------------------------------------------------------------------ a timer that outlives its call

  lemma {:induction false} RunSnoc(s: Session, xs: seq<Happening>, x: Happening)
    requires Possible(s, xs) && Enabled(Run(s, xs), x)
    ensures Possible(s, xs + [x]) && Run(s, xs + [x]) == Step(Run(s, xs), x)
    decreases |xs|
  {
    hide Step, Enabled;
    if xs == [] {
      assert [x][1..] == [];
    } else {
      RunSnoc(Step(s, xs[0]), xs[1..], x);
      assert (xs + [x])[1..] == xs[1..] + [x];
    }
  }

  const CONNECTED := RpcChannel.Fresh.(state := Ready)

  /** The channel with call 0 in slot 0 and its timer running. */
  const TIMED := Session(CONNECTED.(pending := [Some(Pending(1, 0))], issued := 1), map[0 := 0], {}, {0}, {}, {0})

  /** Call 0 answered and finished, call 1 in its slot, and the timer of call 0 still running. */
  const REUSED := Session(
    CONNECTED.(pending := [Some(Pending(1, 1))], issued := 2, done := multiset{0}), map[0 := 0, 1 := 0],
    {1}, {}, {}, {0})

  const UP: seq<Happening> := [] + [Other(Connect)] + [Other(Connected)]
  const OPENING: seq<Happening> := UP + [NewCall(true)] + [Arm(0, 50)] + [Write(0)]
  const REUSING: seq<Happening> := OPENING + [Answer(0)] + [Other(RunDone(0))] + [NewCall(false)]

  lemma {:induction false} OpeningRun()
    ensures Possible(Start, OPENING) && Run(Start, OPENING) == TIMED
  {
    assert Possible(Start, []) && Run(Start, []) == Start;
    hide Possible, Run;
    RunSnoc(Start, [], Other(Connect));
    RunSnoc(Start, [] + [Other(Connect)], Other(Connected));
    RunSnoc(Start, UP, NewCall(true));
    RunSnoc(Start, UP + [NewCall(true)], Arm(0, 50));
    RunSnoc(Start, UP + [NewCall(true)] + [Arm(0, 50)], Write(0));
  }

  lemma {:induction false} ReusingRun()
    ensures Possible(Start, REUSING) && Run(Start, REUSING) == REUSED
  {
    OpeningRun();
    hide Possible, Run;
    RunSnoc(Start, OPENING, Answer(0));
    RunSnoc(Start, OPENING + [Answer(0)], Other(RunDone(0)));
    RunSnoc(Start, OPENING + [Answer(0)] + [Other(RunDone(0))], NewCall(false));
  }

  /** It happens: call 0 was answered in time, yet its timer ends call 1, which has its slot and id by then. */
  lemma {:induction false} TimerEndsAnother()
    ensures Possible(Start, REUSING) && Enabled(Run(Start, REUSING), Expire(0))
    ensures Run(Start, REUSING).c.done == multiset{0}
    ensures Step(Run(Start, REUSING), Expire(0)).c.inHand == multiset{1}
  {
    ReusingRun();
    hide Possible, Run;
  }
}
