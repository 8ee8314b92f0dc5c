// One connection, no timers, no cancels, a server that answers each request at most once.

module ChannelMatching {
  import opened Bytes
  import opened RpcChannel
  import opened ChannelLaws

  /** A channel and, for each request its peer has yet to answer, the slot of the call that sent it. */
  datatype Session = Session(c: Channel, open: map<nat, nat>)

  datatype Exchange = NewCall | Answer(call: nat) | HeartbeatAck | Finish(call: nat)

  const Start := Session(RpcChannel.Fresh.(state := Ready), map[])

  /** The slot `asyncCall` will use. */
  function NextSlot(c: Channel): (s: nat) {
    if c.free == [] then |c.pending| else c.free[0]
  }

  predicate Enabled(s: Session, x: Exchange) {
    match x
    case NewCall => RpcChannel.Enabled(s.c, Call)
    case Answer(k) => k in s.open
    case HeartbeatAck => true
    case Finish(k) => k in s.c.inHand
  }

  /** The peer echoes the request id of what it answers, and id 0 in heartbeat acks. */
  function Step(s: Session, x: Exchange): (s': Session)
    requires Enabled(s, x)
  {
    match x
    case NewCall => Session(RpcChannel.Step(s.c, Call), s.open[s.c.issued := NextSlot(s.c)])
    case Answer(k) => Session(RpcChannel.Step(s.c, Response(IdOf(s.open[k]))), s.open - {k})
    case HeartbeatAck => s.(c := RpcChannel.Step(s.c, Response(0)))
    case Finish(k) => s.(c := RpcChannel.Step(s.c, RunDone(k)))
  }

  predicate Possible(s: Session, xs: seq<Exchange>)
    decreases |xs|
  {
    xs == [] || (Enabled(s, xs[0]) && Possible(Step(s, xs[0]), xs[1..]))
  }

  function Run(s: Session, xs: seq<Exchange>): (s': Session)
    requires Possible(s, xs)
    decreases |xs|
  {
    if xs == [] then s else Run(Step(s, xs[0]), xs[1..])
  }

  // ------------------------------------------------------------------ what should happen, and when it does

  /** An answer takes out precisely the call that sent the request; a heartbeat ack takes out none. */
  predicate EndsItsCall(s: Session, x: Exchange)
    requires Enabled(s, x)
  {
    match x
    case Answer(k) => Step(s, x).c.inHand == s.c.inHand + multiset{k}
    case HeartbeatAck => Step(s, x).c.inHand == s.c.inHand
    case _ => true
  }

  predicate AllEndTheirCalls(s: Session, xs: seq<Exchange>)
    requires Possible(s, xs)
    decreases |xs|
  {
    xs == [] || (EndsItsCall(s, xs[0]) && AllEndTheirCalls(Step(s, xs[0]), xs[1..]))
  }

  /** Ids have 32 bits: slot 2^32 and above share ids with lower slots, and slot 2^32 - 1 has the id of acks. */
  predicate IdFits(s: Session, x: Exchange)
    requires Enabled(s, x)
  {
    match x
    case Answer(k) => s.open[k] < TWO32
    case HeartbeatAck => TWO32 - 1 < |s.c.pending| ==> s.c.pending[TWO32 - 1].None?
    case _ => true
  }

  predicate AllIdsFit(s: Session, xs: seq<Exchange>)
    requires Possible(s, xs)
    decreases |xs|
  {
    xs == [] || (IdFits(s, xs[0]) && AllIdsFit(Step(s, xs[0]), xs[1..]))
  }

  // ------------------------------------------------------------------ one exchange

  /** Every unanswered request is still in its slot, and nothing else is in the table. */
  ghost predicate Tracks(s: Session) {
    && (forall k :: k in s.open ==> k < s.c.issued)
    && (forall k :: k in s.open ==>
          s.open[k] < |s.c.pending| && s.c.pending[s.open[k]].Some? && s.c.pending[s.open[k]].value.call == k)
    && (forall i :: 0 <= i < |s.c.pending| && s.c.pending[i].Some? ==>
          s.c.pending[i].value.call in s.open && s.open[s.c.pending[i].value.call] == i)
  }

  ghost predicate Inv(s: Session) {
    FreeExact(s.c) && IdsFollowSlots(s.c) && s.c.state != Closed && Tracks(s)
  }

  /** The slot that the id of slot `t` names: `t` itself if and only if the id did not wrap. */
  function Named(t: nat): (r: nat)
    ensures r <= t && (r == t <==> t < TWO32)
  {
    t % TWO32
  }

  lemma SlotAgain(t: nat)
    ensures SlotOf(IdOf(t)) == Named(t) && IdOf(Named(t)) == IdOf(t)
  {
    var q, r := t / TWO32, t % TWO32;
    assert t + 1 == q * TWO32 + (r + 1);
    if r + 1 < TWO32 {
      assert (t + 1) % TWO32 == r + 1;
    } else {
      assert t + 1 == (q + 1) * TWO32;
    }
  }

  lemma AnswerTakes(s: Session, k: nat)
    requires Inv(s) && k in s.open
    ensures var t := Named(s.open[k]);
            Step(s, Answer(k)).c ==
            if s.c.pending[t].None? then s.c
            else s.c.(pending := s.c.pending[t := None], free := s.c.free + [t],
                      inHand := s.c.inHand + multiset{s.c.pending[t].value.call})
  {
    hide IdOf, SlotOf, Named;
    SlotAgain(s.open[k]);
  }

  lemma AckTakes(s: Session)
    requires Inv(s)
    ensures var t := TWO32 - 1;
            Step(s, HeartbeatAck).c ==
            if t >= |s.c.pending| || s.c.pending[t].None? then s.c
            else s.c.(pending := s.c.pending[t := None], free := s.c.free + [t],
                      inHand := s.c.inHand + multiset{s.c.pending[t].value.call})
  {
  }

  lemma OtherCall(m: multiset<nat>, j: nat, k: nat)
    ensures m + multiset{j} != m
    ensures m + multiset{j} == m + multiset{k} <==> j == k
  {
    assert (m + multiset{j})[j] == m[j] + 1;
    assert j != k ==> (m + multiset{k})[j] == m[j];
  }

  /** An answer ends its own call if and only if the call's slot is below 2^32. */
  lemma AnswerExactly(s: Session, k: nat)
    requires Inv(s) && k in s.open
    ensures EndsItsCall(s, Answer(k)) <==> s.open[k] < TWO32
  {
    hide Step, IdsFollowSlots, FreeExact, Named;
    AnswerTakes(s, k);
    var t := Named(s.open[k]);
    if s.c.pending[t].Some? {
      OtherCall(s.c.inHand, s.c.pending[t].value.call, k);
    } else {
      OtherCall(s.c.inHand, k, k);
    }
  }

  lemma AckExactly(s: Session)
    requires Inv(s)
    ensures EndsItsCall(s, HeartbeatAck) <==> IdFits(s, HeartbeatAck)
  {
    hide Step, IdsFollowSlots, FreeExact, Tracks;
    AckTakes(s);
    if TWO32 - 1 < |s.c.pending| && s.c.pending[TWO32 - 1].Some? {
      OtherCall(s.c.inHand, s.c.pending[TWO32 - 1].value.call, 0);
    }
  }

  lemma ExactlyWhenIdFits(s: Session, x: Exchange)
    requires Inv(s) && Enabled(s, x)
    ensures EndsItsCall(s, x) <==> IdFits(s, x)
  {
    hide Step, Inv;
    match x
    case Answer(k) => AnswerExactly(s, k);
    case HeartbeatAck => AckExactly(s);
    case _ =>
  }

  lemma NewCallKeepsInv(s: Session)
    requires Inv(s) && Enabled(s, NewCall)
    ensures Inv(Step(s, NewCall))
  {
    hide IdOf, SlotOf;
    if s.c.free == [] {
      CallTakesNewSlot(s.c);
    } else {
      CallTakesFreeSlot(s.c);
    }
    NewCallTracked(s);
    hide Tracks;
  }

  lemma NewCallTracked(s: Session)
    requires Inv(s) && Enabled(s, NewCall)
    ensures Tracks(Step(s, NewCall))
  {
    hide IdOf, SlotOf, IdsFollowSlots;
    var t := NextSlot(s.c);
    assert forall k :: k in s.open ==> s.open[k] != t;
    assert forall k :: k in s.open ==> k != s.c.issued;
  }

  lemma AnswerKeepsInv(s: Session, k: nat)
    requires Inv(s) && k in s.open && s.open[k] < TWO32
    ensures Inv(Step(s, Answer(k)))
  {
    hide IdOf, SlotOf;
    AnswerTakes(s, k);
    TakeKeepsFree(s.c, IdOf(s.open[k]));
    AnswerTracked(s, k);
    hide Tracks;
  }

  lemma AnswerTracked(s: Session, k: nat)
    requires Inv(s) && k in s.open && s.open[k] < TWO32
    ensures Tracks(Step(s, Answer(k)))
  {
    hide IdOf, SlotOf, IdsFollowSlots, FreeExact;
    AnswerTakes(s, k);
    hide RpcChannel.Step;
    var s', t := Step(s, Answer(k)), s.open[k];
    assert s'.c.pending == s.c.pending[t := None];
    assert forall j :: j in s'.open ==> s.open[j] != t;
  }

  lemma StepKeepsInv(s: Session, x: Exchange)
    requires Inv(s) && Enabled(s, x) && IdFits(s, x)
    ensures Inv(Step(s, x))
  {
    match x
    case NewCall => NewCallKeepsInv(s);
    case Answer(k) => AnswerKeepsInv(s, k);
    case HeartbeatAck => AckTakes(s);
    case Finish(k) =>
  }

  // ------------------------------------------------------------------ whole runs

  lemma {:induction false} RunExactly(s: Session, xs: seq<Exchange>)
    requires Inv(s) && Possible(s, xs)
    ensures AllEndTheirCalls(s, xs) <==> AllIdsFit(s, xs)
    decreases |xs|
  {
    hide Inv, IdFits, EndsItsCall, Step, Enabled;
    if xs != [] {
      ExactlyWhenIdFits(s, xs[0]);
      if IdFits(s, xs[0]) {
        StepKeepsInv(s, xs[0]);
        RunExactly(Step(s, xs[0]), xs[1..]);
      }
    }
  }

  /**
   * Correct matching: in every run over one connection without timers or cancels, answers in any order each end
   * precisely the call that sent the request and heartbeat acks end none, if and only if no answer is to a call
   * in slot 2^32 or above and no ack arrives while a call is in slot 2^32 - 1.
   */
  lemma {:induction false} CorrectMatching(xs: seq<Exchange>)
    requires Possible(Start, xs)
    ensures AllEndTheirCalls(Start, xs) <==> AllIdsFit(Start, xs)
  {
    RunExactly(Start, xs);
  }

  /** At no point of the run does the table have 2^32 slots or more. */
  predicate TableFits(s: Session, xs: seq<Exchange>)
    requires Possible(s, xs)
    decreases |xs|
  {
    |s.c.pending| < TWO32 && (xs == [] || TableFits(Step(s, xs[0]), xs[1..]))
  }

  lemma {:induction false} SmallTable(s: Session, xs: seq<Exchange>)
    requires Inv(s) && Possible(s, xs) && TableFits(s, xs)
    ensures AllIdsFit(s, xs)
    decreases |xs|
  {
    if xs != [] {
      assert IdFits(s, xs[0]);
      StepKeepsInv(s, xs[0]);
      hide Inv, IdFits, Step, Enabled;
      SmallTable(Step(s, xs[0]), xs[1..]);
    }
  }

  /** With fewer than 2^32 slots every answer ends its own call and no ack ends any. */
  lemma {:induction false} SmallTableMatches(xs: seq<Exchange>)
    requires Possible(Start, xs) && TableFits(Start, xs)
    ensures AllEndTheirCalls(Start, xs)
  {
    SmallTable(Start, xs);
    CorrectMatching(xs);
  }

  // ------------------------------------------------------------------ a run in which ids wrap

  function Calling(n: nat): (xs: seq<Exchange>) {
    if n == 0 then [] else Calling(n - 1) + [NewCall]
  }

  function Table(n: nat): (p: seq<Option<Pending>>)
    ensures |p| == n
    ensures forall i :: 0 <= i < n ==> p[i] == Some(Pending(IdOf(i), i))
  {
    if n == 0 then [] else Table(n - 1) + [Some(Pending(IdOf(n - 1), n - 1))]
  }

  /** Call `k` sits in slot `k`. */
  function Slots(n: nat): (m: map<nat, nat>)
    ensures forall k :: k in m <==> 0 <= k < n
    ensures forall k :: k in m ==> m[k] == k
  {
    if n == 0 then map[] else Slots(n - 1)[n - 1 := n - 1]
  }

  function Busy(n: nat): (s: Session) {
    Session(RpcChannel.Fresh.(state := Ready, pending := Table(n), issued := n), Slots(n))
  }

  lemma {:induction false} RunSnoc(s: Session, xs: seq<Exchange>, x: Exchange)
    requires Possible(s, xs) && Enabled(Run(s, xs), x)
    ensures Possible(s, xs + [x]) && Run(s, xs + [x]) == Step(Run(s, xs), x)
    decreases |xs|
  {
    hide Step, Enabled;
    if xs == [] {
      assert [x][1..] == [];
    } else {
      RunSnoc(Step(s, xs[0]), xs[1..], x);
      assert (xs + [x])[1..] == xs[1..] + [x];
    }
  }

  lemma {:induction false} ManyCalls(n: nat)
    ensures Possible(Start, Calling(n)) && Run(Start, Calling(n)) == Busy(n)
  {
    if n == 0 {
      assert Busy(0) == Start;
    } else {
      ManyCalls(n - 1);
      OneCallMore(n - 1);
      hide Busy, Step, Enabled, Table;
      RunSnoc(Start, Calling(n - 1), NewCall);
    }
  }

  lemma OneCallMore(n: nat)
    ensures Enabled(Busy(n), NewCall) && Step(Busy(n), NewCall) == Busy(n + 1)
  {
    hide IdOf;
  }

  /** With 2^32 + 1 calls open, the answer to the last one ends the first. */
  lemma {:induction false} AnswerEndsAnother(n: nat)
    requires n == TWO32
    ensures Possible(Start, Calling(n + 1)) && Enabled(Run(Start, Calling(n + 1)), Answer(n))
    ensures Step(Run(Start, Calling(n + 1)), Answer(n)).c.inHand == multiset{0}
  {
    ManyCalls(n + 1);
    BusyAnswer(n);
    hide Busy, Calling, Step, Enabled;
  }

  lemma BusyAnswer(n: nat)
    requires n == TWO32
    ensures Enabled(Busy(n + 1), Answer(n)) && Step(Busy(n + 1), Answer(n)).c.inHand == multiset{0}
  {
    hide Table, Slots, IdOf, SlotOf;
    SlotAgain(n);
    assert Busy(n + 1).c.pending[0] == Some(Pending(IdOf(0), 0));
  }
}
