// The client's slot table (src/RpcChannel.cpp): many calls multiplexed over one connection.

module RpcChannel {
  import opened Bytes

  datatype ConnState = Idle | Connecting | Ready | Closed

  /** A pending call: `call` numbers the calls of a run in the order they were issued. */
  datatype Pending = Pending(id: uint32, call: nat)

  /**
   * The slot table, and what has become of every call: `inHand` are the calls taken out of the table whose
   * `done` has not run yet, `done` counts the runs of each call's `done`. `closing` holds while `handleClose`
   * has set the state but not yet emptied the table.
   */
  datatype Channel = Channel(
    state: ConnState,
    pending: seq<Option<Pending>>,
    free: seq<nat>,
    closing: bool,
    inHand: multiset<nat>,
    done: multiset<nat>,
    issued: nat)

  const Fresh := Channel(Idle, [], [], false, multiset{}, multiset{}, 0)

  // ------------------------------------------------------------------ steps, one per locked section

  /** `static_cast<uint32_t>(slot) + 1`. */
  function IdOf(slot: nat): (id: uint32) {
    (slot + 1) % TWO32
  }

  /** `id - 1` in 32-bit arithmetic: id 0 wraps to the top. */
  function SlotOf(id: uint32): (slot: nat) {
    if id == 0 then TWO32 - 1 else id - 1
  }

  /** `asyncCall`: a closed channel fails the call at once, an open one gives it a slot. */
  function CallStep(c: Channel): (c': Channel)
    requires c.free != [] ==> c.free[0] < |c.pending|
  {
    if c.state == Closed then
      c.(issued := c.issued + 1, done := c.done + multiset{c.issued})
    else if c.free == [] then
      c.(issued := c.issued + 1, pending := c.pending + [Some(Pending(IdOf(|c.pending|), c.issued))])
    else
      c.(issued := c.issued + 1,
         pending := c.pending[c.free[0] := Some(Pending(IdOf(c.free[0]), c.issued))],
         free := c.free[1..])
  }

  /** Whether the table has a call under this id. */
  predicate Matches(c: Channel, id: uint32) {
    var s := SlotOf(id);
    s < |c.pending| && c.pending[s].Some? && c.pending[s].value.id == id
  }

  /** The locked section shared by `failPending` and `dispatchResponse`. */
  function TakeStep(c: Channel, id: uint32): (c': Channel) {
    if !Matches(c, id) then c
    else
      var s := SlotOf(id);
      c.(pending := c.pending[s := None], free := c.free + [s],
         inHand := c.inHand + multiset{c.pending[s].value.call})
  }

  /** The calls in the table. */
  function Calls(p: seq<Option<Pending>>): (m: multiset<nat>) {
    if p == [] then multiset{}
    else Calls(p[..|p| - 1]) + match p[|p| - 1] { case None => multiset{} case Some(q) => multiset{q.call} }
  }

  /** `doomed.swap(pending_)` together with the free queue. */
  function EmptyTable(c: Channel): (c': Channel) {
    c.(pending := [], free := [], inHand := c.inHand + Calls(c.pending))
  }

  datatype Event =
    | Call
    | Response(id: uint32)
    | GiveUp(id: uint32)
    | RunDone(call: nat)
    | CloseBegins
    | CloseEmpties
    | Stop
    | Connect
    | Connected

  predicate Enabled(c: Channel, e: Event) {
    match e
    case Call => c.free != [] ==> c.free[0] < |c.pending|
    case RunDone(k) => k in c.inHand
    case CloseEmpties => c.closing
    case Connect => (c.state == Idle || c.state == Closed) && !c.closing
    case Connected => c.state == Connecting
    case _ => true
  }

  function Step(c: Channel, e: Event): (c': Channel)
    requires Enabled(c, e)
  {
    match e
    case Call => CallStep(c)
    case Response(id) => TakeStep(c, id)
    case GiveUp(id) => TakeStep(c, id)
    case RunDone(k) => c.(inHand := c.inHand - multiset{k}, done := c.done + multiset{k})
    case CloseBegins => if c.state == Closed then c else c.(state := Closed, closing := true)
    case CloseEmpties => EmptyTable(c).(closing := false)
    case Stop => EmptyTable(c).(state := Closed)
    case Connect => c.(state := Connecting)
    case Connected => c.(state := Ready)
  }

  predicate Possible(c: Channel, es: seq<Event>)
    decreases |es|
  {
    es == [] || (Enabled(c, es[0]) && Possible(Step(c, es[0]), es[1..]))
  }

  function Run(c: Channel, es: seq<Event>): (c': Channel)
    requires Possible(c, es)
    decreases |es|
  {
    if es == [] then c else Run(Step(c, es[0]), es[1..])
  }

  // ------------------------------------------------------------------ closing as a run

  lemma {:induction false} RunSnoc(c: Channel, es: seq<Event>, e: Event)
    requires Possible(c, es) && Enabled(Run(c, es), e)
    ensures Possible(c, es + [e]) && Run(c, es + [e]) == Step(Run(c, es), e)
    decreases |es|
  {
    if es == [] {
      assert [e][1..] == [];
    } else {
      RunSnoc(Step(c, es[0]), es[1..], e);
      assert (es + [e])[1..] == es[1..] + [e];
    }
  }

  /** Running the callback of every call in `p`, slot by slot. */
  function Finishes(p: seq<Option<Pending>>): (es: seq<Event>) {
    if p == [] then []
    else Finishes(p[..|p| - 1]) + match p[|p| - 1] { case None => [] case Some(q) => [RunDone(q.call)] }
  }

  /** The calls of `m`, in hand before, have had their callbacks run. */
  function Finished(c: Channel, m: multiset<nat>): (c': Channel) {
    c.(inHand := c.inHand - m, done := c.done + m)
  }

  lemma FinishedOneMore(c: Channel, m: multiset<nat>, k: nat)
    requires m + multiset{k} <= c.inHand
    ensures Enabled(Finished(c, m), RunDone(k))
    ensures Step(Finished(c, m), RunDone(k)) == Finished(c, m + multiset{k})
  {
    assert (c.inHand - m)[k] > 0;
    assert c.inHand - m - multiset{k} == c.inHand - (m + multiset{k});
    assert c.done + m + multiset{k} == c.done + (m + multiset{k});
  }

  lemma FinishedNone(c: Channel)
    ensures Finished(c, multiset{}) == c
  {
    assert c.inHand - multiset{} == c.inHand;
    assert c.done + multiset{} == c.done;
  }

  lemma {:induction false} FinishesRun(c: Channel, p: seq<Option<Pending>>)
    requires Calls(p) <= c.inHand
    ensures Possible(c, Finishes(p)) && Run(c, Finishes(p)) == Finished(c, Calls(p))
    decreases |p|
  {
    if p == [] {
      FinishedNone(c);
    } else {
      hide Possible, Run, Step, Enabled, Finished;
      var front, last := p[..|p| - 1], p[|p| - 1];
      FinishesRun(c, front);
      match last
      case None =>
        assert Finishes(front) + [] == Finishes(front);
        assert Calls(front) + multiset{} == Calls(front);
      case Some(q) =>
        FinishedOneMore(c, Calls(front), q.call);
        RunSnoc(c, Finishes(front), RunDone(q.call));
    }
  }

  lemma {:induction false} RunCons(c: Channel, e: Event, es: seq<Event>)
    requires Enabled(c, e) && Possible(Step(c, e), es)
    ensures Possible(c, [e] + es) && Run(c, [e] + es) == Run(Step(c, e), es)
  {
    hide Step, Enabled;
    assert ([e] + es)[1..] == es;
  }

  lemma FinishedTable(c: Channel)
    ensures Calls(c.pending) <= EmptyTable(c).inHand
    ensures Finished(EmptyTable(c), Calls(c.pending)) ==
            c.(pending := [], free := [], done := c.done + Calls(c.pending))
  {
    hide Calls;
    assert c.inHand + Calls(c.pending) - Calls(c.pending) == c.inHand;
  }

  function CloseEvents(c: Channel): (es: seq<Event>) {
    if c.state == Closed then [CloseBegins] else [CloseBegins, CloseEmpties] + Finishes(c.pending)
  }

  function StopEvents(c: Channel): (es: seq<Event>) {
    [Stop] + Finishes(c.pending)
  }

  lemma {:induction false} StopIsRun(c: Channel)
    ensures Possible(c, StopEvents(c))
    ensures Run(c, StopEvents(c)) == c.(state := Closed, pending := [], free := [], done := c.done + Calls(c.pending))
  {
    FinishedTable(c.(state := Closed));
    FinishesRun(Step(c, Stop), c.pending);
    RunCons(c, Stop, Finishes(c.pending));
    hide Run, Possible, Calls, Finishes;
  }

  lemma {:induction false} CloseIsRun(c: Channel)
    ensures Possible(c, CloseEvents(c))
    ensures Run(c, CloseEvents(c)) ==
            if c.state == Closed then c
            else c.(state := Closed, closing := false, pending := [], free := [], done := c.done + Calls(c.pending))
  {
    if c.state == Closed {
      RunCons(c, CloseBegins, []);
    } else {
      hide Run, Possible, Calls, Finishes, Step, Enabled, EmptyTable, Finished;
      var c1, gone := c.(state := Closed, closing := true), c.(state := Closed, closing := false);
      CloseSteps(c);
      FinishedTable(gone);
      FinishesRun(EmptyTable(gone), c.pending);
      RunCons(c1, CloseEmpties, Finishes(c.pending));
      RunCons(c, CloseBegins, [CloseEmpties] + Finishes(c.pending));
      assert [CloseBegins] + ([CloseEmpties] + Finishes(c.pending)) == CloseEvents(c);
    }
  }

  lemma CloseSteps(c: Channel)
    requires c.state != Closed
    ensures var c1 := c.(state := Closed, closing := true);
            && Enabled(c, CloseBegins) && Step(c, CloseBegins) == c1 && Enabled(c1, CloseEmpties)
            && Step(c1, CloseEmpties) == EmptyTable(c.(state := Closed, closing := false))
  {
  }

  // ------------------------------------------------------------------ the code

  class ClientChannel {
    var state: ConnState
    var pending: seq<Option<Pending>>
    var freeSlots: seq<nat>
    ghost var closing: bool
    ghost var inHand: multiset<nat>
    ghost var done: multiset<nat>
    ghost var issued: nat

    ghost function View(): (c: Channel)
      reads this
    {
      Channel(state, pending, freeSlots, closing, inHand, done, issued)
    }

    constructor ()
      ensures View() == Fresh
    {
      state, pending, freeSlots := Idle, [], [];
      closing, inHand, done, issued := false, multiset{}, multiset{}, 0;
    }

    /** `asyncCall` up to the end of its locked section; id 0 is returned for a call failed on the spot. */
    method AsyncCall(call: nat) returns (id: uint32)
      requires Enabled(View(), Call) && call == issued
      modifies this
      ensures View() == CallStep(old(View()))
      ensures old(state) == Closed ==> id == 0
      ensures old(state) != Closed ==> id == IdOf(if old(freeSlots) == [] then |old(pending)| else old(freeSlots)[0])
    {
      issued := issued + 1;
      if state == Closed {
        done := done + multiset{call};
        return 0;
      }
      var slot;
      if freeSlots == [] {
        slot := |pending|;
        pending := pending + [None];
      } else {
        slot := freeSlots[0];
        freeSlots := freeSlots[1..];
      }
      id := IdOf(slot);
      pending := pending[slot := Some(Pending(id, call))];
    }

    /** The locked section of `failPending` and `dispatchResponse`. */
    method TakePending(id: uint32) returns (taken: Option<Pending>)
      modifies this
      ensures View() == TakeStep(old(View()), id)
      ensures taken == if Matches(old(View()), id) then old(pending)[SlotOf(id)] else None
    {
      var slot := SlotOf(id);
      if slot >= |pending| || pending[slot].None? || pending[slot].value.id != id {
        return None;
      }
      taken := pending[slot];
      pending := pending[slot := None];
      freeSlots := freeSlots + [slot];
      inHand := inHand + multiset{taken.value.call};
    }

    /** `failPending` or `dispatchResponse` in full: whoever is taken out has its `done` run once. */
    method Complete(id: uint32)
      modifies this
      ensures var c := TakeStep(old(View()), id);
              if Matches(old(View()), id)
              then View() == Step(c, RunDone(old(pending)[SlotOf(id)].value.call)) else View() == c
    {
      var taken := TakePending(id);
      if taken.Some? {
        inHand := inHand - multiset{taken.value.call};
        done := done + multiset{taken.value.call};
      }
    }

    /** `handleClose`, undisturbed: every pending call has its `done` run once and the table is gone. */
    method HandleClose()
      modifies this
      ensures Possible(old(View()), CloseEvents(old(View())))
      ensures View() == Run(old(View()), CloseEvents(old(View())))
      ensures old(state) == Closed ==> View() == old(View())
      ensures old(state) != Closed ==>
                View() == old(View()).(state := Closed, closing := false, pending := [], free := [],
                                       done := old(done) + Calls(old(pending)))
    {
      CloseIsRun(View());
      if state == Closed {
        return;
      }
      state := Closed;
      closing := true;
      var doomed := pending;
      pending, freeSlots, closing := [], [], false;
      FinishAll(doomed);
    }

    /** `stop`. */
    method Stop()
      modifies this
      ensures Possible(old(View()), StopEvents(old(View())))
      ensures View() == Run(old(View()), StopEvents(old(View())))
      ensures View() == old(View()).(state := Closed, pending := [], free := [],
                                     done := old(done) + Calls(old(pending)))
    {
      StopIsRun(View());
      state := Closed;
      var doomed := pending;
      pending, freeSlots := [], [];
      FinishAll(doomed);
    }

    /** The loop over `doomed` that runs each remaining call's `done`. */
    method FinishAll(doomed: seq<Option<Pending>>)
      modifies this`done
      ensures done == old(done) + Calls(doomed)
    {
      for i := 0 to |doomed|
        invariant done == old(done) + Calls(doomed[..i])
      {
        assert doomed[..i + 1][..i] == doomed[..i];
        if doomed[i].Some? {
          done := done + multiset{doomed[i].value.call};
        }
      }
      assert doomed[..|doomed|] == doomed;
    }
  }

  // ------------------------------------------------------------------ the invariant

  ghost predicate FreeExact(c: Channel) {
    && (forall i, j :: 0 <= i < j < |c.free| ==> c.free[i] != c.free[j])
    && (forall i :: 0 <= i < |c.free| ==> c.free[i] < |c.pending| && c.pending[c.free[i]].None?)
    && (forall s :: 0 <= s < |c.pending| && c.pending[s].None? ==> s in c.free)
  }

  ghost predicate IdsFollowSlots(c: Channel) {
    forall s :: 0 <= s < |c.pending| && c.pending[s].Some? ==> c.pending[s].value.id == IdOf(s)
  }

  /** Call `k` is in the table, in hand or done, exactly once if it was issued and not at all otherwise. */
  ghost predicate LedgerAt(c: Channel, k: nat) {
    Calls(c.pending)[k] + c.inHand[k] + c.done[k] == if k < c.issued then 1 else 0
  }

  ghost predicate Ledger(c: Channel) {
    forall k: nat :: LedgerAt(c, k)
  }

  /** A channel that has finished closing holds no calls. */
  ghost predicate ClosedIsEmpty(c: Channel) {
    c.state == Closed && !c.closing ==> c.pending == [] && c.free == []
  }

  ghost predicate Inv(c: Channel) {
    FreeExact(c) && IdsFollowSlots(c) && Ledger(c) && ClosedIsEmpty(c)
  }
}
