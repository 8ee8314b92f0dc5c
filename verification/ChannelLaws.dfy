// What the slot table guarantees in every interleaving: exactly-once completion, and which call a response ends.

module ChannelLaws {
  import opened Bytes
  import opened RpcChannel

  // ------------------------------------------------------------------ the calls in a table

  function CallIn(q: Option<Pending>): (m: multiset<nat>) {
    match q { case None => multiset{} case Some(p) => multiset{p.call} }
  }

  lemma {:induction false} CallsAppend(p: seq<Option<Pending>>, q: Option<Pending>, k: nat)
    ensures Calls(p + [q])[k] == Calls(p)[k] + CallIn(q)[k]
  {
    assert (p + [q])[..|p|] == p;
  }

  lemma {:induction false} CallsLast(p: seq<Option<Pending>>, k: nat)
    requires p != []
    ensures Calls(p)[k] == Calls(p[..|p| - 1])[k] + CallIn(p[|p| - 1])[k]
  {
  }

  lemma {:induction false} CallsUpdate(p: seq<Option<Pending>>, s: nat, q: Option<Pending>, k: nat)
    requires s < |p|
    ensures Calls(p[s := q])[k] + CallIn(p[s])[k] == Calls(p)[k] + CallIn(q)[k]
  {
    hide Calls, CallIn;
    var n := |p| - 1;
    CallsLast(p, k);
    CallsLast(p[s := q], k);
    if s < n {
      CallsUpdate(p[..n], s, q, k);
      assert p[s := q][..n] == p[..n][s := q];
    } else {
      assert p[s := q][..n] == p[..n];
    }
  }

  lemma CallInOne(q: Option<Pending>)
    requires q.Some?
    ensures CallIn(q)[q.value.call] == 1
  {
  }

  /** A call sits in as many slots as it has entries among the table's calls. */
  lemma {:induction false} CallInSlot(p: seq<Option<Pending>>, s: nat)
    requires s < |p| && p[s].Some?
    ensures Calls(p)[p[s].value.call] >= 1
  {
    hide Calls, CallIn;
    var n, k := |p| - 1, p[s].value.call;
    CallsLast(p, k);
    if s < n {
      CallInSlot(p[..n], s);
    } else {
      CallInOne(p[s]);
    }
  }

  lemma {:induction false} TwoSlotsTwoEntries(p: seq<Option<Pending>>, s: nat, t: nat)
    requires s < t < |p| && p[s].Some? && p[t].Some? && p[s].value.call == p[t].value.call
    ensures Calls(p)[p[s].value.call] >= 2
  {
    hide Calls, CallIn;
    var n := |p| - 1;
    CallsLast(p, p[s].value.call);
    if t < n {
      TwoSlotsTwoEntries(p[..n], s, t);
    } else {
      CallInSlot(p[..n], s);
      CallInOne(p[t]);
    }
  }

  // ------------------------------------------------------------------ every step keeps the invariant

  lemma CallTakesNewSlot(c: Channel)
    requires FreeExact(c) && IdsFollowSlots(c) && c.state != Closed && c.free == []
    ensures FreeExact(CallStep(c)) && IdsFollowSlots(CallStep(c))
  {
    hide IdOf;
  }

  lemma CallTakesFreeSlot(c: Channel)
    requires FreeExact(c) && IdsFollowSlots(c) && c.state != Closed && c.free != []
    ensures FreeExact(CallStep(c)) && IdsFollowSlots(CallStep(c))
  {
    hide IdOf;
    var c' := CallStep(c);
    forall s | 0 <= s < |c'.pending| && c'.pending[s].None?
      ensures s in c'.free
    {
      var i :| 0 <= i < |c.free| && c.free[i] == s;
      assert c'.free[i - 1] == s;
    }
  }

  lemma CallKeepsLedger(c: Channel, k: nat)
    requires Enabled(c, Call) && LedgerAt(c, k) && FreeExact(c)
    ensures LedgerAt(CallStep(c), k)
  {
    hide IdOf, Calls;
    if c.state != Closed {
      if c.free == [] {
        CallsAppend(c.pending, Some(Pending(IdOf(|c.pending|), c.issued)), k);
      } else {
        CallsUpdate(c.pending, c.free[0], Some(Pending(IdOf(c.free[0]), c.issued)), k);
      }
    }
  }

  lemma TakeKeepsFree(c: Channel, id: uint32)
    requires FreeExact(c) && IdsFollowSlots(c)
    ensures FreeExact(TakeStep(c, id)) && IdsFollowSlots(TakeStep(c, id))
  {
    hide IdOf, SlotOf;
    var c', slot := TakeStep(c, id), SlotOf(id);
    if Matches(c, id) {
      forall s | 0 <= s < |c'.pending| && c'.pending[s].None?
        ensures s in c'.free
      {
        if s == slot {
          assert c'.free[|c.free|] == s;
        } else {
          var i :| 0 <= i < |c.free| && c.free[i] == s;
          assert c'.free[i] == s;
        }
      }
    }
  }

  lemma TakeKeepsLedger(c: Channel, id: uint32, k: nat)
    requires LedgerAt(c, k)
    ensures LedgerAt(TakeStep(c, id), k)
  {
    hide Calls, SlotOf;
    if Matches(c, id) {
      CallsUpdate(c.pending, SlotOf(id), None, k);
    }
  }

  lemma StepKeepsLedger(c: Channel, e: Event, k: nat)
    requires Enabled(c, e) && LedgerAt(c, k) && FreeExact(c)
    ensures LedgerAt(Step(c, e), k)
  {
    hide CallStep, TakeStep;
    match e
    case Call => CallKeepsLedger(c, k);
    case Response(id) => TakeKeepsLedger(c, id, k);
    case GiveUp(id) => TakeKeepsLedger(c, id, k);
    case _ =>
  }

  lemma StepKeepsTable(c: Channel, e: Event)
    requires FreeExact(c) && IdsFollowSlots(c) && ClosedIsEmpty(c) && Enabled(c, e)
    ensures FreeExact(Step(c, e)) && IdsFollowSlots(Step(c, e)) && ClosedIsEmpty(Step(c, e))
  {
    hide IdOf;
    match e
    case Call =>
      if c.state != Closed {
        if c.free == [] {
          CallTakesNewSlot(c);
        } else {
          CallTakesFreeSlot(c);
        }
      }
    case Response(id) => TakeKeepsFree(c, id);
    case GiveUp(id) => TakeKeepsFree(c, id);
    case _ =>
  }

  lemma StepKeepsInv(c: Channel, e: Event)
    requires Inv(c) && Enabled(c, e)
    ensures Inv(Step(c, e))
  {
    hide Step, LedgerAt, FreeExact, IdsFollowSlots, ClosedIsEmpty;
    StepKeepsTable(c, e);
    forall k: nat
      ensures LedgerAt(Step(c, e), k)
    {
      StepKeepsLedger(c, e, k);
    }
  }

  lemma {:induction false} RunKeepsInv(c: Channel, es: seq<Event>)
    requires Inv(c) && Possible(c, es)
    ensures Inv(Run(c, es))
    decreases |es|
  {
    if es != [] {
      StepKeepsInv(c, es[0]);
      RunKeepsInv(Step(c, es[0]), es[1..]);
    }
  }

  // ------------------------------------------------------------------ exactly-once completion

  /**
   * In every interleaving of calls, responses, timeouts, cancels, close, reconnect and stop: each issued call
   * is in exactly one slot, or was taken out once and waits for its `done`, or has had its `done` run once;
   * nothing else was ever completed, and no call sits in two slots.
   */
  lemma {:induction false} ExactlyOnce(es: seq<Event>, k: nat)
    requires Possible(Fresh, es)
    ensures var c := Run(Fresh, es);
            && Calls(c.pending)[k] + c.inHand[k] + c.done[k] == (if k < c.issued then 1 else 0)
            && FreeExact(c)
            && (forall s, t :: 0 <= s < t < |c.pending| && c.pending[s].Some? && c.pending[t].Some? ==>
                  c.pending[s].value.call != c.pending[t].value.call)
  {
    FreshInv();
    RunKeepsInv(Fresh, es);
    var c := Run(Fresh, es);
    assert LedgerAt(c, k);
    forall s, t | 0 <= s < t < |c.pending| && c.pending[s].Some? && c.pending[t].Some?
      ensures c.pending[s].value.call != c.pending[t].value.call
    {
      assert LedgerAt(c, c.pending[s].value.call);
      if c.pending[s].value.call == c.pending[t].value.call {
        TwoSlotsTwoEntries(c.pending, s, t);
      }
    }
  }

  lemma FreshInv()
    ensures Inv(Fresh)
  {
    assert Calls([]) == multiset{};
  }

  /** A finished close, or a stop, leaves no call in the table: every issued call is in hand or done. */
  lemma {:induction false} NothingPendingAfterClose(es: seq<Event>, k: nat)
    requires Possible(Fresh, es)
    requires var c := Run(Fresh, es); c.state == Closed && !c.closing
    ensures var c := Run(Fresh, es);
            c.pending == [] && c.free == [] && c.inHand[k] + c.done[k] == if k < c.issued then 1 else 0
  {
    FreshInv();
    RunKeepsInv(Fresh, es);
    var c := Run(Fresh, es);
    assert LedgerAt(c, k);
  }

  /** The calls made while the channel was closed, and those whose callbacks were run later. */
  function FailedAtOnce(c: Channel, es: seq<Event>): (m: multiset<nat>)
    requires Possible(c, es)
    decreases |es|
  {
    if es == [] then multiset{}
    else
      (if es[0].Call? && c.state == Closed then multiset{c.issued} else multiset{})
      + FailedAtOnce(Step(c, es[0]), es[1..])
  }

  function RanLater(es: seq<Event>): (m: multiset<nat>) {
    if es == [] then multiset{} else (if es[0].RunDone? then multiset{es[0].call} else multiset{}) + RanLater(es[1..])
  }

  lemma StepDone(c: Channel, e: Event)
    requires Enabled(c, e)
    ensures Step(c, e).done ==
            c.done + (if e.Call? && c.state == Closed then multiset{c.issued} else multiset{})
                   + if e.RunDone? then multiset{e.call} else multiset{}
  {
    hide IdOf, Calls;
  }

  /** A callback has run exactly if its call was made on a closed channel or was taken out of the table and finished. */
  lemma {:induction false} DoneExactly(c: Channel, es: seq<Event>)
    requires Possible(c, es)
    ensures Run(c, es).done == c.done + FailedAtOnce(c, es) + RanLater(es)
    decreases |es|
  {
    hide Step, Enabled;
    if es != [] {
      StepDone(c, es[0]);
      DoneExactly(Step(c, es[0]), es[1..]);
    }
  }

  /** After every finished close the channel can be connected again, and its first call then gets slot 0 and id 1. */
  lemma {:induction false} ReconnectStartsOver(es: seq<Event>)
    requires Possible(Fresh, es)
    requires var c := Run(Fresh, es); c.state == Closed && !c.closing
    ensures var c, again := Run(Fresh, es), [Connect, Connected, Call];
            Possible(c, again) &&
            Run(c, again) == c.(state := Ready, pending := [Some(Pending(1, c.issued))], issued := c.issued + 1)
  {
    NothingPendingAfterClose(es, 0);
    var c, again := Run(Fresh, es), [Connect, Connected, Call];
    hide Run, Possible;
    RunOfNothing(c);
    RunSnoc(c, [], Connect);
    RunSnoc(c, [] + [Connect], Connected);
    RunSnoc(c, [] + [Connect] + [Connected], Call);
    assert [] + [Connect] + [Connected] + [Call] == again;
  }

  // ------------------------------------------------------------------ which call a response ends

  /** It happens: call 0 times out, call 1 gets its slot and id, and the late response to call 0 ends call 1. */
  lemma LateResponseEndsAnother()
    ensures var es := [Connect, Connected, Call, GiveUp(1), RunDone(0), Call];
            && Possible(Fresh, es)
            && Run(Fresh, es).done == multiset{0} && Run(Fresh, es).pending == [Some(Pending(1, 1))]
            && Step(Run(Fresh, es), Response(1)).inHand == multiset{1}
  {
    hide Run, Possible;
    var es := [Connect, Connected, Call];
    FirstCall();
    RunSnoc(Fresh, es, GiveUp(1));
    var c := Run(Fresh, es + [GiveUp(1)]);
    assert c == Fresh.(state := Ready, pending := [None], free := [0], issued := 1, inHand := multiset{0});
    RunSnoc(Fresh, es + [GiveUp(1)], RunDone(0));
    RunSnoc(Fresh, es + [GiveUp(1)] + [RunDone(0)], Call);
    assert es + [GiveUp(1)] + [RunDone(0)] + [Call] == [Connect, Connected, Call, GiveUp(1), RunDone(0), Call];
  }

  lemma FirstCall()
    ensures var es := [Connect, Connected, Call];
            && Possible(Fresh, es)
            && Run(Fresh, es) == Fresh.(state := Ready, pending := [Some(Pending(1, 0))], issued := 1)
  {
    hide Run, Possible;
    RunOfNothing(Fresh);
    RunSnoc(Fresh, [], Connect);
    RunSnoc(Fresh, [] + [Connect], Connected);
    RunSnoc(Fresh, [] + [Connect] + [Connected], Call);
    assert [] + [Connect] + [Connected] + [Call] == [Connect, Connected, Call];
  }

  lemma {:induction false} RunOfNothing(c: Channel)
    ensures Possible(c, []) && Run(c, []) == c
  {
  }
}
