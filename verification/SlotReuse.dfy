// When a slot can be given out again (src/RpcChannel.cpp).

module SlotReuse {
  import opened Bytes
  import opened RpcChannel
  import opened LateArrivals
  import ChannelMatching

  /** Call `m` is in slot `t`. */
  predicate Sits(c: Channel, m: nat, t: nat) {
    Occupied(c, t) && c.pending[t].value.call == m
  }

  /** An answer or a timer is still to come for call `k`. */
  predicate Outstanding(s: Session, k: nat) {
    k in s.slots && (k in s.unsent || k in s.open || k in s.timing || k in s.armed)
  }

  /** The same, and its id names slot `t`. */
  predicate Lingers(s: Session, k: nat, t: nat) {
    Outstanding(s, k) && ChannelMatching.Named(s.slots[k]) == t
  }

  /** No call along the way is given a slot whose id wraps. */
  predicate SlotsFit(s: Session, ys: seq<Happening>)
    requires LateArrivals.Possible(s, ys)
    decreases |ys|
  {
    ys == [] ||
    ((ys[0].NewCall? ==> ChannelMatching.NextSlot(s.c) < TWO32) && SlotsFit(LateArrivals.Step(s, ys[0]), ys[1..]))
  }

  /** After `ys`, with call `m` still in slot `t`, the answer or the timer `x` of another call ends `m`. */
  predicate Hit(s: Session, m: nat, t: nat, ys: seq<Happening>, x: Happening) {
    && LateArrivals.Possible(s, ys) && SlotsFit(s, ys)
    && var r := LateArrivals.Run(s, ys);
    && Sits(r.c, m, t)
    && (x.Answer? || x.Expire?) && x.call != m && LateArrivals.Enabled(r, x)
    && LateArrivals.Step(r, x).c.inHand == r.c.inHand + multiset{m}
  }

  // ------------------------------------------------------------------ a slot that is clear stays clear

  /** Call `m` was issued, is nowhere but in slot `t`, and as long as it is there no other call's id names `t`. */
  ghost predicate Clear(s: Session, m: nat, t: nat) {
    && m < s.c.issued
    && (forall u: nat :: Sits(s.c, m, u) ==> u == t)
    && (Sits(s.c, m, t) ==> forall k :: k != m ==> !Lingers(s, k, t))
  }

  lemma NewCallKeepsClear(s: Session, m: nat, t: nat, timed: bool)
    requires TableInv(s.c) && LateArrivals.Enabled(s, NewCall(timed)) && Clear(s, m, t)
    requires ChannelMatching.NextSlot(s.c) < TWO32
    ensures Clear(LateArrivals.Step(s, NewCall(timed)), m, t)
  {
    var s', u, n := LateArrivals.Step(s, NewCall(timed)), ChannelMatching.NextSlot(s.c), s.c.issued;
    if s.c.state == Closed {
      assert s' == s.(c := s'.c) && s'.c.pending == s.c.pending && s'.c.issued == n + 1;
      forall k
        ensures Lingers(s', k, t) == Lingers(s, k, t)
      {
      }
      forall v: nat
        ensures Sits(s'.c, m, v) == Sits(s.c, m, v)
      {
      }
    } else {
      NewTenant(s, timed);
      hide LateArrivals.Step, TableInv;
      forall v: nat | Sits(s'.c, m, v)
        ensures Sits(s.c, m, v)
      {
      }
      if Sits(s'.c, m, t) {
        forall k | k != m
          ensures !Lingers(s', k, t)
        {
          assert !Lingers(s, k, t);
        }
      }
    }
  }

  /** What a new call does to the session. */
  lemma NewTenant(s: Session, timed: bool)
    requires TableInv(s.c) && LateArrivals.Enabled(s, NewCall(timed)) && s.c.state != Closed
    ensures var s', t, n := LateArrivals.Step(s, NewCall(timed)), ChannelMatching.NextSlot(s.c), s.c.issued;
            && Sits(s'.c, n, t) && !Occupied(s.c, t) && s'.c.issued == n + 1 && s'.c.state == s.c.state
            && s'.c.closing == s.c.closing
            && (forall u: nat :: u != t && Occupied(s'.c, u) ==> Occupied(s.c, u) && s'.c.pending[u] == s.c.pending[u])
            && s'.slots == s.slots[n := t] && s'.unsent == s.unsent + {n} && s'.open == s.open
            && s'.timing <= s.timing + {n} && s.timing <= s'.timing && s'.armed == s.armed
  {
    hide IdOf;
  }

  /** Nothing else makes an answer or a timer outstanding. */
  lemma NothingNewOutstanding(s: Session, x: Happening, k: nat)
    requires LateArrivals.Enabled(s, x) && !x.NewCall? && Outstanding(LateArrivals.Step(s, x), k)
    ensures Outstanding(s, k) && LateArrivals.Step(s, x).slots == s.slots
  {
    hide ChannelAfter, Matches;
  }

  lemma StepKeepsClear(s: Session, m: nat, t: nat, x: Happening)
    requires TableInv(s.c) && LateArrivals.Enabled(s, x) && Clear(s, m, t)
    requires x.NewCall? ==> ChannelMatching.NextSlot(s.c) < TWO32
    ensures Clear(LateArrivals.Step(s, x), m, t)
  {
    if x.NewCall? {
      NewCallKeepsClear(s, m, t, x.timed);
    } else {
      var s' := LateArrivals.Step(s, x);
      NoNewTenants(s, x);
      hide LateArrivals.Step, LateArrivals.Enabled, TableInv;
      forall u: nat | Sits(s'.c, m, u)
        ensures Sits(s.c, m, u)
      {
      }
      if Sits(s'.c, m, t) {
        forall k | k != m
          ensures !Lingers(s', k, t)
        {
          assert !Lingers(s, k, t);
          if Outstanding(s', k) {
            NothingNewOutstanding(s, x, k);
          }
        }
      }
    }
  }

  lemma {:induction false} RunKeepsClear(s: Session, m: nat, t: nat, ys: seq<Happening>)
    requires TableInv(s.c) && Clear(s, m, t) && LateArrivals.Possible(s, ys) && SlotsFit(s, ys)
    ensures var r := LateArrivals.Run(s, ys); TableInv(r.c) && Clear(r, m, t)
    decreases |ys|
  {
    hide TableInv, Clear, LateArrivals.Step, LateArrivals.Enabled;
    if ys != [] {
      StepKeepsTableInv(s, ys[0]);
      StepKeepsClear(s, m, t, ys[0]);
      RunKeepsClear(LateArrivals.Step(s, ys[0]), m, t, ys[1..]);
    }
  }

  /** What ends call `m` was outstanding, and its id names the slot of `m`. */
  lemma HitLingers(r: Session, m: nat, t: nat, x: Happening)
    requires TableInv(r.c) && (forall u: nat :: Sits(r.c, m, u) ==> u == t)
    requires LateArrivals.Enabled(r, x) && (x.Answer? || x.Expire?)
    requires LateArrivals.Step(r, x).c.inHand == r.c.inHand + multiset{m}
    ensures Lingers(r, x.call, t)
  {
    TakesTenant(r, x);
    var u := NamedSlot(r, x);
    hide LateArrivals.Step, TableInv, ChannelMatching.Named;
    if Occupied(r.c, u) {
      ChannelMatching.OtherCall(r.c.inHand, r.c.pending[u].value.call, m);
      assert Sits(r.c, m, u);
    } else {
      ChannelMatching.OtherCall(r.c.inHand, m, m);
    }
  }

  lemma {:induction false} ClearIsNeverHit(s: Session, m: nat, t: nat, ys: seq<Happening>, x: Happening)
    requires TableInv(s.c) && Clear(s, m, t)
    ensures !Hit(s, m, t, ys, x)
  {
    if Hit(s, m, t, ys, x) {
      RunKeepsClear(s, m, t, ys);
      var r := LateArrivals.Run(s, ys);
      hide SlotsFit, LateArrivals.Possible, LateArrivals.Run, LateArrivals.Step, TableInv;
      HitLingers(r, m, t, x);
    }
  }

  // ------------------------------------------------------------------ what lingers can hit

  /** Call `m` is in slot `t`, and something outstanding of call `k` names that slot. */
  ghost predicate Poised(s: Session, m: nat, t: nat, k: nat) {
    TableInv(s.c) && LaterTenants(s) && Sits(s.c, m, t) && k != m && Lingers(s, k, t)
  }

  ghost predicate CanHit(s: Session, m: nat, t: nat) {
    exists ys, x :: Hit(s, m, t, ys, x)
  }

  lemma HitNow(s: Session, m: nat, t: nat, k: nat, x: Happening)
    requires Poised(s, m, t, k)
    requires (x.Answer? || x.Expire?) && x.call == k && LateArrivals.Enabled(s, x)
    ensures CanHit(s, m, t)
  {
    TakesTenant(s, x);
    hide LateArrivals.Step;
    assert Hit(s, m, t, [], x);
  }

  lemma {:induction false} HitLater(s: Session, m: nat, t: nat, y: Happening)
    requires LateArrivals.Enabled(s, y) && !y.NewCall?
    ensures CanHit(LateArrivals.Step(s, y), m, t) ==> CanHit(s, m, t)
  {
    if ys, x :| Hit(LateArrivals.Step(s, y), m, t, ys, x) {
      assert ([y] + ys)[1..] == ys;
      hide LateArrivals.Step, LateArrivals.Enabled;
      assert Hit(s, m, t, [y] + ys, x);
    }
  }

  /** The timer of `k` has not been set: it is set now, since the call in its slot has its id. */
  lemma TimingHits(s: Session, m: nat, t: nat, k: nat)
    requires Poised(s, m, t, k) && k in s.timing
    ensures CanHit(s, m, t)
  {
    ChannelMatching.SlotAgain(s.slots[k]);
    hide IdOf, SlotOf, ChannelMatching.Named, CanHit;
    var s' := LateArrivals.Step(s, Arm(k, 1));
    assert Matches(s.c, IdOf(s.slots[k]));
    assert Poised(s', m, t, k);
    HitNow(s', m, t, k, Expire(k));
    HitLater(s, m, t, Arm(k, 1));
  }

  /** The request of `k` has not been written: it is written and answered. */
  lemma ReadyHits(s: Session, m: nat, t: nat, k: nat)
    requires Poised(s, m, t, k) && k in s.unsent && k !in s.timing && s.c.state == Ready
    ensures CanHit(s, m, t)
  {
    hide ChannelMatching.Named, CanHit;
    var s' := LateArrivals.Step(s, Write(k));
    assert Poised(s', m, t, k);
    HitNow(s', m, t, k, Answer(k));
    HitLater(s, m, t, Write(k));
  }

  lemma ConnectingHits(s: Session, m: nat, t: nat, k: nat)
    requires Poised(s, m, t, k) && k in s.unsent && k !in s.timing && s.c.state == Connecting
    ensures CanHit(s, m, t)
  {
    StepKeepsTableInv(s, Other(Connected));
    StepKeepsLaterTenants(s, Other(Connected));
    hide ChannelMatching.Named, CanHit, TableInv, LaterTenants;
    ReadyHits(LateArrivals.Step(s, Other(Connected)), m, t, k);
    HitLater(s, m, t, Other(Connected));
  }

  lemma IdleHits(s: Session, m: nat, t: nat, k: nat)
    requires Poised(s, m, t, k) && k in s.unsent && k !in s.timing && s.c.state == Idle
    ensures CanHit(s, m, t)
  {
    StepKeepsTableInv(s, Other(Connect));
    StepKeepsLaterTenants(s, Other(Connect));
    hide ChannelMatching.Named, CanHit, TableInv;
    ConnectingHits(LateArrivals.Step(s, Other(Connect)), m, t, k);
    HitLater(s, m, t, Other(Connect));
  }

  lemma PoisedHits(s: Session, m: nat, t: nat, k: nat)
    requires Poised(s, m, t, k) && s.c.state != Closed
    ensures CanHit(s, m, t)
  {
    hide CanHit, ChannelMatching.Named, TableInv, LaterTenants;
    if k in s.armed {
      HitNow(s, m, t, k, Expire(k));
    } else if k in s.timing {
      TimingHits(s, m, t, k);
    } else if k in s.open {
      HitNow(s, m, t, k, Answer(k));
    } else {
      match s.c.state
      case Ready => ReadyHits(s, m, t, k);
      case Connecting => ConnectingHits(s, m, t, k);
      case Idle => IdleHits(s, m, t, k);
    }
  }

  // ------------------------------------------------------------------ exactly when a slot can be given out again

  /** The new call is nowhere but in its slot, and what lingers was there before. */
  lemma Lingering(s: Session, timed: bool, k: nat)
    requires TableInv(s.c) && LaterTenants(s) && LateArrivals.Enabled(s, NewCall(timed)) && s.c.state != Closed
    ensures var s', m, t := LateArrivals.Step(s, NewCall(timed)), s.c.issued, ChannelMatching.NextSlot(s.c);
            && Sits(s'.c, m, t) && (forall u: nat :: Sits(s'.c, m, u) ==> u == t) && s'.c.issued == m + 1
            && s'.c.state == s.c.state
            && (Lingers(s, k, t) <==> k != m && Lingers(s', k, t))
  {
    NewTenant(s, timed);
    hide LateArrivals.Step, TableInv, ChannelMatching.Named;
  }

  lemma {:induction false} NoLingererIsClear(s: Session, timed: bool)
    requires TableInv(s.c) && LaterTenants(s) && LateArrivals.Enabled(s, NewCall(timed)) && s.c.state != Closed
    requires forall k :: !Lingers(s, k, ChannelMatching.NextSlot(s.c))
    ensures Clear(LateArrivals.Step(s, NewCall(timed)), s.c.issued, ChannelMatching.NextSlot(s.c))
  {
    hide LateArrivals.Step, TableInv, LaterTenants, Lingers;
    Lingering(s, timed, 0);
    forall k
      ensures k != s.c.issued ==> !Lingers(LateArrivals.Step(s, NewCall(timed)), k, ChannelMatching.NextSlot(s.c))
    {
      Lingering(s, timed, k);
    }
  }

  /**
   * In every run: a new call can be ended, while it is in its slot, by an answer or a timer of another call if and
   * only if something of an earlier call with an id that names the slot is outstanding when the slot is given out.
   */
  lemma {:induction false} ReuseIsUnsafeExactly(xs: seq<Happening>, timed: bool)
    requires LateArrivals.Possible(Start, xs)
    requires var s := LateArrivals.Run(Start, xs); LateArrivals.Enabled(s, NewCall(timed)) && s.c.state != Closed
    ensures var s := LateArrivals.Run(Start, xs);
            var t := ChannelMatching.NextSlot(s.c);
            (exists ys, x :: Hit(LateArrivals.Step(s, NewCall(timed)), s.c.issued, t, ys, x)) <==>
            (exists k :: Lingers(s, k, t))
  {
    RunKeepsLaterTenants(Start, xs);
    var s := LateArrivals.Run(Start, xs);
    hide LateArrivals.Step, TableInv, LaterTenants, Lingers, Hit;
    var s', m, t := LateArrivals.Step(s, NewCall(timed)), s.c.issued, ChannelMatching.NextSlot(s.c);
    StepKeepsTableInv(s, NewCall(timed));
    StepKeepsLaterTenants(s, NewCall(timed));
    if k :| Lingers(s, k, t) {
      Lingering(s, timed, k);
      PoisedHits(s', m, t, k);
    } else {
      NoLingererIsClear(s, timed);
      forall ys, x
        ensures !Hit(s', m, t, ys, x)
      {
        ClearIsNeverHit(s', m, t, ys, x);
      }
    }
  }
}
