// What the breaker's bucketed window counts (src/CircuitBreaker.cpp).

module WindowAccuracy {
  import opened Time
  import opened CircuitBreaker
  import opened BreakerRuns

  /** A recorded outcome: it was reported between the readings `from` and `to`. */
  datatype Outcome = Outcome(from: int, to: int, error: bool)

  /** What an operation adds to the outcomes recorded since the last reset. */
  function Log(cfg: Config, b: Breaker, log: seq<Outcome>, op: Op): (log': seq<Outcome>) {
    if op.Allow? then
      log
    else if b.state == HalfOpen then
      if op.Success? then [] else log
    else
      var overdue := Overdue(Roll(b.buckets, op.t1, cfg.window), op.t2, cfg.window);
      log + [Outcome(op.t1, if overdue then op.t3 else op.t2, op.Failure?)]
  }

  function LogOf(cfg: Config, ops: seq<Op>): (log: seq<Outcome>) {
    if ops == [] then []
    else Log(cfg, Run(cfg, ops[..|ops| - 1]), LogOf(cfg, ops[..|ops| - 1]), ops[|ops| - 1])
  }

  // ------------------------------------------------------------------ counting

  function CountIf(s: seq<Outcome>, p: Outcome -> bool): (n: nat)
    ensures n <= |s|
  {
    if s == [] then 0 else CountIf(s[..|s| - 1], p) + if p(s[|s| - 1]) then 1 else 0
  }

  function IsError(): (p: Outcome -> bool) {
    (o: Outcome) => o.error
  }

  /** Reported at or after `t`, counting all outcomes or only errors. */
  function Since(t: int, errors: bool): (p: Outcome -> bool) {
    (o: Outcome) => o.from >= t && (errors ==> o.error)
  }

  /** Reported after `t`, counting all outcomes or only errors. */
  function NewerThan(t: int, errors: bool): (p: Outcome -> bool) {
    (o: Outcome) => o.to > t && (errors ==> o.error)
  }

  lemma {:induction false} CountConcat(a: seq<Outcome>, b: seq<Outcome>, p: Outcome -> bool)
    ensures CountIf(a + b, p) == CountIf(a, p) + CountIf(b, p)
  {
    if b == [] {
      assert a + b == a;
    } else {
      var n := |b| - 1;
      CountConcat(a, b[..n], p);
      assert (a + b)[..|a + b| - 1] == a + b[..n];
    }
  }

  lemma {:induction false} CountImplied(s: seq<Outcome>, p: Outcome -> bool, q: Outcome -> bool)
    requires forall i :: 0 <= i < |s| && p(s[i]) ==> q(s[i])
    ensures CountIf(s, p) <= CountIf(s, q)
  {
    if s != [] {
      CountImplied(s[..|s| - 1], p, q);
    }
  }

  lemma {:induction false} CountAll(s: seq<Outcome>, p: Outcome -> bool)
    requires forall i :: 0 <= i < |s| ==> p(s[i])
    ensures CountIf(s, p) == |s|
  {
    if s != [] {
      CountAll(s[..|s| - 1], p);
    }
  }

  lemma {:induction false} CountNone(s: seq<Outcome>, p: Outcome -> bool)
    requires forall i :: 0 <= i < |s| ==> !p(s[i])
    ensures CountIf(s, p) == 0
  {
    if s != [] {
      CountNone(s[..|s| - 1], p);
    }
  }

  // ------------------------------------------------------------------ which outcomes each bucket holds

  /** The buckets with the outcomes they stand for, and the outcomes of buckets already dropped. */
  datatype Window = Window(bs: seq<Bucket>, groups: seq<seq<Outcome>>, dropped: seq<Outcome>)

  function Flat(groups: seq<seq<Outcome>>): (s: seq<Outcome>) {
    if groups == [] then [] else Flat(groups[..|groups| - 1]) + groups[|groups| - 1]
  }

  ghost predicate Holds(b: Bucket, g: seq<Outcome>) {
    && b.requests == |g| && b.errors == CountIf(g, IsError())
    && forall i :: 0 <= i < |g| ==> b.start <= g[i].to && g[i].from - b.start < SECOND
  }

  ghost predicate Spaced(bs: seq<Bucket>) {
    forall i, j :: 0 <= i < j < |bs| ==> bs[j].start - bs[i].start >= SECOND
  }

  ghost predicate WInv(w: Window, clock: int, window: int) {
    && |w.groups| == |w.bs|
    && (forall i :: 0 <= i < |w.bs| ==> Holds(w.bs[i], w.groups[i]))
    && Spaced(w.bs)
    && (forall i :: 0 <= i < |w.bs| ==> w.bs[i].start <= clock)
    && (forall i :: 0 <= i < |w.dropped| ==> clock - w.dropped[i].from > window - SECOND)
  }

  function RollW(w: Window, now: int, window: int): (w': Window)
    requires |w.groups| == |w.bs|
    ensures w'.bs == Roll(w.bs, now, window)
  {
    var k := Expired(w.bs, now, window);
    Window(Roll(w.bs, now, window),
           w.groups[k..] + (if NeedsBucket(w.bs[k..], now) then [[]] else []),
           w.dropped + Flat(w.groups[..k]))
  }

  lemma {:induction false} FlatConcat(a: seq<seq<Outcome>>, b: seq<seq<Outcome>>)
    ensures Flat(a + b) == Flat(a) + Flat(b)
  {
    if b == [] {
      assert a + b == a;
      assert Flat(a) + [] == Flat(a);
    } else {
      var n := |b| - 1;
      FlatConcat(a, b[..n]);
      FlatSnoc(a + b[..n], b[n]);
      FlatSnoc(b[..n], b[n]);
      hide Flat;
      assert a + b[..n] + [b[n]] == a + b && b[..n] + [b[n]] == b;
      assert Flat(a) + Flat(b[..n]) + b[n] == Flat(a) + (Flat(b[..n]) + b[n]);
    }
  }

  lemma {:induction false} FlatSnoc(a: seq<seq<Outcome>>, g: seq<Outcome>)
    ensures Flat(a + [g]) == Flat(a) + g
  {
    assert (a + [g])[..|a|] == a;
  }

  lemma FlatNothing()
    ensures Flat([[]]) == []
  {
    var one: seq<seq<Outcome>> := [[]];
    assert one[..0] == [];
  }

  lemma RollKeepsLog(w: Window, now: int, window: int)
    requires |w.groups| == |w.bs|
    ensures var w' := RollW(w, now, window); w'.dropped + Flat(w'.groups) == w.dropped + Flat(w.groups)
  {
    hide Flat, Roll, Expired;
    var k := Expired(w.bs, now, window);
    FlatSplit(w.groups, k);
    FlatPad(w.groups[k..]);
    assert w.groups[k..] + [] == w.groups[k..];
    Regroup(w.dropped, Flat(w.groups[..k]), Flat(w.groups[k..]));
  }

  lemma {:induction false} FlatSplit(groups: seq<seq<Outcome>>, k: nat)
    requires k <= |groups|
    ensures Flat(groups[..k]) + Flat(groups[k..]) == Flat(groups)
  {
    FlatConcat(groups[..k], groups[k..]);
    assert groups[..k] + groups[k..] == groups;
  }

  lemma {:induction false} FlatPad(groups: seq<seq<Outcome>>)
    ensures Flat(groups + [[]]) == Flat(groups)
  {
    FlatConcat(groups, [[]]);
    FlatNothing();
    assert Flat(groups) + [] == Flat(groups);
  }

  lemma Regroup(a: seq<Outcome>, b: seq<Outcome>, c: seq<Outcome>)
    ensures a + b + c == a + (b + c)
  {
  }

  lemma {:induction false} FlatMembers(groups: seq<seq<Outcome>>, bs: seq<Bucket>, k: nat) returns (g: nat, i: nat)
    requires |groups| == |bs| && k < |Flat(groups)|
    ensures g < |groups| && i < |groups[g]| && groups[g][i] == Flat(groups)[k]
  {
    var n := |groups| - 1;
    if k < |Flat(groups[..n])| {
      g, i := FlatMembers(groups[..n], bs[..n], k);
    } else {
      g, i := n, k - |Flat(groups[..n])|;
    }
  }

  /** Outcomes dropped by a roll have left the window, give or take the second a slice spans. */
  lemma DroppedAreOld(w: Window, clock: int, now: int, window: int)
    requires WInv(w, clock, window) && clock <= now
    ensures var d := RollW(w, now, window).dropped;
            forall i :: 0 <= i < |d| ==> now - d[i].from > window - SECOND
  {
    var k := Expired(w.bs, now, window);
    var out := Flat(w.groups[..k]);
    forall i | 0 <= i < |out|
      ensures now - out[i].from > window - SECOND
    {
      var g, j := FlatMembers(w.groups[..k], w.bs[..k], i);
      assert Holds(w.bs[g], w.groups[g]);
    }
  }

  lemma RollKeepsWInv(w: Window, clock: int, now: int, window: int)
    requires WInv(w, clock, window) && clock <= now
    ensures WInv(RollW(w, now, window), now, window)
    ensures var bs := Roll(w.bs, now, window); now - bs[|bs| - 1].start < SECOND
  {
    hide Flat, CountIf, Holds;
    DroppedAreOld(w, clock, now, window);
    RolledBuckets(w.bs, clock, now, window);
    RolledHold(w, now, window);
    hide Roll, Spaced;
  }

  /** The buckets are spaced and none starts after `clock`. */
  ghost predicate Dated(bs: seq<Bucket>, clock: int) {
    Spaced(bs) && forall i :: 0 <= i < |bs| ==> bs[i].start <= clock
  }

  lemma DatedSuffix(bs: seq<Bucket>, k: nat, clock: int)
    requires Dated(bs, clock) && k <= |bs|
    ensures Dated(bs[k..], clock)
  {
  }

  lemma DatedAppend(bs: seq<Bucket>, clock: int, b: Bucket)
    requires Dated(bs, clock) && clock <= b.start && NeedsBucket(bs, b.start)
    ensures Dated(bs + [b], b.start)
  {
    var r := bs + [b];
    forall i, j | 0 <= i < j < |r|
      ensures r[j].start - r[i].start >= SECOND
    {
      if j == |bs| && i < |bs| - 1 {
        assert bs[|bs| - 1].start - bs[i].start >= SECOND;
      }
    }
  }

  lemma RolledBuckets(bs: seq<Bucket>, clock: int, now: int, window: int)
    requires Dated(bs, clock) && clock <= now
    ensures var r := Roll(bs, now, window); Dated(r, now) && now - r[|r| - 1].start < SECOND
  {
    var kept := bs[Expired(bs, now, window)..];
    DatedSuffix(bs, Expired(bs, now, window), clock);
    hide Expired, Spaced;
    if NeedsBucket(kept, now) {
      DatedAppend(kept, clock, Bucket(now, 0, 0));
    }
  }

  lemma RolledHold(w: Window, now: int, window: int)
    requires |w.groups| == |w.bs| && forall i :: 0 <= i < |w.bs| ==> Holds(w.bs[i], w.groups[i])
    ensures var w' := RollW(w, now, window);
            |w'.groups| == |w'.bs| && forall i :: 0 <= i < |w'.bs| ==> Holds(w'.bs[i], w'.groups[i])
  {
    hide Flat, Holds;
    var w', k := RollW(w, now, window), Expired(w.bs, now, window);
    hide Expired;
    EmptyHolds(now);
    forall i | 0 <= i < |w'.bs|
      ensures Holds(w'.bs[i], w'.groups[i])
    {
      if i < |w.bs| - k {
        assert w'.bs[i] == w.bs[k + i] && w'.groups[i] == w.groups[k + i];
      }
    }
  }

  lemma EmptyHolds(now: int)
    ensures Holds(Bucket(now, 0, 0), [])
  {
  }

  function CountW(w: Window, o: Outcome): (w': Window)
    requires |w.groups| == |w.bs| > 0
    ensures w'.bs == Count(w.bs, o.error)
  {
    var n := |w.groups| - 1;
    Window(Count(w.bs, o.error), w.groups[n := w.groups[n] + [o]], w.dropped)
  }

  lemma CountKeepsWInv(w: Window, clock: int, window: int, o: Outcome)
    requires WInv(w, clock, window) && w.bs != []
    requires var last := w.bs[|w.bs| - 1].start; last <= o.to && o.from - last < SECOND
    ensures WInv(CountW(w, o), clock, window)
    ensures CountW(w, o).dropped + Flat(CountW(w, o).groups) == w.dropped + Flat(w.groups) + [o]
  {
    var n := |w.groups| - 1;
    var w' := CountW(w, o);
    assert w'.groups[..n] == w.groups[..n];
    CountOne(w.groups[n], o);
    assert Holds(w.bs[n], w.groups[n]);
    assert Holds(w'.bs[n], w'.groups[n]);
    assert Flat(w.groups[..n]) + (w.groups[n] + [o]) == Flat(w.groups[..n]) + w.groups[n] + [o];
    assert w.dropped + (Flat(w.groups) + [o]) == w.dropped + Flat(w.groups) + [o];
  }

  lemma {:induction false} CountOne(g: seq<Outcome>, o: Outcome)
    ensures CountIf(g + [o], IsError()) == CountIf(g, IsError()) + if o.error then 1 else 0
  {
    assert (g + [o])[..|g|] == g;
  }

  // ------------------------------------------------------------------ whole runs

  lemma RecordExplained(cfg: Config, b: Breaker, w: Window, clock: int, op: Op) returns (w': Window)
    requires !op.Allow? && b.state != HalfOpen && Ordered(op) && clock <= op.t1
    requires WInv(w, clock, cfg.window) && w.bs == b.buckets
    ensures WInv(w', op.t3, cfg.window) && w'.bs == Step(cfg, b, op).buckets
    ensures w'.dropped + Flat(w'.groups) == Log(cfg, b, w.dropped + Flat(w.groups), op)
  {
    hide Flat, Holds, Spaced, Roll, Expired, CountIf;
    var w1 := RollW(w, op.t1, cfg.window);
    RollKeepsLog(w, op.t1, cfg.window);
    RollKeepsWInv(w, clock, op.t1, cfg.window);
    if Overdue(w1.bs, op.t2, cfg.window) {
      var w2 := RollW(w1, op.t3, cfg.window);
      RollKeepsLog(w1, op.t3, cfg.window);
      RollKeepsWInv(w1, op.t1, op.t3, cfg.window);
      var o := Outcome(op.t1, op.t3, op.Failure?);
      CountKeepsWInv(w2, op.t3, cfg.window, o);
      w' := CountW(w2, o);
    } else {
      var o := Outcome(op.t1, op.t2, op.Failure?);
      CountKeepsWInv(w1, op.t1, cfg.window, o);
      w' := CountW(w1, o);
      LaterClock(w', op.t1, op.t3, cfg.window);
    }
  }

  lemma LaterClock(w: Window, clock: int, later: int, window: int)
    requires WInv(w, clock, window) && clock <= later
    ensures WInv(w, later, window)
  {
  }

  lemma EmptyWindow(clock: int, window: int) returns (w: Window)
    ensures w.bs == [] && WInv(w, clock, window) && w.dropped + Flat(w.groups) == []
  {
    w := Window([], [], []);
  }

  /** At every point of a run the buckets stand for the recorded outcomes that have not been dropped. */
  lemma {:induction false} Explained(cfg: Config, ops: seq<Op>, start: int) returns (w: Window)
    requires Timely(ops)
    ensures WInv(w, Clock(ops, start), cfg.window) && w.bs == Run(cfg, ops).buckets
    ensures w.dropped + Flat(w.groups) == LogOf(cfg, ops)
  {
    hide Roll, Record, Requests, Errors, Flat, Holds, RollW;
    if ops == [] {
      w := EmptyWindow(Clock(ops, start), cfg.window);
    } else {
      var op, before := ops[|ops| - 1], ops[..|ops| - 1];
      var b := Run(cfg, before);
      var w0 := Explained(cfg, before, op.t1);
      var clock := Clock(before, op.t1);
      if !op.Allow? && b.state != HalfOpen {
        w := RecordExplained(cfg, b, w0, clock, op);
      } else if op.Success? {
        w := EmptyWindow(op.t3, cfg.window);
      } else {
        w := RollW(w0, op.t1, cfg.window);
        RollKeepsLog(w0, op.t1, cfg.window);
        RollKeepsWInv(w0, clock, op.t1, cfg.window);
        LaterClock(w, op.t1, LastReading(op), cfg.window);
      }
    }
  }

  lemma {:induction false} TallyIsLog(bs: seq<Bucket>, groups: seq<seq<Outcome>>)
    requires |groups| == |bs| && forall i :: 0 <= i < |bs| ==> Holds(bs[i], groups[i])
    ensures Requests(bs) == |Flat(groups)| && Errors(bs) == CountIf(Flat(groups), IsError())
  {
    if bs != [] {
      var n := |bs| - 1;
      TallyIsLog(bs[..n], groups[..n]);
      assert Holds(bs[n], groups[n]);
      CountConcat(Flat(groups[..n]), groups[n], IsError());
    }
  }

  /** No outcome still counted after a roll is as old as the window. */
  lemma KeptAreRecent(w: Window, clock: int, now: int, window: int)
    requires WInv(w, clock, window) && clock <= now
    ensures var s := Flat(RollW(w, now, window).groups);
            forall i :: 0 <= i < |s| ==> now - s[i].to < window
  {
    hide Flat, Spaced, Holds, CountIf, Roll, Expired;
    RollKeepsWInv(w, clock, now, window);
    var w' := RollW(w, now, window);
    var s := Flat(w'.groups);
    forall i | 0 <= i < |s|
      ensures now - s[i].to < window
    {
      var g, j := FlatMembers(w'.groups, w'.bs, i);
      KeptMember(w, now, window, g, j);
    }
  }

  /** An outcome still in a slice after a roll is newer than the window. */
  lemma KeptMember(w: Window, now: int, window: int, g: nat, j: nat)
    requires |w.groups| == |w.bs| && Spaced(w.bs)
    requires forall i :: 0 <= i < |w.bs| ==> Holds(w.bs[i], w.groups[i])
    requires g < |RollW(w, now, window).groups| && j < |RollW(w, now, window).groups[g]|
    ensures now - RollW(w, now, window).groups[g][j].to < window
  {
    hide Flat, Spaced, CountIf;
    var k := Expired(w.bs, now, window);
    hide Expired;
    assert g < |w.bs| - k && RollW(w, now, window).groups[g] == w.groups[k + g];
    assert Holds(w.bs[k + g], w.groups[k + g]);
    StillInWindow(w.bs, now, window, k + g);
  }

  lemma {:induction false} StillInWindow(bs: seq<Bucket>, now: int, window: int, g: nat)
    requires Spaced(bs) && Expired(bs, now, window) <= g < |bs|
    ensures now - bs[g].start < window
  {
    var k := Expired(bs, now, window);
    hide Expired;
    assert k < g ==> bs[g].start - bs[k].start >= SECOND;
  }

  lemma {:induction false} Bounds(dropped: seq<Outcome>, kept: seq<Outcome>, now: int, window: int, errors: bool)
    requires forall i :: 0 <= i < |dropped| ==> now - dropped[i].from > window - SECOND
    requires forall i :: 0 <= i < |kept| ==> now - kept[i].to < window
    ensures var n := if errors then CountIf(kept, IsError()) else |kept|;
            && CountIf(dropped + kept, Since(now - window + SECOND, errors)) <= n
            && n <= CountIf(dropped + kept, NewerThan(now - window, errors))
  {
    var since, newer := Since(now - window + SECOND, errors), NewerThan(now - window, errors);
    CountConcat(dropped, kept, since);
    CountConcat(dropped, kept, newer);
    CountNone(dropped, since);
    if errors {
      CountImplied(kept, since, IsError());
      CountImplied(kept, IsError(), newer);
    } else {
      CountAll(kept, newer);
    }
  }

  lemma {:induction false} SpacedSpan(bs: seq<Bucket>, k: nat)
    requires Spaced(bs) && k < |bs|
    ensures bs[k].start >= bs[0].start + k * SECOND
  {
    if k > 0 {
      SpacedSpan(bs, k - 1);
      assert bs[k].start - bs[k - 1].start >= SECOND;
    }
  }

  lemma FewBuckets(w: Window, clock: int, now: int, window: int)
    requires WInv(w, clock, window) && clock <= now && window > 0
    ensures var bs := Roll(w.bs, now, window); (|bs| - 1) * SECOND < window
  {
    RollKeepsWInv(w, clock, now, window);
    var bs := Roll(w.bs, now, window);
    SpacedSpan(bs, |bs| - 1);
  }

  /**
   * Whenever the breaker tallies at reading `now` in a run, its totals count every outcome reported since the
   * last reset within the last `window - 1s`, and none as old as the window; its slices start at least one
   * second apart and number at most the window in seconds, rounded up.
   */
  lemma {:induction false} SlidingWindow(cfg: Config, ops: seq<Op>, now: int)
    requires Timely(ops) && Clock(ops, now) <= now
    ensures var bs, log := Roll(Run(cfg, ops).buckets, now, cfg.window), LogOf(cfg, ops);
            && CountIf(log, Since(now - cfg.window + SECOND, false)) <= Requests(bs)
            && Requests(bs) <= CountIf(log, NewerThan(now - cfg.window, false))
            && CountIf(log, Since(now - cfg.window + SECOND, true)) <= Errors(bs)
            && Errors(bs) <= CountIf(log, NewerThan(now - cfg.window, true))
            && Spaced(bs)
            && (cfg.window > 0 ==> (|bs| - 1) * SECOND < cfg.window)
  {
    hide Roll, Requests, Errors, CountIf, Flat, LogOf, Run, Since, NewerThan, Timely, Holds;
    var w := Explained(cfg, ops, now);
    var clock := Clock(ops, now);
    var w' := RollW(w, now, cfg.window);
    RollKeepsLog(w, now, cfg.window);
    RollKeepsWInv(w, clock, now, cfg.window);
    KeptAreRecent(w, clock, now, cfg.window);
    TallyIsLog(w'.bs, w'.groups);
    Bounds(w'.dropped, Flat(w'.groups), now, cfg.window, false);
    Bounds(w'.dropped, Flat(w'.groups), now, cfg.window, true);
    if cfg.window > 0 {
      FewBuckets(w, clock, now, cfg.window);
    }
  }

  /** A breaker that trips has seen at least the minimum number of outcomes inside the window. */
  lemma {:induction false} TripNeedsTraffic(cfg: Config, ops: seq<Op>, t1: int, t2: int)
    requires Timely(ops) && Clock(ops, t1) <= t1
    requires Run(cfg, ops).state == Closed && AllowStep(cfg, Run(cfg, ops), t1, t2).0.state == Open
    ensures CountIf(LogOf(cfg, ops), NewerThan(t1 - cfg.window, false)) >= cfg.minRequests
  {
    hide Roll, Requests, Errors, CountIf, LogOf, Run, Since, NewerThan, Timely, Spaced;
    SlidingWindow(cfg, ops, t1);
  }

  // ------------------------------------------------------------------ an outcome just reported

  lemma LastStays(bs: seq<Bucket>, now: int, window: int)
    requires bs != [] && now - bs[|bs| - 1].start < window
    ensures Requests(Roll(bs, now, window)) >= bs[|bs| - 1].requests
    ensures Errors(Roll(bs, now, window)) >= bs[|bs| - 1].errors
  {
    var k := Expired(bs, now, window);
    hide Expired;
    var kept := bs[k..];
    assert kept != [] && kept[|kept| - 1] == bs[|bs| - 1];
    if NeedsBucket(kept, now) {
      assert (kept + [Bucket(now, 0, 0)])[..|kept|] == kept;
    }
  }

  lemma {:induction false} LastDecides(bs: seq<Bucket>, now: int, window: int)
    requires Spaced(bs) && bs != []
    ensures Expired(bs, now, window) < |bs| ==> now - bs[|bs| - 1].start < window
  {
    if Expired(bs, now, window) < |bs| {
      StillInWindow(bs, now, window, |bs| - 1);
    }
  }

  /** A slice that has left the window takes all before it along. */
  lemma {:induction false} AllRolledOut(bs: seq<Bucket>, t2: int, t3: int, window: int)
    requires Spaced(bs) && Overdue(bs, t2, window) && t2 <= t3
    ensures Roll(bs, t3, window) == [Bucket(t3, 0, 0)]
  {
    if bs != [] {
      LastDecides(bs, t3, window);
    }
    hide Expired;
    assert bs[|bs|..] == [];
  }

  /**
   * In every run, however long an operation takes between its clock readings, the outcome it reports is counted by a
   * tally at its second reading: it never lands in a slice that has left the window by then.
   */
  lemma {:induction false} FreshOutcomeCounts(cfg: Config, ops: seq<Op>, op: Op)
    requires Timely(ops) && Ordered(op) && Clock(ops, op.t1) <= op.t1 && cfg.window > 0
    requires !op.Allow? && Run(cfg, ops).state != HalfOpen
    ensures var bs := Roll(Step(cfg, Run(cfg, ops), op).buckets, op.t2, cfg.window);
            Requests(bs) > 0 && (op.Failure? ==> Errors(bs) > 0)
  {
    hide Run, Timely, Flat, LogOf, Requests, Errors, Roll, Spaced, Holds, Record, CountIf;
    var w := Explained(cfg, ops, op.t1);
    RolledBuckets(w.bs, Clock(ops, op.t1), op.t1, cfg.window);
    var bs := Roll(w.bs, op.t1, cfg.window);
    RecordedInWindow(bs, op.Failure?, op.t2, op.t3, cfg.window);
    LastStays(Record(bs, op.Failure?, op.t2, op.t3, cfg.window), op.t2, cfg.window);
  }

  lemma RecordedInWindow(bs: seq<Bucket>, error: bool, t2: int, t3: int, window: int)
    requires Spaced(bs) && t2 <= t3 && window > 0
    ensures var r := Record(bs, error, t2, t3, window);
            && r != [] && t2 - r[|r| - 1].start < window
            && r[|r| - 1].requests > 0 && (error ==> r[|r| - 1].errors > 0)
  {
    hide Roll, Spaced;
    if Overdue(bs, t2, window) {
      AllRolledOut(bs, t2, t3, window);
    }
  }
}
