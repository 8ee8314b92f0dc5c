// One-shot watches: no change of the instance set goes unnoticed, and nobody is notified twice.

module RegistryWatches {
  import opened Bytes
  import opened LocalRegistry
  import opened RegistryRefinement

  /** What watchers care about: which instances are registered, not how long their leases run. */
  function InfoSet(m: Instances): (s: map<uint64, InstanceInfo>) {
    map id | id in m :: m[id].info
  }

  /** The callbacks that an operation's own contract says it hands out from one service. */
  function FiredFrom(r: Registry, op: Op, name: string): (ws: seq<nat>) {
    var s := Get(r, name);
    match op
    case Register(info, _, _) => if info.service == name then s.watchers else []
    case Unregister(n, _) => if n == name then s.watchers else []
    case Renew(n, _, t1, _) => if n == name then SweptOut(s, t1) else []
    case Lookup(n, now) => if n == name then SweptOut(s, now) else []
    case Watch(_, _) => []
    case Sweep(at, end) => SweptOut(s, Reading(at, end, name))
  }

  /** The watchers that a change of version leaves behind. */
  function HandedOut(r: Registry, r': Registry, name: string): (ws: seq<nat>) {
    if Get(r', name).version != Get(r, name).version then Get(r, name).watchers else []
  }

  /** Where and at what version and instance set a watcher subscribed. */
  datatype Home = Home(name: string, version: nat, infos: map<uint64, InstanceInfo>)

  /** A registry, each watcher's subscription, and how often each has been handed out. */
  datatype Tracked = Tracked(r: Registry, homes: seq<Home>, fired: seq<nat>)

  const Fresh := Tracked(map[], [], [])

  /** Watchers are numbered in the order they subscribe. */
  predicate Enabled(t: Tracked, op: Op) {
    |t.fired| == |t.homes| && (op.Watch? ==> op.w == |t.homes|)
  }

  function Step(t: Tracked, op: Op): (t': Tracked)
    requires Enabled(t, op)
    ensures |t'.fired| == |t'.homes|
  {
    var r' := LazyStep(t.r, op);
    var fired := seq(|t.homes|, w requires 0 <= w < |t.homes| =>
      t.fired[w] + multiset(FiredFrom(t.r, op, t.homes[w].name))[w]);
    if op.Watch? then
      var s := Get(t.r, op.name);
      Tracked(r', t.homes + [Home(op.name, s.version, InfoSet(s.instances))], fired + [0])
    else
      Tracked(r', t.homes, fired)
  }

  predicate Possible(t: Tracked, ops: seq<Op>)
    decreases |ops|
  {
    ops == [] || (Enabled(t, ops[0]) && Possible(Step(t, ops[0]), ops[1..]))
  }

  function Run(t: Tracked, ops: seq<Op>): (t': Tracked)
    requires Possible(t, ops)
    decreases |ops|
  {
    if ops == [] then t else Run(Step(t, ops[0]), ops[1..])
  }

  // ------------------------------------------------------------------ one operation, one service

  lemma SweptService(s: Service, now: int)
    ensures var s' := Swept(s, now);
            if s'.version == s.version then s' == s && SweptOut(s, now) == []
            else s'.version == s.version + 1 && s'.watchers == [] && SweptOut(s, now) == s.watchers
  {
  }

  lemma ExtendedInfos(m: Instances, id: uint64, now: int)
    ensures InfoSet(Extended(m, id, now)) == InfoSet(m)
  {
  }

  lemma NothingToSweep(now: int)
    ensures Swept(NoService, now) == NoService && SweptOut(NoService, now) == []
  {
    assert Live(map[], now) == map[];
  }

  /**
   * Every change of a service's instance set raises its version and hands out all its watchers; an operation
   * that keeps the version keeps the instance set, hands out nobody, and keeps the watchers but for a new one.
   */
  lemma NoSilentChange(r: Registry, op: Op, name: string)
    ensures var s, s' := Get(r, name), Get(LazyStep(r, op), name);
            if s'.version == s.version
            then
              && InfoSet(s'.instances) == InfoSet(s.instances) && FiredFrom(r, op, name) == []
              && s'.watchers == s.watchers + (if op.Watch? && op.name == name then [op.w] else [])
            else
              s'.version == s.version + 1 && s'.watchers == [] && FiredFrom(r, op, name) == s.watchers
  {
    hide Swept, SweptOut, InfoSet, Extended;
    var s := Get(r, name);
    assert s.watchers + [] == s.watchers;
    match op
    case Renew(_, id, t1, t2) =>
      SweptService(s, t1);
      NothingToSweep(t1);
      ExtendedInfos(Swept(s, t1).instances, id, t2);
    case Lookup(_, now) => SweptService(s, now); NothingToSweep(now);
    case Sweep(at, end) => SweptService(s, Reading(at, end, name)); NothingToSweep(Reading(at, end, name));
    case _ =>
  }

  /** So what the operations hand out is exactly what the versions say. */
  lemma FiredIsHandedOut(r: Registry, op: Op, name: string)
    ensures FiredFrom(r, op, name) == HandedOut(r, LazyStep(r, op), name)
  {
    NoSilentChange(r, op, name);
  }

  // ------------------------------------------------------------------ what the methods return

  /** The callbacks handed out from the services of `order`, one after the other. */
  function FiredIn(r: Registry, op: Op, order: seq<string>): (ws: seq<nat>) {
    if order == [] then []
    else FiredIn(r, op, order[..|order| - 1]) + FiredFrom(r, op, order[|order| - 1])
  }

  /** `order` names every service that hands out callbacks, and none twice. */
  ghost predicate Covers(r: Registry, op: Op, order: seq<string>) {
    && (forall i, j :: 0 <= i < j < |order| ==> order[i] != order[j])
    && (forall n :: FiredFrom(r, op, n) != [] ==> n in order)
  }

  /** Performs one operation; `fired` are the callbacks the registry runs for it. */
  method Perform(l: Local, op: Op) returns (fired: seq<nat>, ghost order: seq<string>)
    modifies l
    ensures l.services == LazyStep(old(l.services), op)
    ensures Covers(old(l.services), op, order) && fired == FiredIn(old(l.services), op, order)
  {
    hide RegisterStep, UnregisterStep, RenewStep, LookupStep, WatchStep, SweepStep, SweptOut, SweptOutAll;
    hide Covers, FiredIn;
    ghost var r := l.services;
    match op {
      case Register(info, leaseMs, now) =>
        fired := l.RegisterService(info, leaseMs, now);
        order := [info.service];
        OneService(r, op, info.service);
      case Unregister(name, id) =>
        fired := l.Unregister(name, id);
        order := [name];
        OneService(r, op, name);
      case Renew(name, id, t1, t2) =>
        fired := l.RenewLease(name, id, t1, t2);
        order := [name];
        OneService(r, op, name);
      case Lookup(name, now) =>
        var out;
        out, fired := l.Lookup(name, now);
        order := [name];
        OneService(r, op, name);
      case Watch(name, w) =>
        l.Watch(name, w);
        fired, order := [], [];
        NobodyFires(r, op);
      case Sweep(at, end) =>
        fired, order := l.SweepAll(at, end);
        SweepCovers(r, op, order);
    }
  }

  /** All operations but the background sweep hand out callbacks of one service only. */
  lemma {:induction false} OneService(r: Registry, op: Op, name: string)
    requires forall n :: n != name ==> FiredFrom(r, op, n) == []
    ensures Covers(r, op, [name]) && FiredIn(r, op, [name]) == FiredFrom(r, op, name)
  {
    hide FiredFrom;
    FiredInOne(r, op, name);
  }

  lemma {:induction false} NobodyFires(r: Registry, op: Op)
    requires op.Watch?
    ensures Covers(r, op, []) && FiredIn(r, op, []) == []
  {
  }

  lemma {:induction false} FiredInOne(r: Registry, op: Op, name: string)
    ensures FiredIn(r, op, [name]) == FiredFrom(r, op, name)
  {
    hide FiredFrom;
    assert [name][..0] == [];
    assert FiredIn(r, op, []) == [];
  }

  lemma {:induction false} SweepCovers(r: Registry, op: Op, order: seq<string>)
    requires op.Sweep? && Lists(order, r.Keys)
    ensures Covers(r, op, order) && FiredIn(r, op, order) == SweptOutAll(r, op.at, op.end, order)
  {
    SweepFires(r, op, order);
    forall n | FiredFrom(r, op, n) != []
      ensures n in order
    {
      NothingToSweep(Reading(op.at, op.end, n));
    }
  }

  lemma {:induction false} SweepFires(r: Registry, op: Op, order: seq<string>)
    requires op.Sweep?
    ensures FiredIn(r, op, order) == SweptOutAll(r, op.at, op.end, order)
  {
    hide SweptOut;
    if order != [] {
      SweepFires(r, op, order[..|order| - 1]);
    }
  }

  // ------------------------------------------------------------------ whole runs

  /** Watcher `w` is stored once or was handed out once; while stored, its service has not changed. */
  ghost predicate Watching(t: Tracked, w: nat)
    requires w < |t.homes| == |t.fired|
  {
    var h := t.homes[w];
    var s := Get(t.r, h.name);
    && multiset(s.watchers)[w] + t.fired[w] == 1
    && (w in s.watchers ==> s.version == h.version && InfoSet(s.instances) == h.infos)
  }

  /** Watchers are stored with the service they subscribed to. */
  predicate StoredAtHome(t: Tracked, name: string, w: nat) {
    w in Get(t.r, name).watchers ==> w < |t.homes| && t.homes[w].name == name
  }

  ghost predicate AtHome(t: Tracked) {
    forall name: string, w: nat :: StoredAtHome(t, name, w)
  }

  ghost predicate Inv(t: Tracked) {
    |t.fired| == |t.homes| && AtHome(t) && forall w: nat :: w < |t.homes| ==> Watching(t, w)
  }

  lemma StepKeepsHomes(t: Tracked, op: Op)
    requires Enabled(t, op) && AtHome(t)
    ensures AtHome(Step(t, op))
  {
    hide LazyStep, InfoSet;
    var t' := Step(t, op);
    forall name: string, w: nat
      ensures StoredAtHome(t', name, w)
    {
      NoSilentChange(t.r, op, name);
      assert StoredAtHome(t, name, w);
    }
  }

  lemma StepKeepsWatching(t: Tracked, op: Op, w: nat)
    requires Enabled(t, op) && w < |t.homes| && Watching(t, w) && AtHome(t)
    ensures Watching(Step(t, op), w)
  {
    hide LazyStep, InfoSet, FiredFrom;
    NoSilentChange(t.r, op, t.homes[w].name);
  }

  lemma StepStartsWatching(t: Tracked, op: Op)
    requires Enabled(t, op) && op.Watch? && AtHome(t)
    ensures Watching(Step(t, op), op.w)
  {
    hide InfoSet;
    var ws := Get(t.r, op.name).watchers;
    assert StoredAtHome(t, op.name, op.w);
    assert multiset(ws + [op.w]) == multiset(ws) + multiset{op.w};
  }

  lemma {:induction false} RunKeepsInv(t: Tracked, ops: seq<Op>)
    requires Inv(t) && Possible(t, ops)
    ensures Inv(Run(t, ops))
    decreases |ops|
  {
    if ops != [] {
      var t' := Step(t, ops[0]);
      StepKeepsInv(t, ops[0]);
      RunKeepsInv(t', ops[1..]);
    }
  }

  lemma StepKeepsInv(t: Tracked, op: Op)
    requires Inv(t) && Enabled(t, op)
    ensures Inv(Step(t, op))
  {
    hide Watching, AtHome, LazyStep;
    var t' := Step(t, op);
    StepKeepsHomes(t, op);
    forall w: nat | w < |t'.homes|
      ensures Watching(t', w)
    {
      if w < |t.homes| {
        StepKeepsWatching(t, op, w);
      } else {
        StepStartsWatching(t, op);
      }
    }
  }

  lemma FreshInv()
    ensures Inv(Fresh)
  {
  }

  /**
   * In every run a watcher is handed out at most once, and as long as it has not been, its service has the
   * version and the instance set it had when the watcher subscribed: no change can have been missed.
   */
  lemma {:induction false} OneShot(ops: seq<Op>, w: nat)
    requires Possible(Fresh, ops) && w < |Run(Fresh, ops).homes|
    ensures var t := Run(Fresh, ops);
            var s := Get(t.r, t.homes[w].name);
            && |t.fired| == |t.homes| && t.fired[w] <= 1
            && (t.fired[w] == 0 <==> w in s.watchers)
            && (t.fired[w] == 0 ==> s.version == t.homes[w].version && InfoSet(s.instances) == t.homes[w].infos)
  {
    FreshInv();
    RunKeepsInv(Fresh, ops);
    assert Watching(Run(Fresh, ops), w);
  }

  // ------------------------------------------------------------------ counting what the methods return

  lemma {:induction false} FiredElsewhere(r: Registry, op: Op, order: seq<string>, home: string, w: nat)
    requires forall i, j :: 0 <= i < j < |order| ==> order[i] != order[j]
    requires forall n :: n != home ==> multiset(FiredFrom(r, op, n))[w] == 0
    ensures multiset(FiredIn(r, op, order))[w] == if home in order then multiset(FiredFrom(r, op, home))[w] else 0
  {
    hide FiredFrom;
    if order != [] {
      var front, n := order[..|order| - 1], order[|order| - 1];
      FiredElsewhere(r, op, front, home, w);
      assert order == front + [n];
      CountBoth(FiredIn(r, op, front), FiredFrom(r, op, n), w);
    }
  }

  lemma CountBoth(a: seq<nat>, b: seq<nat>, w: nat)
    ensures multiset(a + b)[w] == multiset(a)[w] + multiset(b)[w]
  {
  }

  /** The hand-outs counted along a run are the callbacks that the methods return. */
  lemma {:induction false} CountedAsReturned(t: Tracked, op: Op, order: seq<string>, w: nat)
    requires Inv(t) && Enabled(t, op) && w < |t.homes| && Covers(t.r, op, order)
    ensures Step(t, op).fired[w] == t.fired[w] + multiset(FiredIn(t.r, op, order))[w]
  {
    hide LazyStep, InfoSet, Watching;
    var home := t.homes[w].name;
    forall n | n != home
      ensures multiset(FiredFrom(t.r, op, n))[w] == 0
    {
      assert StoredAtHome(t, n, w);
      NoSilentChange(t.r, op, n);
      hide FiredFrom;
    }
    FiredElsewhere(t.r, op, order, home, w);
    hide FiredFrom;
  }

  /** How often the methods return `w` in a run, when operation `i` goes through the services in `orders[i]`. */
  function Returned(t: Tracked, ops: seq<Op>, orders: seq<seq<string>>, w: nat): (n: nat)
    requires Possible(t, ops) && |orders| == |ops|
    decreases |ops|
  {
    if ops == [] then 0
    else multiset(FiredIn(t.r, ops[0], orders[0]))[w] + Returned(Step(t, ops[0]), ops[1..], orders[1..], w)
  }

  ghost predicate AllCover(t: Tracked, ops: seq<Op>, orders: seq<seq<string>>)
    requires Possible(t, ops) && |orders| == |ops|
    decreases |ops|
  {
    ops == [] || (Covers(t.r, ops[0], orders[0]) && AllCover(Step(t, ops[0]), ops[1..], orders[1..]))
  }

  /** A watcher that has not subscribed yet is not returned. */
  lemma {:induction false} NotYetReturned(t: Tracked, op: Op, order: seq<string>, w: nat)
    requires Inv(t) && Enabled(t, op) && w >= |t.homes| && Covers(t.r, op, order)
    ensures multiset(FiredIn(t.r, op, order))[w] == 0
  {
    hide LazyStep, InfoSet, Watching;
    forall n: string
      ensures multiset(FiredFrom(t.r, op, n))[w] == 0
    {
      assert StoredAtHome(t, n, w);
      NoSilentChange(t.r, op, n);
      hide FiredFrom;
    }
    FiredElsewhere(t.r, op, order, "", w);
    hide FiredFrom;
  }

  function FiredSoFar(t: Tracked, w: nat): (n: nat)
    requires |t.fired| == |t.homes|
  {
    if w < |t.homes| then t.fired[w] else 0
  }

  lemma {:induction false} RunReturns(t: Tracked, ops: seq<Op>, orders: seq<seq<string>>, w: nat)
    requires Inv(t) && Possible(t, ops) && |orders| == |ops| && AllCover(t, ops, orders)
    ensures |Run(t, ops).fired| == |Run(t, ops).homes|
    ensures FiredSoFar(Run(t, ops), w) == FiredSoFar(t, w) + Returned(t, ops, orders, w)
    decreases |ops|
  {
    if ops != [] {
      var op, t' := ops[0], Step(t, ops[0]);
      StepKeepsInv(t, op);
      if w < |t.homes| {
        CountedAsReturned(t, op, orders[0], w);
      } else {
        NotYetReturned(t, op, orders[0], w);
      }
      hide FiredIn, Covers, LazyStep, FiredFrom, Watching, AtHome, InfoSet;
      RunReturns(t', ops[1..], orders[1..], w);
    }
  }

  /**
   * In every run each watcher is returned by the methods, all operations together, at most once; exactly once if it
   * is no longer waiting, and not at all while it is.
   */
  lemma {:induction false} ReturnedOnce(ops: seq<Op>, orders: seq<seq<string>>, w: nat)
    requires Possible(Fresh, ops) && |orders| == |ops| && AllCover(Fresh, ops, orders)
    requires w < |Run(Fresh, ops).homes|
    ensures var t := Run(Fresh, ops);
            Returned(Fresh, ops, orders, w) == if w in Get(t.r, t.homes[w].name).watchers then 0 else 1
  {
    FreshInv();
    RunReturns(Fresh, ops, orders, w);
    RunKeepsInv(Fresh, ops);
    assert Watching(Run(Fresh, ops), w);
    OneShot(ops, w);
    hide Returned, AllCover, InfoSet;
  }
}
