// Expiry is lazy in the registry but looks eager from outside.

module RegistryRefinement {
  import opened Bytes
  import opened Time
  import opened LocalRegistry

  datatype Op =
    | Register(info: InstanceInfo, leaseMs: uint32, now: int)
    | Unregister(name: string, id: uint64)
    | Renew(name: string, id: uint64, t1: int, t2: int)
    | Lookup(name: string, now: int)
    | Watch(name: string, w: nat)
    | Sweep(at: map<string, int>, end: int)

  /** Readings are taken under the lock, so they never go backwards. */
  function ClockAfter(clock: int, op: Op): (t: int) {
    match op
    case Register(_, _, now) => now
    case Renew(_, _, t1, t2) => t2
    case Lookup(_, now) => now
    case Sweep(_, end) => end
    case _ => clock
  }

  predicate Timely(clock: int, op: Op) {
    match op
    case Renew(_, _, t1, t2) => clock <= t1 <= t2
    case Sweep(at, end) => clock <= end && forall name :: name in at ==> clock <= at[name] <= end
    case _ => clock <= ClockAfter(clock, op)
  }

  predicate AllTimely(clock: int, ops: seq<Op>)
    decreases |ops|
  {
    ops == [] || (Timely(clock, ops[0]) && AllTimely(ClockAfter(clock, ops[0]), ops[1..]))
  }

  // ------------------------------------------------------------------ the registry as it is

  function LazyStep(r: Registry, op: Op): (r': Registry) {
    match op
    case Register(info, leaseMs, now) => RegisterStep(r, info, leaseMs, now)
    case Unregister(name, id) => UnregisterStep(r, name, id)
    case Renew(name, id, t1, t2) => RenewStep(r, name, id, t1, t2)
    case Lookup(name, now) => LookupStep(r, name, now)
    case Watch(name, w) => WatchStep(r, name, w)
    case Sweep(at, end) => SweepStep(r, at, end)
  }

  /** What the lookups of a run return, in order. */
  function LazyAnswers(r: Registry, ops: seq<Op>): (out: seq<seq<InstanceInfo>>)
    decreases |ops|
  {
    if ops == [] then []
    else
      var r' := LazyStep(r, ops[0]);
      (if ops[0].Lookup? then [Infos(Get(r', ops[0].name).instances)] else []) + LazyAnswers(r', ops[1..])
  }

  // ------------------------------------------------------------------ a registry without stale leases

  /** Every lease is dropped the instant it expires, so only live leases are ever held. */
  type Eager = map<string, Instances>

  function Held(e: Eager, name: string): (m: Instances) {
    if name in e then e[name] else map[]
  }

  /** What is left of the leases when the clock reaches `now`. */
  function Advance(e: Eager, now: int): (e': Eager)
    ensures forall name :: Held(e', name) == Live(Held(e, name), now)
  {
    map name | name in e :: Live(e[name], now)
  }

  /** Background sweeps do not exist here, and watches do not concern leases. */
  function EagerStep(e: Eager, op: Op): (e': Eager) {
    match op
    case Register(info, leaseMs, now) =>
      var a := Advance(e, now);
      var entry := Entry(info, now + LeaseMs(leaseMs) * MS, LeaseMs(leaseMs));
      a[info.service := Held(a, info.service)[info.instanceId := entry]]
    case Unregister(name, id) => e[name := Held(e, name) - {id}]
    case Renew(name, id, t1, t2) =>
      var a := Advance(e, t1);
      a[name := Extended(Held(a, name), id, t2)]
    case Lookup(name, now) => Advance(e, now)
    case _ => e
  }

  function EagerAnswers(e: Eager, ops: seq<Op>): (out: seq<seq<InstanceInfo>>)
    decreases |ops|
  {
    if ops == [] then []
    else
      var e' := EagerStep(e, ops[0]);
      (if ops[0].Lookup? then [Infos(Held(e', ops[0].name))] else []) + EagerAnswers(e', ops[1..])
  }

  function WithoutSweeps(ops: seq<Op>): (kept: seq<Op>)
    decreases |ops|
  {
    if ops == [] then [] else (if ops[0].Sweep? then [] else [ops[0]]) + WithoutSweeps(ops[1..])
  }

  // ------------------------------------------------------------------ refinement

  /** Both registries hold the same live leases from `clock` on. */
  ghost predicate Agree(r: Registry, e: Eager, clock: int) {
    forall name :: Live(Get(r, name).instances, clock) == Live(Held(e, name), clock)
  }

  lemma LiveTwice(m: Instances, t: int, now: int)
    requires t <= now
    ensures Live(Live(m, t), now) == Live(m, now)
  {
  }

  lemma SweptLive(s: Service, t: int, now: int)
    requires t <= now
    ensures Live(Swept(s, t).instances, now) == Live(s.instances, now)
    ensures Swept(s, t).instances == Live(s.instances, t)
  {
    LiveTwice(s.instances, t, now);
  }

  lemma LaterAgree(r: Registry, e: Eager, clock: int, now: int)
    requires Agree(r, e, clock) && clock <= now
    ensures Agree(r, e, now)
  {
    forall name
      ensures Live(Get(r, name).instances, now) == Live(Held(e, name), now)
    {
      LiveTwice(Get(r, name).instances, clock, now);
      LiveTwice(Held(e, name), clock, now);
    }
  }

  lemma AddedLive(m: Instances, h: Instances, id: uint64, entry: Entry, now: int)
    requires Live(m, now) == Live(h, now)
    ensures Live(m[id := entry], now) == Live(Live(h, now)[id := entry], now)
  {
    assert forall k :: k in m && now < m[k].deadline <==> k in Live(h, now);
  }

  lemma RegisterAgrees(r: Registry, e: Eager, op: Op)
    requires op.Register? && Agree(r, e, op.now)
    ensures Agree(LazyStep(r, op), EagerStep(e, op), op.now)
  {
    hide Live, LeaseMs;
    var r', e' := LazyStep(r, op), EagerStep(e, op);
    var entry := Entry(op.info, op.now + LeaseMs(op.leaseMs) * MS, LeaseMs(op.leaseMs));
    forall name
      ensures Live(Get(r', name).instances, op.now) == Live(Held(e', name), op.now)
    {
      var m, h := Get(r, name).instances, Held(e, name);
      assert Live(m, op.now) == Live(h, op.now);
      if name == op.info.service {
        AddedLive(m, h, op.info.instanceId, entry, op.now);
      } else {
        LiveTwice(h, op.now, op.now);
      }
    }
  }

  lemma RemovedLive(m: Instances, h: Instances, id: uint64, now: int)
    requires Live(m, now) == Live(h, now)
    ensures Live(m - {id}, now) == Live(h - {id}, now)
  {
    assert Live(m - {id}, now) == Live(m, now) - {id};
    assert Live(h - {id}, now) == Live(h, now) - {id};
  }

  lemma UnregisterAgrees(r: Registry, e: Eager, op: Op, clock: int)
    requires op.Unregister? && Agree(r, e, clock)
    ensures Agree(LazyStep(r, op), EagerStep(e, op), clock)
  {
    hide Live;
    var r', e' := LazyStep(r, op), EagerStep(e, op);
    forall name
      ensures Live(Get(r', name).instances, clock) == Live(Held(e', name), clock)
    {
      var m, h := Get(r, name).instances, Held(e, name);
      assert Live(m, clock) == Live(h, clock);
      RemovedLive(m, h, op.id, clock);
      assert name == op.name && name !in r ==> m - {op.id} == m;
    }
  }

  lemma RenewedLive(s: Service, h: Instances, id: uint64, t1: int, t2: int)
    requires Live(s.instances, t1) == Live(h, t1) && t1 <= t2
    ensures Extended(Swept(s, t1).instances, id, t2) == Extended(Live(h, t1), id, t2)
    ensures Live(s.instances, t2) == Live(Live(h, t1), t2)
    ensures s == NoService ==> Extended(Live(h, t1), id, t2) == s.instances
  {
    hide Swept;
    SweptLive(s, t1, t2);
    LiveTwice(s.instances, t1, t2);
    assert s == NoService ==> Live(s.instances, t1) == map[];
  }

  lemma RenewAgrees(r: Registry, e: Eager, op: Op)
    requires op.Renew? && op.t1 <= op.t2 && Agree(r, e, op.t1)
    ensures Agree(LazyStep(r, op), EagerStep(e, op), op.t2)
  {
    hide Live, Swept, Extended;
    var r', e', a := LazyStep(r, op), EagerStep(e, op), Advance(e, op.t1);
    forall name
      ensures Live(Get(r', name).instances, op.t2) == Live(Held(e', name), op.t2)
    {
      assert Live(Get(r, name).instances, op.t1) == Live(Held(e, name), op.t1) == Held(a, name);
      RenewedLive(Get(r, name), Held(e, name), op.id, op.t1, op.t2);
      hide Advance;
      assert Held(e', name) == if name == op.name then Extended(Held(a, name), op.id, op.t2) else Held(a, name);
    }
  }

  lemma LookupKeepsAgreement(r: Registry, e: Eager, op: Op)
    requires op.Lookup? && Agree(r, e, op.now)
    ensures Agree(LazyStep(r, op), EagerStep(e, op), op.now)
  {
    hide Live, Swept;
    var r', e' := LazyStep(r, op), EagerStep(e, op);
    forall name
      ensures Live(Get(r', name).instances, op.now) == Live(Held(e', name), op.now)
    {
      SweptLive(Get(r, name), op.now, op.now);
      LiveTwice(Held(e, name), op.now, op.now);
      assert Live(Get(r, name).instances, op.now) == Live(Held(e, name), op.now);
    }
  }

  lemma SweepAgrees(r: Registry, e: Eager, clock: int, op: Op)
    requires op.Sweep? && Timely(clock, op) && Agree(r, e, op.end)
    ensures Agree(LazyStep(r, op), EagerStep(e, op), op.end)
  {
    hide Live, Swept;
    var r' := LazyStep(r, op);
    forall name
      ensures Live(Get(r', name).instances, op.end) == Live(Held(e, name), op.end)
    {
      var t := Reading(op.at, op.end, name);
      assert t <= op.end;
      SweptLive(Get(r, name), t, op.end);
      assert Live(Get(r, name).instances, op.end) == Live(Held(e, name), op.end);
    }
  }

  lemma StepAgrees(r: Registry, e: Eager, clock: int, op: Op)
    requires Agree(r, e, clock) && Timely(clock, op)
    ensures Agree(LazyStep(r, op), EagerStep(e, op), ClockAfter(clock, op))
  {
    hide Live, Swept, Agree;
    match op
    case Register(_, _, now) => LaterAgree(r, e, clock, now); RegisterAgrees(r, e, op);
    case Unregister(_, _) => UnregisterAgrees(r, e, op, clock);
    case Renew(_, _, t1, _) => LaterAgree(r, e, clock, t1); RenewAgrees(r, e, op);
    case Lookup(_, now) => LaterAgree(r, e, clock, now); LookupKeepsAgreement(r, e, op);
    case Sweep(_, end) => LaterAgree(r, e, clock, end); SweepAgrees(r, e, clock, op);
    case Watch(_, _) => WatchAgrees(r, e, op, clock);
  }

  lemma WatchAgrees(r: Registry, e: Eager, op: Op, clock: int)
    requires op.Watch? && Agree(r, e, clock)
    ensures Agree(LazyStep(r, op), EagerStep(e, op), clock)
  {
    hide Live;
    var r' := LazyStep(r, op);
    forall name
      ensures Live(Get(r', name).instances, clock) == Live(Held(e, name), clock)
    {
      assert Get(r', name).instances == Get(r, name).instances;
    }
  }

  /** A lookup returns what the eager registry holds at that instant. */
  lemma LookupAgrees(r: Registry, e: Eager, op: Op)
    requires op.Lookup? && Agree(r, e, op.now)
    ensures Get(LazyStep(r, op), op.name).instances == Held(EagerStep(e, op), op.name)
  {
    SweptLive(Get(r, op.name), op.now, op.now);
    assert Live(Get(r, op.name).instances, op.now) == Live(Held(e, op.name), op.now);
  }

  /** For every run and every schedule of sweeps, the lazy registry answers like the eager one. */
  lemma {:induction false} AnswersAgree(r: Registry, e: Eager, clock: int, ops: seq<Op>)
    requires Agree(r, e, clock) && AllTimely(clock, ops)
    ensures LazyAnswers(r, ops) == EagerAnswers(e, WithoutSweeps(ops))
    decreases |ops|
  {
    hide Agree, LazyStep, EagerStep;
    if ops != [] {
      var op, r', e' := ops[0], LazyStep(r, ops[0]), EagerStep(e, ops[0]);
      StepAgrees(r, e, clock, op);
      if op.Lookup? {
        LaterAgree(r, e, clock, op.now);
        LookupAgrees(r, e, op);
      }
      AnswersAgree(r', e', ClockAfter(clock, op), ops[1..]);
      if op.Sweep? {
        SweepIsNothing(e, op);
        assert [] + WithoutSweeps(ops[1..]) == WithoutSweeps(ops[1..]);
      } else {
        assert WithoutSweeps(ops)[0] == op && WithoutSweeps(ops)[1..] == WithoutSweeps(ops[1..]);
      }
    }
  }

  lemma SweepIsNothing(e: Eager, op: Op)
    requires op.Sweep?
    ensures EagerStep(e, op) == e
  {
  }

  lemma {:induction false} LazyLooksEager(clock: int, ops: seq<Op>)
    requires AllTimely(clock, ops)
    ensures LazyAnswers(map[], ops) == EagerAnswers(map[], WithoutSweeps(ops))
  {
    AnswersAgree(map[], map[], clock, ops);
  }

  // ------------------------------------------------------------------ no revival

  function LazyRun(r: Registry, ops: seq<Op>): (r': Registry)
    decreases |ops|
  {
    if ops == [] then r else LazyRun(LazyStep(r, ops[0]), ops[1..])
  }

  function ClockOf(clock: int, ops: seq<Op>): (t: int)
    decreases |ops|
  {
    if ops == [] then clock else ClockOf(ClockAfter(clock, ops[0]), ops[1..])
  }

  /** The lease of this instance is missing or has run out. */
  predicate Gone(r: Registry, name: string, id: uint64, clock: int) {
    var m := Get(r, name).instances;
    id in m ==> m[id].deadline <= clock
  }

  lemma StepKeepsGone(r: Registry, name: string, id: uint64, clock: int, op: Op)
    requires Gone(r, name, id, clock) && Timely(clock, op)
    requires !(op.Register? && op.info.service == name && op.info.instanceId == id)
    ensures Gone(LazyStep(r, op), name, id, ClockAfter(clock, op))
  {
  }

  /** Once its lease has run out an instance stays gone, however often it is renewed, until it registers again. */
  lemma {:induction false} NeverRevived(r: Registry, name: string, id: uint64, clock: int, ops: seq<Op>)
    requires Gone(r, name, id, clock) && AllTimely(clock, ops)
    requires forall i :: 0 <= i < |ops| ==>
      !(ops[i].Register? && ops[i].info.service == name && ops[i].info.instanceId == id)
    ensures Gone(LazyRun(r, ops), name, id, ClockOf(clock, ops))
    decreases |ops|
  {
    hide Gone, LazyStep;
    if ops != [] {
      StepKeepsGone(r, name, id, clock, ops[0]);
      NeverRevived(LazyStep(r, ops[0]), name, id, ClockAfter(clock, ops[0]), ops[1..]);
    }
  }

  // ------------------------------------------------------------------ counting without sweeping

  function EagerRun(e: Eager, ops: seq<Op>): (e': Eager)
    decreases |ops|
  {
    if ops == [] then e else EagerRun(EagerStep(e, ops[0]), ops[1..])
  }

  lemma {:induction false} RunAgrees(r: Registry, e: Eager, clock: int, ops: seq<Op>)
    requires Agree(r, e, clock) && AllTimely(clock, ops)
    ensures Agree(LazyRun(r, ops), EagerRun(e, WithoutSweeps(ops)), ClockOf(clock, ops))
    ensures clock <= ClockOf(clock, ops)
    decreases |ops|
  {
    hide Agree, LazyStep, EagerStep;
    if ops != [] {
      var op := ops[0];
      StepAgrees(r, e, clock, op);
      RunAgrees(LazyStep(r, op), EagerStep(e, op), ClockAfter(clock, op), ops[1..]);
      if op.Sweep? {
        SweepIsNothing(e, op);
        assert [] + WithoutSweeps(ops[1..]) == WithoutSweeps(ops[1..]);
      } else {
        assert WithoutSweeps(ops)[0] == op && WithoutSweeps(ops)[1..] == WithoutSweeps(ops[1..]);
      }
    }
  }

  predicate AnyExpired(m: Instances, now: int) {
    exists id :: id in m && m[id].deadline <= now
  }

  lemma LiveSize(m: Instances, now: int)
    ensures |Live(m, now)| <= |m|
    ensures |Live(m, now)| == |m| <==> !AnyExpired(m, now)
  {
    var gone := m.Keys - Live(m, now).Keys;
    assert m.Keys == Live(m, now).Keys + gone && |m.Keys| == |Live(m, now).Keys| + |gone|;
    if AnyExpired(m, now) {
      var id :| id in m && m[id].deadline <= now;
      assert id in gone;
    } else {
      assert gone == {};
    }
  }

  /**
   * In every run, `instanceCount` at `now` is at least the number of instances whose leases still run, and equals
   * it if and only if no stored lease of the service has expired without being swept.
   */
  lemma {:induction false} CountExactly(clock: int, ops: seq<Op>, name: string, now: int)
    requires AllTimely(clock, ops) && ClockOf(clock, ops) <= now
    ensures var m := Get(LazyRun(map[], ops), name).instances;
            var h := Held(Advance(EagerRun(map[], WithoutSweeps(ops)), now), name);
            |h| <= |m| && (|h| == |m| <==> !AnyExpired(m, now))
  {
    var r, e := LazyRun(map[], ops), EagerRun(map[], WithoutSweeps(ops));
    RunAgrees(map[], map[], clock, ops);
    LaterAgree(r, e, ClockOf(clock, ops), now);
    LiveSize(Get(r, name).instances, now);
    hide LazyRun, EagerRun, AnyExpired;
    assert Held(Advance(e, now), name) == Live(Held(e, name), now);
  }

  /** A lease of one millisecond is still counted when it has run out. */
  lemma {:induction false} CountsTheExpired(info: InstanceInfo)
    ensures var ops := [Register(info, 1, 0)];
            && AllTimely(0, ops) && ClockOf(0, ops) <= MS
            && |Get(LazyRun(map[], ops), info.service).instances| == 1
            && |Held(Advance(EagerRun(map[], WithoutSweeps(ops)), MS), info.service)| == 0
  {
    var ops := [Register(info, 1, 0)];
    var m := Get(LazyRun(map[], ops), info.service).instances;
    assert ops[1..] == [];
    assert LazyRun(map[], ops) == RegisterStep(map[], info, 1, 0);
    assert m == map[info.instanceId := Entry(info, MS, 1)];
    CountExactly(0, ops, info.service, MS);
    assert AnyExpired(m, MS);
  }
}
