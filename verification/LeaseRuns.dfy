// Which instances a lookup lists, told by the operations before it (src/LocalRegistry.cpp).

module LeaseRuns {
  import opened Bytes
  import opened Time
  import opened LocalRegistry
  import opened RegistryRefinement

  /** An instance as the operations of a run leave it: `since` is its registration or its last renewal in time. */
  datatype Tenure = Absent | Present(info: InstanceInfo, lease: nat, since: int)

  predicate Runs(t: Tenure, now: int) {
    t.Present? && now < t.since + t.lease
  }

  /** What one operation means for instance `id` of service `name`: a renewal counts only while the lease runs. */
  function TenureAfter(t: Tenure, name: string, id: uint64, op: Op): (t': Tenure) {
    match op
    case Register(info, leaseMs, now) =>
      if info.service == name && info.instanceId == id
      then Present(info, (if leaseMs > 0 then leaseMs else 10000) * 1_000_000, now) else t
    case Unregister(n, i) => if n == name && i == id then Absent else t
    case Renew(n, i, t1, t2) => if n == name && i == id && Runs(t, t1) then t.(since := t2) else t
    case _ => t
  }

  function TenureOf(t: Tenure, name: string, id: uint64, ops: seq<Op>): (t': Tenure)
    decreases |ops|
  {
    if ops == [] then t else TenureOf(TenureAfter(t, name, id, ops[0]), name, id, ops[1..])
  }

  /** The registry has, from `clock` on, exactly this lease for the instance. */
  ghost predicate Reflects(r: Registry, name: string, id: uint64, t: Tenure, clock: int) {
    var m := Get(r, name).instances;
    && (id in m && clock < m[id].deadline <==> Runs(t, clock))
    && (Runs(t, clock) ==>
          m[id].info == t.info && m[id].deadline == t.since + t.lease && 0 < m[id].leaseMs * MS == t.lease)
  }

  lemma LaterReflects(r: Registry, name: string, id: uint64, t: Tenure, clock: int, now: int)
    requires Reflects(r, name, id, t, clock) && clock <= now
    ensures Reflects(r, name, id, t, now)
  {
  }

  lemma SweptReflects(r: Registry, r': Registry, name: string, id: uint64, t: Tenure, now: int, end: int)
    requires Reflects(r, name, id, t, now) && now <= end
    requires Get(r', name).instances == Live(Get(r, name).instances, now)
    ensures Reflects(r', name, id, t, now) && Reflects(r', name, id, t, end)
  {
  }

  lemma {:induction false} StepReflects(r: Registry, name: string, id: uint64, t: Tenure, clock: int, op: Op)
    requires Reflects(r, name, id, t, clock) && Timely(clock, op)
    ensures Reflects(LazyStep(r, op), name, id, TenureAfter(t, name, id, op), ClockAfter(clock, op))
  {
    hide Live, Swept;
    match op
    case Register(_, _, now) => LaterReflects(r, name, id, t, clock, now);
    case Unregister(_, _) =>
    case Watch(_, _) =>
    case Renew(_, _, t1, _) =>
      LaterReflects(r, name, id, t, clock, t1);
      RenewReflects(r, name, id, t, op);
    case Lookup(n, now) =>
      LaterReflects(r, name, id, t, clock, now);
      SweptLive(Get(r, name), now, now);
      if n == name && name in r {
        SweptReflects(r, LazyStep(r, op), name, id, t, now, now);
      }
    case Sweep(at, end) =>
      var now := Reading(at, end, name);
      LaterReflects(r, name, id, t, clock, now);
      SweptLive(Get(r, name), now, end);
      if name in r {
        SweptReflects(r, LazyStep(r, op), name, id, t, now, end);
      }
  }

  lemma RenewReflects(r: Registry, name: string, id: uint64, t: Tenure, op: Op)
    requires op.Renew? && op.t1 <= op.t2 && Reflects(r, name, id, t, op.t1)
    ensures Reflects(LazyStep(r, op), name, id, TenureAfter(t, name, id, op), op.t2)
  {
    SweptLive(Get(r, name), op.t1, op.t2);
    hide Swept;
  }

  lemma {:induction false} RunReflects(r: Registry, name: string, id: uint64, t: Tenure, clock: int, ops: seq<Op>)
    requires Reflects(r, name, id, t, clock) && AllTimely(clock, ops)
    ensures Reflects(LazyRun(r, ops), name, id, TenureOf(t, name, id, ops), ClockOf(clock, ops))
    decreases |ops|
  {
    hide Reflects, LazyStep, TenureAfter, Timely;
    if ops != [] {
      StepReflects(r, name, id, t, clock, ops[0]);
      RunReflects(LazyStep(r, ops[0]), name, id, TenureAfter(t, name, id, ops[0]), ClockAfter(clock, ops[0]), ops[1..]);
    }
  }

  // ------------------------------------------------------------------ the list a lookup returns

  ghost predicate Ascending(ids: seq<uint64>) {
    forall i, j :: 0 <= i < j < |ids| ==> ids[i] < ids[j]
  }

  /** The instances of `m` by ascending id, each once. */
  ghost predicate Listed(m: Instances, ids: seq<uint64>, out: seq<InstanceInfo>) {
    && Ascending(ids) && (forall id :: id in ids <==> id in m)
    && |out| == |ids| && forall i :: 0 <= i < |ids| ==> ids[i] in m && out[i] == m[ids[i]].info
  }

  lemma AscendingMore(k: uint64, ids: seq<uint64>)
    requires Ascending(ids) && forall i :: 0 <= i < |ids| ==> k < ids[i]
    ensures Ascending([k] + ids)
  {
  }

  lemma ListedMore(m: Instances, k: uint64, rest: Instances, ids: seq<uint64>, out: seq<InstanceInfo>)
    requires k in m && (forall id :: id in m ==> k <= id)
    requires (forall id :: id in rest <==> id in m && id != k) && (forall id :: id in rest ==> rest[id] == m[id])
    requires Listed(rest, ids, out)
    ensures Listed(m, [k] + ids, [m[k].info] + out)
  {
    forall i | 0 <= i < |ids|
      ensures k < ids[i]
    {
      assert ids[i] in rest;
    }
    AscendingMore(k, ids);
    hide Ascending;
    forall id
      ensures id in [k] + ids <==> id in m
    {
      assert id in [k] + ids <==> id == k || id in ids;
    }
    forall i | 0 < i <= |ids|
      ensures ([k] + ids)[i] in m && ([m[k].info] + out)[i] == m[([k] + ids)[i]].info
    {
      assert ids[i - 1] in rest;
    }
  }

  lemma {:induction false} InfosListed(m: Instances) returns (ids: seq<uint64>)
    ensures Listed(m, ids, Infos(m))
    decreases |m|
  {
    hide Listed;
    if m == map[] {
      ids := [];
      NothingListed();
    } else {
      var k := MinId(m.Keys);
      assert (m - {k}).Keys == m.Keys - {k};
      var more := InfosListed(m - {k});
      ListedMore(m, k, m - {k}, more, Infos(m - {k}));
      ids := [k] + more;
    }
  }

  lemma NothingListed()
    ensures Listed(map[], [], [])
  {
  }

  /**
   * In every run a lookup at `now` lists, by ascending id, exactly the instances that were registered, have not been
   * unregistered since, and registered or renewed in time less than their lease ago.
   */
  lemma {:induction false} LookupExactly(clock: int, ops: seq<Op>, name: string, now: int) returns (ids: seq<uint64>)
    requires AllTimely(clock, ops) && ClockOf(clock, ops) <= now
    ensures Ascending(ids)
    ensures forall id :: id in ids <==> Runs(TenureOf(Absent, name, id, ops), now)
    ensures var out := Infos(Get(LookupStep(LazyRun(map[], ops), name, now), name).instances);
            && |out| == |ids|
            && forall i :: 0 <= i < |ids| ==>
                 var t := TenureOf(Absent, name, ids[i], ops); t.Present? && out[i] == t.info
  {
    var r := LazyRun(map[], ops);
    var m := Get(LookupStep(r, name, now), name).instances;
    ids := InfosListed(m);
    SweptLive(Get(r, name), now, now);
    hide Live, Swept, LazyRun, TenureOf, Infos;
    assert m == Live(Get(r, name).instances, now);
    forall id: uint64
      ensures id in ids <==> Runs(TenureOf(Absent, name, id, ops), now)
      ensures id in ids ==> var t := TenureOf(Absent, name, id, ops); t.Present? && m[id].info == t.info
    {
      NothingReflected(name, id, clock);
      RunReflects(map[], name, id, Absent, clock, ops);
      LaterReflects(r, name, id, TenureOf(Absent, name, id, ops), ClockOf(clock, ops), now);
    }
  }

  lemma NothingReflected(name: string, id: uint64, clock: int)
    ensures Reflects(map[], name, id, Absent, clock)
  {
  }

  /** In every run, a round of sweeps leaves in a service exactly the leases that ran at the service's own reading. */
  lemma {:induction false} SweptExactly(clock: int, ops: seq<Op>, at: map<string, int>, end: int, name: string)
    requires AllTimely(clock, ops) && Timely(ClockOf(clock, ops), Sweep(at, end))
    ensures var now := if name in at then at[name] else end;
            var m := Get(SweepStep(LazyRun(map[], ops), at, end), name).instances;
            forall id :: id in m <==> Runs(TenureOf(Absent, name, id, ops), now)
  {
    var r, now := LazyRun(map[], ops), if name in at then at[name] else end;
    var m := Get(SweepStep(r, at, end), name).instances;
    SweptLive(Get(r, name), now, now);
    assert m == Live(Get(r, name).instances, now);
    hide Live, Swept, LazyRun, TenureOf;
    forall id: uint64
      ensures id in m <==> Runs(TenureOf(Absent, name, id, ops), now)
    {
      NothingReflected(name, id, clock);
      RunReflects(map[], name, id, Absent, clock, ops);
      LaterReflects(r, name, id, TenureOf(Absent, name, id, ops), ClockOf(clock, ops), now);
    }
  }
}
