// The in-process lease registry (src/LocalRegistry.cpp). Clock readings are parameters, in nanoseconds.

module LocalRegistry {
  import opened Bytes
  import opened Time

  datatype InstanceInfo = InstanceInfo(service: string, host: string, port: uint16, instanceId: uint64)

  datatype Entry = Entry(info: InstanceInfo, deadline: int, leaseMs: uint32)

  type Instances = map<uint64, Entry>

  /** `ServiceState`; a watcher callback is known by a number. */
  datatype Service = Service(instances: Instances, watchers: seq<nat>, version: nat)

  type Registry = map<string, Service>

  const NoService := Service(map[], [], 0)

  // ------------------------------------------------------------------ specification

  /** `services_[name]`, which starts out empty. */
  function Get(r: Registry, name: string): (s: Service) {
    if name in r then r[name] else NoService
  }

  /** The leases that have not run out at `now`. */
  function Live(m: Instances, now: int): (l: Instances)
    ensures forall id :: id in l <==> id in m && now < m[id].deadline
    ensures forall id :: id in l ==> l[id] == m[id]
  {
    map id | id in m && now < m[id].deadline :: m[id]
  }

  function LeaseMs(leaseMs: uint32): (l: uint32)
    ensures l > 0
  {
    if leaseMs > 0 then leaseMs else 10000
  }

  /** A new version: all watchers are handed out. */
  function Changed(s: Service, instances: Instances): (s': Service) {
    Service(instances, [], s.version + 1)
  }

  /** `sweepExpiredLocked`. */
  function Swept(s: Service, now: int): (s': Service) {
    var live := Live(s.instances, now);
    if live == s.instances then s else Changed(s, live)
  }

  /** The callbacks that a sweep of this service hands out. */
  function SweptOut(s: Service, now: int): (ws: seq<nat>) {
    if Live(s.instances, now) == s.instances then [] else s.watchers
  }

  function RegisterStep(r: Registry, info: InstanceInfo, leaseMs: uint32, now: int): (r': Registry) {
    var s := Get(r, info.service);
    var entry := Entry(info, now + LeaseMs(leaseMs) * MS, LeaseMs(leaseMs));
    r[info.service := Changed(s, s.instances[info.instanceId := entry])]
  }

  function UnregisterStep(r: Registry, name: string, id: uint64): (r': Registry) {
    if name !in r then r else r[name := Changed(r[name], r[name].instances - {id})]
  }

  /** Extends a lease that is still there. */
  function Extended(m: Instances, id: uint64, now: int): (m': Instances) {
    if id !in m then m else m[id := m[id].(deadline := now + m[id].leaseMs * MS)]
  }

  /** `renewLease`: expired leases are swept before the renewal is looked up. */
  function RenewStep(r: Registry, name: string, id: uint64, t1: int, t2: int): (r': Registry) {
    if name !in r then r
    else
      var s := Swept(r[name], t1);
      r[name := s.(instances := Extended(s.instances, id, t2))]
  }

  function LookupStep(r: Registry, name: string, now: int): (r': Registry) {
    if name !in r then r else r[name := Swept(r[name], now)]
  }

  function WatchStep(r: Registry, name: string, w: nat): (r': Registry) {
    var s := Get(r, name);
    r[name := s.(watchers := s.watchers + [w])]
  }

  /** A round of sweeps reads the clock once for each service; `end` stands for readings not listed. */
  function Reading(at: map<string, int>, end: int, name: string): (t: int) {
    if name in at then at[name] else end
  }

  function SweepStep(r: Registry, at: map<string, int>, end: int): (r': Registry) {
    map name | name in r :: Swept(r[name], Reading(at, end, name))
  }

  /** The callbacks handed out by sweeping the services of `order` one after the other. */
  function SweptOutAll(r: Registry, at: map<string, int>, end: int, order: seq<string>): (ws: seq<nat>) {
    if order == [] then []
    else
      var n := order[|order| - 1];
      SweptOutAll(r, at, end, order[..|order| - 1]) + SweptOut(Get(r, n), Reading(at, end, n))
  }

  /** `order` names each of `names` exactly once and nothing else. */
  ghost predicate Lists(order: seq<string>, names: set<string>) {
    && (forall i, j :: 0 <= i < j < |order| ==> order[i] != order[j])
    && (forall n :: n in order <==> n in names)
  }

  /** The least of the instance ids. */
  function MinId(ids: set<uint64>): (m: uint64)
    requires ids != {}
    ensures m in ids && forall k :: k in ids ==> m <= k
  {
    LeastExists(ids);
    var m :| m in ids && forall k :: k in ids ==> m <= k;
    m
  }

  lemma {:induction false} LeastExists(ids: set<uint64>)
    requires ids != {}
    ensures exists m :: m in ids && forall k :: k in ids ==> m <= k
    decreases ids
  {
    var x :| x in ids;
    var below := set k | k in ids && k < x;
    assert forall k :: k in ids && k < x ==> k in below;
    if below == {} {
      assert forall k :: k in ids ==> x <= k;
    } else {
      assert x !in below;
      LeastExists(below);
      var m :| m in below && forall k :: k in below ==> m <= k;
      assert m in ids && forall k :: k in ids ==> m <= k;
    }
  }

  /** The registered instances in the order of their ids, as a lookup returns them. */
  function Infos(m: Instances): (out: seq<InstanceInfo>)
    ensures |out| == |m|
    decreases |m|
  {
    if m == map[] then []
    else
      var k := MinId(m.Keys);
      assert (m - {k}).Keys == m.Keys - {k};
      [m[k].info] + Infos(m - {k})
  }

  // ------------------------------------------------------------------ the code

  /** Erases the expired leases of one service; `fired` are the callbacks to run after the lock. */
  method SweepExpired(s: Service, now: int) returns (s': Service, fired: seq<nat>)
    ensures s' == Swept(s, now)
    ensures fired == SweptOut(s, now)
  {
    var todo, left, changed := s.instances.Keys, s.instances, false;
    while todo != {}
      invariant todo <= s.instances.Keys
      invariant forall id :: id in left <==> id in s.instances && (id in todo || now < s.instances[id].deadline)
      invariant forall id :: id in left ==> left[id] == s.instances[id]
      invariant changed <==> left != s.instances
      decreases todo
    {
      var id :| id in todo;
      todo := todo - {id};
      if now >= s.instances[id].deadline {
        left := left - {id};
        changed := true;
      }
    }
    assert left == Live(s.instances, now);
    if changed {
      return Service(left, [], s.version + 1), s.watchers;
    }
    return s, [];
  }

  /** The loop over a service's instances in `lookup`, in ascending order of the ids. */
  method CollectInfos(m: Instances) returns (out: seq<InstanceInfo>)
    ensures out == Infos(m)
  {
    out := [];
    var rest := m;
    while rest != map[]
      invariant out + Infos(rest) == Infos(m)
      decreases |rest|
    {
      var k := MinId(rest.Keys);
      out := out + [rest[k].info];
      assert (rest - {k}).Keys == rest.Keys - {k};
      rest := rest - {k};
    }
  }

  class Local {
    var services: Registry

    constructor ()
      ensures services == map[]
    {
      services := map[];
    }

    method RegisterService(info: InstanceInfo, leaseMs: uint32, now: int) returns (fired: seq<nat>)
      modifies this
      ensures services == RegisterStep(old(services), info, leaseMs, now)
      ensures fired == Get(old(services), info.service).watchers
    {
      var lease := if leaseMs > 0 then leaseMs else 10000;
      var s := if info.service in services then services[info.service] else NoService;
      fired := s.watchers;
      s := s.(instances := s.instances[info.instanceId := Entry(info, now + lease * MS, lease)]);
      s := s.(version := s.version + 1, watchers := []);
      services := services[info.service := s];
    }

    method Unregister(name: string, id: uint64) returns (fired: seq<nat>)
      modifies this
      ensures services == UnregisterStep(old(services), name, id)
      ensures fired == Get(old(services), name).watchers
    {
      if name !in services {
        return [];
      }
      var s := services[name];
      fired := s.watchers;
      services := services[name := Service(s.instances - {id}, [], s.version + 1)];
    }

    method RenewLease(name: string, id: uint64, t1: int, t2: int) returns (fired: seq<nat>)
      modifies this
      ensures services == RenewStep(old(services), name, id, t1, t2)
      ensures fired == SweptOut(Get(old(services), name), t1)
    {
      if name !in services {
        return [];
      }
      var s;
      s, fired := SweepExpired(services[name], t1);
      if id in s.instances {
        var e := s.instances[id];
        s := s.(instances := s.instances[id := e.(deadline := t2 + e.leaseMs * MS)]);
      }
      services := services[name := s];
    }

    method Lookup(name: string, now: int) returns (out: seq<InstanceInfo>, fired: seq<nat>)
      modifies this
      ensures services == LookupStep(old(services), name, now)
      ensures out == Infos(Get(services, name).instances)
      ensures fired == SweptOut(Get(old(services), name), now)
    {
      if name !in services {
        return [], [];
      }
      var s;
      s, fired := SweepExpired(services[name], now);
      services := services[name := s];
      out := CollectInfos(s.instances);
    }

    method Watch(name: string, w: nat)
      modifies this
      ensures services == WatchStep(old(services), name, w)
    {
      var s := if name in services then services[name] else NoService;
      services := services[name := s.(watchers := s.watchers + [w])];
    }

    /** `instanceCount`, which does not sweep first. */
    method InstanceCount(name: string) returns (n: nat)
      ensures n == |Get(services, name).instances|
    {
      if name !in services {
        return 0;
      }
      return |services[name].instances|;
    }

    /** One round of `sweeperLoop`; `fired` are the callbacks it runs after the lock. */
    method SweepAll(at: map<string, int>, end: int) returns (fired: seq<nat>, ghost order: seq<string>)
      modifies this
      ensures services == SweepStep(old(services), at, end)
      ensures Lists(order, old(services).Keys) && fired == SweptOutAll(old(services), at, end, order)
    {
      hide Swept, SweptOut, Reading;
      var todo := services.Keys;
      fired, order := [], [];
      while todo != {}
        invariant todo <= services.Keys == old(services).Keys
        invariant Lists(order, old(services).Keys - todo)
        invariant fired == SweptOutAll(old(services), at, end, order)
        invariant forall n :: n in services ==>
          services[n] == if n in todo then old(services)[n] else Swept(old(services)[n], Reading(at, end, n))
        decreases todo
      {
        var n :| n in todo;
        var s, out := SweepExpired(services[n], Reading(at, end, n));
        services := services[n := s];
        todo := todo - {n};
        assert (order + [n])[..|order|] == order;
        fired, order := fired + out, order + [n];
      }
    }
  }
}
