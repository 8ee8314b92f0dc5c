// What a consistent-hash balancer answers over whole runs of picks (src/LoadBalancer.cpp).

module RingRuns {
  import opened Bytes
  import opened Instances
  import opened ConsistentHash
  import RingTies

  /** One pick: what it was given, the ring it used and what it answered. */
  datatype Visit = Visit(states: seq<InstanceState>, key: uint32, ring: seq<RingEntry>, index: nat)

  function RingBefore(log: seq<Visit>, k: nat): (ring: seq<RingEntry>)
    requires k <= |log|
  {
    if k == 0 then [] else log[k - 1].ring
  }

  function VersionBefore(log: seq<Visit>, k: nat): (v: nat)
    requires k <= |log|
  {
    if k == 0 then 0 else |log[k - 1].states| + 1
  }

  /** The picks of one balancer, in order, from its construction on. */
  ghost predicate IsRun(vn: nat, log: seq<Visit>) {
    forall k :: 0 <= k < |log| ==> IsVisit(vn, log, k)
  }

  ghost predicate IsVisit(vn: nat, log: seq<Visit>, k: nat)
    requires k < |log|
  {
    var v := log[k];
    PickStep(vn, RingBefore(log, k), VersionBefore(log, k), v.states, v.key, v.ring, |v.states| + 1, v.index)
  }

  /** The last pick, up to the `k`-th, at which the number of instances was new. */
  function BuiltAt(log: seq<Visit>, k: nat): (b: nat)
    requires k < |log|
    ensures b <= k && |log[b].states| == |log[k].states|
  {
    if k > 0 && |log[k - 1].states| == |log[k].states| then BuiltAt(log, k - 1) else k
  }

  /** The ring in use belongs to the states seen when the number of instances last changed. */
  lemma {:induction false} RingInUse(vn: nat, log: seq<Visit>, k: nat)
    requires IsRun(vn, log) && k < |log|
    ensures IsRing(log[k].ring, log[BuiltAt(log, k)].states, vn)
  {
    hide IsRing, Landing, EffectiveKey;
    assert IsVisit(vn, log, k);
    if k > 0 && |log[k - 1].states| == |log[k].states| {
      RingInUse(vn, log, k - 1);
    }
  }

  predicate SomeHealthy(states: seq<InstanceState>) {
    exists i :: 0 <= i < |states| && states[i].healthy
  }

  lemma RingEmptiness(ring: seq<RingEntry>, states: seq<InstanceState>, vn: nat)
    requires IsRing(ring, states, vn) && vn > 0
    ensures ring != [] <==> SomeHealthy(states)
  {
    if ring != [] {
      RingMembership(ring, states, vn, ring[0]);
    }
    if SomeHealthy(states) {
      var i :| 0 <= i < |states| && states[i].healthy;
      var e := NodesOf(i, vn)[0];
      assert e in NodesOf(i, vn);
      RingMembership(ring, states, vn, e);
    }
  }

  /** The `k`-th pick answers with an instance that is healthy when it is asked. */
  predicate AnswersHealthy(log: seq<Visit>, k: nat)
    requires k < |log|
  {
    var v := log[k];
    v.index < |v.states| && v.states[v.index].healthy
  }

  /** What a pick for `key` answers from this ring. */
  function Answer(ring: seq<RingEntry>, states: seq<InstanceState>, key: uint32): (index: nat) {
    if ring == [] then |states| else Landing(ring, EffectiveKey(key)).instance
  }

  // ------------------------------------------------------------------ which instance a key belongs to

  /** `e` is a virtual node of an instance healthy in `states`. */
  predicate IsNode(states: seq<InstanceState>, vn: nat, e: RingEntry) {
    e.instance < |states| && states[e.instance].healthy && e in NodesOf(e.instance, vn)
  }

  /** How far `hash` is from `key`, going up and round. */
  function Distance(key: uint32, hash: uint32): (d: nat) {
    if hash >= key then hash - key else hash - key + TWO32
  }

  /** No healthy instance's virtual node is closer to `key`, going up and round. */
  ghost predicate IsFirst(states: seq<InstanceState>, vn: nat, key: uint32, e: RingEntry) {
    && IsNode(states, vn, e)
    && forall x :: IsNode(states, vn, x) ==> Distance(key, e.hash) <= Distance(key, x.hash)
  }

  /** No other healthy instance has a virtual node on the same hash. */
  ghost predicate Alone(states: seq<InstanceState>, vn: nat, e: RingEntry) {
    forall x :: IsNode(states, vn, x) && x.hash == e.hash ==> x.instance == e.instance
  }

  lemma LandingIsFirst(ring: seq<RingEntry>, states: seq<InstanceState>, vn: nat, key: uint32)
    requires IsRing(ring, states, vn) && ring != []
    ensures IsFirst(states, vn, key, Landing(ring, key))
  {
    var e := Landing(ring, key);
    LandingIsClockwise(ring, key);
    RingMembership(ring, states, vn, e);
    hide IsRing, Landing;
    forall x | IsNode(states, vn, x)
      ensures Distance(key, e.hash) <= Distance(key, x.hash)
    {
      RingMembership(ring, states, vn, x);
    }
  }

  /** Where the first virtual node stands alone, it is the owner. */
  lemma FirstOwns(ring: seq<RingEntry>, states: seq<InstanceState>, vn: nat, key: uint32, e: RingEntry)
    requires IsRing(ring, states, vn) && IsFirst(states, vn, key, e) && Alone(states, vn, e)
    ensures ring != [] && Landing(ring, key).instance == e.instance
  {
    RingMembership(ring, states, vn, e);
    LandingIsFirst(ring, states, vn, key);
    var l := Landing(ring, key);
    hide IsRing, Landing;
    assert Distance(key, e.hash) <= Distance(key, l.hash) <= Distance(key, e.hash);
  }

  // ------------------------------------------------------------------ every pick of every run

  /**
   * In every run, the `k`-th pick answers "none" if and only if nobody was healthy when the number of instances
   * last changed. Otherwise it answers with an instance that has the first virtual node, going up from the key and
   * round, of those healthy then; where that node stands alone, the answer is healthy if and only if its instance
   * is healthy now. A request without a key, that is with key 0, is looked up under the hash of "default".
   */
  lemma {:induction false} AnswersExactly(vn: nat, log: seq<Visit>, k: nat)
    requires IsRun(vn, log) && k < |log| && vn > 0
    ensures var v, then' := log[k], log[BuiltAt(log, k)].states;
            var key := if v.key == 0 then 2_470_140_894 else v.key;
            && IsRing(v.ring, then', vn)
            && (v.index == |v.states| <==> !SomeHealthy(then'))
            && (SomeHealthy(then') ==> exists e :: IsFirst(then', vn, key, e) && e.instance == v.index)
            && (forall e :: IsFirst(then', vn, key, e) && Alone(then', vn, e) ==>
                  v.index == e.instance && (AnswersHealthy(log, k) <==> v.states[e.instance].healthy))
  {
    var v, then' := log[k], log[BuiltAt(log, k)].states;
    var key := EffectiveKey(v.key);
    RingTies.DefaultKey();
    RingInUse(vn, log, k);
    RingEmptiness(v.ring, then', vn);
    assert IsVisit(vn, log, k);
    hide IsRing, Landing, EffectiveKey, SomeHealthy, Distance;
    if v.ring != [] {
      LandingIsFirst(v.ring, then', vn, key);
      assert IsFirst(then', vn, key, Landing(v.ring, key));
    }
    forall e | IsFirst(then', vn, key, e) && Alone(then', vn, e)
      ensures v.index == e.instance && (AnswersHealthy(log, k) <==> v.states[e.instance].healthy)
    {
      FirstOwns(v.ring, then', vn, key, e);
    }
  }

  /** Whatever key the `k`-th pick is asked for, it answers with an instance that is healthy then. */
  ghost predicate EveryKeyHealthy(log: seq<Visit>, k: nat)
    requires k < |log|
  {
    forall key: uint32 :: HealthyFor(log, k, key)
  }

  predicate HealthyFor(log: seq<Visit>, k: nat, key: uint32)
    requires k < |log|
  {
    var i := Answer(log[k].ring, log[k].states, key);
    i < |log[k].states| && log[k].states[i].healthy
  }

  /** Nobody healthy in `before` has failed. */
  predicate NobodyFailed(before: seq<InstanceState>, now: seq<InstanceState>)
    requires |before| == |now|
  {
    forall i :: 0 <= i < |before| && before[i].healthy ==> now[i].healthy
  }

  /** Every healthy instance has a virtual node to itself, on a hash that is a key. */
  ghost predicate OwnPoints(states: seq<InstanceState>, vn: nat) {
    forall i :: 0 <= i < |states| && states[i].healthy ==> exists e :: OwnPoint(states, vn, i, e)
  }

  ghost predicate OwnPoint(states: seq<InstanceState>, vn: nat, i: nat, e: RingEntry) {
    e.instance == i && e.hash != 0 && IsNode(states, vn, e) && Alone(states, vn, e)
  }

  /** If nobody healthy at the last change of the count has failed since, every key gets a healthy instance. */
  lemma {:induction false} UnchangedHealthIsEnough(vn: nat, log: seq<Visit>, k: nat)
    requires IsRun(vn, log) && k < |log| && vn > 0
    requires var then' := log[BuiltAt(log, k)].states; SomeHealthy(then') && NobodyFailed(then', log[k].states)
    ensures EveryKeyHealthy(log, k)
  {
    var ring, then' := log[k].ring, log[BuiltAt(log, k)].states;
    RingInUse(vn, log, k);
    RingEmptiness(ring, then', vn);
    hide IsRing, Landing, EffectiveKey;
    forall key: uint32
      ensures HealthyFor(log, k, key)
    {
      OwnerIsHealthy(ring, then', vn, EffectiveKey(key));
    }
  }

  /** A virtual node that stands alone is what its own hash lands on. */
  lemma OwnPointOwns(ring: seq<RingEntry>, states: seq<InstanceState>, vn: nat, i: nat, e: RingEntry)
    requires IsRing(ring, states, vn) && OwnPoint(states, vn, i, e)
    ensures ring != [] && EffectiveKey(e.hash) == e.hash && Landing(ring, e.hash).instance == i
  {
    hide IsRing, Landing;
    assert IsFirst(states, vn, e.hash, e);
    FirstOwns(ring, states, vn, e.hash, e);
  }

  /**
   * When the promise to consider healthy instances only is kept: in every run, if every instance healthy at the last
   * change of the count has a virtual node to itself, the `k`-th pick answers every key with a healthy instance
   * if and only if somebody was healthy then and nobody healthy then has failed since.
   */
  lemma {:induction false} EveryKeyHealthyExactly(vn: nat, log: seq<Visit>, k: nat)
    requires IsRun(vn, log) && k < |log| && vn > 0
    requires OwnPoints(log[BuiltAt(log, k)].states, vn)
    ensures var then' := log[BuiltAt(log, k)].states;
            EveryKeyHealthy(log, k) <==> SomeHealthy(then') && NobodyFailed(then', log[k].states)
  {
    var v, then' := log[k], log[BuiltAt(log, k)].states;
    if SomeHealthy(then') && NobodyFailed(then', v.states) {
      UnchangedHealthIsEnough(vn, log, k);
    } else {
      RingInUse(vn, log, k);
      RingEmptiness(v.ring, then', vn);
      hide IsRing, Landing, Alone, IsNode;
      if !SomeHealthy(then') {
        assert !HealthyFor(log, k, 0);
      } else {
        var i :| 0 <= i < |then'| && then'[i].healthy && !v.states[i].healthy;
        var e :| OwnPoint(then', vn, i, e);
        OwnPointOwns(v.ring, then', vn, i, e);
        assert !HealthyFor(log, k, e.hash);
      }
    }
  }

  /** Some virtual node of instance `i` is off hash 0, which as a key means "no key". */
  predicate OffZero(i: nat, vn: nat) {
    exists v :: 0 <= v < vn && VnodeHash(i, v) != 0
  }

  /** Where no virtual nodes collide and every instance has one off hash 0, every instance has a point to itself. */
  lemma CollisionFreeOwnPoints(states: seq<InstanceState>, vn: nat)
    requires CollisionFree(|states|, vn)
    requires forall i :: 0 <= i < |states| ==> OffZero(i, vn)
    ensures OwnPoints(states, vn)
  {
    hide VnodeHash;
    forall i | 0 <= i < |states| && states[i].healthy
      ensures exists e :: OwnPoint(states, vn, i, e)
    {
      assert OffZero(i, vn);
      var v :| 0 <= v < vn && VnodeHash(i, v) != 0;
      var e := RingEntry(VnodeHash(i, v), i);
      assert NodesOf(i, vn)[v] == e;
      forall x | IsNode(states, vn, x) && x.hash == e.hash
        ensures x.instance == i
      {
        var u :| 0 <= u < vn && NodesOf(x.instance, vn)[u] == x;
      }
      assert OwnPoint(states, vn, i, e);
    }
  }

  // ------------------------------------------------------------------ runs that go wrong

  /** A first pick and one with the same number of instances make a run. */
  lemma TwoPicks(vn: nat, before: seq<InstanceState>, after: seq<InstanceState>, key: uint32)
    returns (log: seq<Visit>)
    requires |before| == |after|
    ensures |log| == 2 && IsRun(vn, log) && BuiltAt(log, 1) == 0
    ensures log[0].states == before && log[1].states == after && log[0].key == log[1].key == key
    ensures log[1].ring == log[0].ring && log[1].index == log[0].index
  {
    var ring := SortedOrderExists(Nodes(before, vn, |before|));
    var i := Answer(ring, before, key);
    log := [Visit(before, key, ring, i), Visit(after, key, ring, i)];
    hide Landing, EffectiveKey, Nodes;
    assert IsVisit(vn, log, 0);
    assert IsVisit(vn, log, 1);
  }

  const UP := InstanceState(true, 0, 0.0, 1.0)
  const DOWN := InstanceState(false, 0, 0.0, 1.0)

  /** The key of an instance that has failed still goes to it, though the other instance is healthy. */
  lemma SentToTheDead(vn: nat, key: uint32) returns (log: seq<Visit>)
    requires vn > 0
    ensures |log| == 2 && IsRun(vn, log) && log[0].states == [UP, UP]
    ensures log[1].states == [UP, DOWN] || log[1].states == [DOWN, UP]
    ensures log[1].index < 2 && !log[1].states[log[1].index].healthy && log[1].states[1 - log[1].index].healthy
  {
    var first := TwoPicks(vn, [UP, UP], [UP, UP], key);
    AnswersExactly(vn, first, 0);
    assert [UP, UP][0].healthy;
    hide IsRing, Landing, EffectiveKey, Alone, Distance;
    var i := first[0].index;
    var after := if i == 0 then [DOWN, UP] else [UP, DOWN];
    log := [first[0], first[1].(states := after)];
    assert IsVisit(vn, first, 0);
    assert IsVisit(vn, log, 0);
    assert IsVisit(vn, log, 1);
  }

  /** A balancer first asked while its only instance was down answers "none" after the instance has recovered. */
  lemma NeverNoticesRecovery(vn: nat, key: uint32) returns (log: seq<Visit>)
    requires vn > 0
    ensures |log| == 2 && IsRun(vn, log) && log[0].states == [DOWN] && log[1].states == [UP]
    ensures log[1].index == 1 == |log[1].states|
  {
    log := TwoPicks(vn, [DOWN], [UP], key);
    AnswersExactly(vn, log, 1);
  }
}
