// Consistent hashing over virtual nodes (src/LoadBalancer.cpp:8-15, 77-108).

module ConsistentHash {
  import opened Bytes
  import opened Instances

  // ------------------------------------------------------------------ hashing

  /** One round of FNV-1a: exclusive-or the byte in, then multiply with wrap-around. */
  function Mix(h: bv32, b: byte): (r: bv32) {
    (h ^ (b as bv32)) * 16777619
  }

  /** FNV-1a over 32 bits. */
  function Fnv1a32(data: seq<byte>): (h: bv32) {
    if data == [] then 2166136261 else Mix(Fnv1a32(data[..|data| - 1]), data[|data| - 1])
  }

  method HashBytes(data: seq<byte>) returns (h: bv32)
    ensures h == Fnv1a32(data)
  {
    hide Mix;
    h := 2166136261;
    for i := 0 to |data|
      invariant h == Fnv1a32(data[..i])
    {
      h := Mix(h, data[i]);
      assert data[..i + 1][..i] == data[..i];
    }
    assert data[..|data|] == data;
  }

  /** Decimal digits, as `std::to_string` writes them. */
  function Decimal(n: nat): (s: seq<byte>) {
    if n < 10 then [(48 + n) as byte] else Decimal(n / 10) + [(48 + n % 10) as byte]
  }

  /** The key of virtual node `v` of instance `i`: "i#v". */
  function VnodeKey(i: nat, v: nat): (s: seq<byte>) {
    Decimal(i) + [35] + Decimal(v)
  }

  function VnodeHash(i: nat, v: nat): (h: uint32) {
    Fnv1a32(VnodeKey(i, v)) as int
  }

  const DEFAULT_KEY: seq<byte> := [100, 101, 102, 97, 117, 108, 116]

  /** Key 0 means "no key": the hash of "default" stands in for it. */
  function EffectiveKey(requestKey: uint32): (k: uint32) {
    if requestKey != 0 then requestKey else Fnv1a32(DEFAULT_KEY) as int
  }

  // ------------------------------------------------------------------ rings

  datatype RingEntry = RingEntry(hash: uint32, instance: nat)

  /** The virtual nodes of one instance. */
  function NodesOf(i: nat, vn: nat): (es: seq<RingEntry>)
    ensures |es| == vn
  {
    seq(vn, v requires 0 <= v < vn => RingEntry(VnodeHash(i, v), i))
  }

  /** The unsorted ring: every virtual node of every healthy instance among the first `n`. */
  function Nodes(states: seq<InstanceState>, vn: nat, n: nat): (es: seq<RingEntry>)
    requires n <= |states|
  {
    if n == 0 then []
    else Nodes(states, vn, n - 1) + if states[n - 1].healthy then NodesOf(n - 1, vn) else []
  }

  ghost predicate Sorted(ring: seq<RingEntry>) {
    forall i, j :: 0 <= i < j < |ring| ==> ring[i].hash <= ring[j].hash
  }

  /** Any order in which a sort by hash may leave the virtual nodes; ties may fall either way. */
  ghost predicate IsRing(ring: seq<RingEntry>, states: seq<InstanceState>, vn: nat) {
    Sorted(ring) && multiset(ring) == multiset(Nodes(states, vn, |states|))
  }

  /** `std::lower_bound`: how many entries come before `key`. */
  function LowerBound(ring: seq<RingEntry>, key: uint32): (p: nat)
    ensures p <= |ring|
    ensures forall i :: 0 <= i < p ==> ring[i].hash < key
    ensures p < |ring| ==> ring[p].hash >= key
  {
    if ring == [] || ring[0].hash >= key then 0 else 1 + LowerBound(ring[1..], key)
  }

  /** The entry a key lands on: the lower bound, or the first entry past the top of the ring. */
  function Landing(ring: seq<RingEntry>, key: uint32): (e: RingEntry)
    requires ring != []
    ensures e in ring
  {
    var p := LowerBound(ring, key);
    if p == |ring| then ring[0] else ring[p]
  }

  /** What a pick may do to the ring and answer: the ring is only rebuilt when the number of instances is new. */
  ghost predicate PickStep(vn: nat, ring: seq<RingEntry>, version: nat, states: seq<InstanceState>, key: uint32,
                           ring': seq<RingEntry>, version': nat, index: nat) {
    && version' == |states| + 1
    && (if version == |states| + 1 then ring' == ring else IsRing(ring', states, vn))
    && index == if ring' == [] then |states| else Landing(ring', EffectiveKey(key)).instance
  }

  // ------------------------------------------------------------------ the code

  /** A place for `e` that keeps the ring in order. */
  function Inserted(ring: seq<RingEntry>, e: RingEntry): (r: seq<RingEntry>) {
    var p := LowerBound(ring, e.hash);
    ring[..p] + [e] + ring[p..]
  }

  lemma InsertedSorted(ring: seq<RingEntry>, e: RingEntry)
    requires Sorted(ring)
    ensures Sorted(Inserted(ring, e))
  {
    var p, r := LowerBound(ring, e.hash), Inserted(ring, e);
    hide LowerBound;
    forall i, j | 0 <= i < j < |r|
      ensures r[i].hash <= r[j].hash
    {
      assert i < p ==> r[i] == ring[i];
      assert i > p ==> r[i] == ring[i - 1];
      assert j < p ==> r[j] == ring[j];
      assert j > p ==> r[j] == ring[j - 1];
    }
  }

  lemma InsertedMultiset(ring: seq<RingEntry>, e: RingEntry)
    ensures multiset(Inserted(ring, e)) == multiset(ring) + multiset{e}
  {
    var p := LowerBound(ring, e.hash);
    assert ring == ring[..p] + ring[p..];
  }

  class Balancer {
    const virtualNodes: nat
    var ring: seq<RingEntry>
    var ringVersion: nat

    constructor (vn: nat := 160)
      ensures virtualNodes == (if vn > 0 then vn else 160) && ring == [] && ringVersion == 0
    {
      virtualNodes := if vn > 0 then vn else 160;
      ring := [];
      ringVersion := 0;
    }

    method Rebuild(states: seq<InstanceState>)
      modifies this`ring
      ensures IsRing(ring, states, virtualNodes)
    {
      var nodes: seq<RingEntry> := [];
      for i := 0 to |states|
        invariant nodes == Nodes(states, virtualNodes, i)
      {
        if states[i].healthy {
          nodes := AddNodes(nodes, i, virtualNodes);
        }
      }
      ring := SortByHash(nodes);
    }

    /** `pick`. */
    method Pick(states: seq<InstanceState>, requestKey: uint32) returns (index: nat)
      modifies this
      ensures PickStep(virtualNodes, old(ring), old(ringVersion), states, requestKey, ring, ringVersion, index)
    {
      if ringVersion != |states| + 1 {
        Rebuild(states);
        ringVersion := |states| + 1;
      }
      if ring == [] {
        return |states|;
      }
      index := Landing(ring, EffectiveKey(requestKey)).instance;
    }
  }

  /** The inner loop of `rebuild`: the virtual nodes of one instance. */
  method AddNodes(nodes: seq<RingEntry>, i: nat, vn: nat) returns (r: seq<RingEntry>)
    ensures r == nodes + NodesOf(i, vn)
  {
    hide Fnv1a32, VnodeKey;
    r := nodes;
    for v := 0 to vn
      invariant r == nodes + NodesOf(i, vn)[..v]
    {
      var h := HashBytes(VnodeKey(i, v));
      r := r + [RingEntry(h as int, i)];
      assert NodesOf(i, vn)[..v + 1] == NodesOf(i, vn)[..v] + [NodesOf(i, vn)[v]];
    }
    assert NodesOf(i, vn)[..vn] == NodesOf(i, vn);
  }

  method SortByHash(nodes: seq<RingEntry>) returns (ring: seq<RingEntry>)
    ensures Sorted(ring) && multiset(ring) == multiset(nodes)
  {
    ring := [];
    for i := 0 to |nodes|
      invariant Sorted(ring) && multiset(ring) == multiset(nodes[..i])
    {
      InsertedSorted(ring, nodes[i]);
      InsertedMultiset(ring, nodes[i]);
      ring := Inserted(ring, nodes[i]);
      assert nodes[..i + 1] == nodes[..i] + [nodes[i]];
    }
    assert nodes[..|nodes|] == nodes;
  }

  /** Some order of any virtual nodes is sorted, so every set of states has a ring. */
  lemma {:induction false} SortedOrderExists(nodes: seq<RingEntry>) returns (ring: seq<RingEntry>)
    ensures Sorted(ring) && multiset(ring) == multiset(nodes)
  {
    if nodes == [] {
      ring := [];
    } else {
      var last := |nodes| - 1;
      var front := SortedOrderExists(nodes[..last]);
      InsertedSorted(front, nodes[last]);
      InsertedMultiset(front, nodes[last]);
      ring := Inserted(front, nodes[last]);
      assert nodes == nodes[..last] + [nodes[last]];
    }
  }

  // ------------------------------------------------------------------ which instance owns a key

  /** `e` is the first entry clockwise from `key`: nothing lies between them. */
  ghost predicate ClockwiseFrom(ring: seq<RingEntry>, key: uint32, e: RingEntry) {
    && e in ring
    && (if exists x :: x in ring && x.hash >= key
        then e.hash >= key && forall x :: x in ring && x.hash >= key ==> e.hash <= x.hash
        else forall x :: x in ring ==> e.hash <= x.hash)
  }

  /** The binary search with wrap-around finds the clockwise successor. */
  lemma LandingIsClockwise(ring: seq<RingEntry>, key: uint32)
    requires Sorted(ring) && ring != []
    ensures ClockwiseFrom(ring, key, Landing(ring, key))
  {
    var p := LowerBound(ring, key);
    forall x | x in ring && x.hash >= key
      ensures p < |ring| && ring[p].hash <= x.hash
    {
      var i :| 0 <= i < |ring| && ring[i] == x;
    }
    if p == |ring| {
      forall x | x in ring
        ensures ring[0].hash <= x.hash
      {
        var i :| 0 <= i < |ring| && ring[i] == x;
      }
    } else {
      assert ring[p] in ring;
    }
  }

  lemma {:induction false} NodeMembership(states: seq<InstanceState>, vn: nat, n: nat, e: RingEntry)
    requires n <= |states|
    ensures e in Nodes(states, vn, n) <==>
            e.instance < n && states[e.instance].healthy && e in NodesOf(e.instance, vn)
  {
    if n > 0 {
      NodeMembership(states, vn, n - 1, e);
      if e in NodesOf(n - 1, vn) {
        var v :| 0 <= v < vn && NodesOf(n - 1, vn)[v] == e;
      }
    }
  }

  lemma RingMembership(ring: seq<RingEntry>, states: seq<InstanceState>, vn: nat, e: RingEntry)
    requires IsRing(ring, states, vn)
    ensures e in ring <==>
            e.instance < |states| && states[e.instance].healthy && e in NodesOf(e.instance, vn)
  {
    NodeMembership(states, vn, |states|, e);
    assert e in ring <==> e in multiset(ring);
    assert e in Nodes(states, vn, |states|) <==> e in multiset(Nodes(states, vn, |states|));
  }

  /** Only healthy instances own keys of a ring built for these states. */
  lemma OwnerIsHealthy(ring: seq<RingEntry>, states: seq<InstanceState>, vn: nat, key: uint32)
    requires IsRing(ring, states, vn) && ring != []
    ensures var i := Landing(ring, key).instance; i < |states| && states[i].healthy
  {
    RingMembership(ring, states, vn, Landing(ring, key));
  }

  /** The same instances, except that `j` has become unhealthy. */
  ghost predicate WithoutInstance(before: seq<InstanceState>, after: seq<InstanceState>, j: nat) {
    && j < |before| == |after|
    && !after[j].healthy
    && forall i :: 0 <= i < |before| && i != j ==> after[i].healthy == before[i].healthy
  }

  /** No two instances other than `j` have a virtual node exactly where `key` lands. */
  ghost predicate TieFree(ring: seq<RingEntry>, key: uint32, j: nat)
    requires ring != []
  {
    var e := Landing(ring, key);
    forall x :: x in ring && x.hash == e.hash && x.instance != j ==> e.instance == j || x.instance == e.instance
  }

  /**
   * Minimal movement: when instance `j` goes away, a key that `j` did not own stays where it was, and a
   * key that `j` owned goes to a healthy instance.
   */
  lemma MinimalMovement(before: seq<InstanceState>, after: seq<InstanceState>, j: nat, vn: nat,
                        ring: seq<RingEntry>, ring': seq<RingEntry>, key: uint32)
    requires WithoutInstance(before, after, j)
    requires IsRing(ring, before, vn) && IsRing(ring', after, vn) && ring' != []
    requires ring != [] && TieFree(ring, key, j)
    ensures var owner, owner' := Landing(ring, key).instance, Landing(ring', key).instance;
            (owner' == owner || owner == j) && owner' != j && owner' < |after| && after[owner'].healthy
  {
    var e, e' := Landing(ring, key), Landing(ring', key);
    LandingIsClockwise(ring, key);
    LandingIsClockwise(ring', key);
    OwnerIsHealthy(ring', after, vn, key);
    if e.instance != j {
      SubRing(before, after, j, vn, ring, ring');
      assert e in ring';
      SameLanding(ring, ring', key, e, e');
    }
  }

  lemma SubRing(before: seq<InstanceState>, after: seq<InstanceState>, j: nat, vn: nat,
                ring: seq<RingEntry>, ring': seq<RingEntry>)
    requires WithoutInstance(before, after, j)
    requires IsRing(ring, before, vn) && IsRing(ring', after, vn)
    ensures forall x :: x in ring' ==> x in ring
    ensures forall x :: x in ring && x.instance != j ==> x in ring'
  {
    forall x: RingEntry
      ensures (x in ring' ==> x in ring) && (x in ring && x.instance != j ==> x in ring')
    {
      RingMembership(ring, before, vn, x);
      RingMembership(ring', after, vn, x);
    }
  }

  lemma SameLanding(ring: seq<RingEntry>, ring': seq<RingEntry>, key: uint32, e: RingEntry, e': RingEntry)
    requires ClockwiseFrom(ring, key, e) && ClockwiseFrom(ring', key, e') && e in ring'
    requires forall x :: x in ring' ==> x in ring
    ensures e' in ring && e'.hash == e.hash
  {
    assert e' in ring;
  }

  /** The global assumption behind consistent hashing: virtual nodes of different instances never collide. */
  ghost predicate CollisionFree(n: nat, vn: nat) {
    forall i, j, v, u :: 0 <= i < n && 0 <= j < n && i != j && 0 <= v < vn && 0 <= u < vn ==>
      VnodeHash(i, v) != VnodeHash(j, u)
  }

  lemma CollisionFreeIsTieFree(ring: seq<RingEntry>, states: seq<InstanceState>, vn: nat, key: uint32, j: nat)
    requires IsRing(ring, states, vn) && ring != [] && CollisionFree(|states|, vn)
    ensures TieFree(ring, key, j)
  {
    hide VnodeHash, Landing, IsRing;
    var e := Landing(ring, key);
    RingMembership(ring, states, vn, e);
    forall x | x in ring && x.hash == e.hash
      ensures x.instance == e.instance
    {
      RingMembership(ring, states, vn, x);
      var v :| 0 <= v < vn && NodesOf(e.instance, vn)[v] == e;
      var u :| 0 <= u < vn && NodesOf(x.instance, vn)[u] == x;
      assert VnodeHash(e.instance, v) == VnodeHash(x.instance, u);
    }
  }
}
