// When removing an instance moves no other key (src/LoadBalancer.cpp).

module RingTies {
  import opened Bytes
  import opened Instances
  import opened ConsistentHash

  /** The ring with the virtual nodes of `j` taken out. */
  function Without(ring: seq<RingEntry>, j: nat): (r: seq<RingEntry>) {
    if ring == [] then []
    else Without(ring[..|ring| - 1], j) + if ring[|ring| - 1].instance == j then [] else [ring[|ring| - 1]]
  }

  lemma {:induction false} WithoutCounts(ring: seq<RingEntry>, j: nat, x: RingEntry)
    ensures multiset(Without(ring, j))[x] == if x.instance == j then 0 else multiset(ring)[x]
  {
    if ring != [] {
      WithoutCounts(ring[..|ring| - 1], j, x);
      assert ring == ring[..|ring| - 1] + [ring[|ring| - 1]];
    }
  }

  lemma {:induction false} WithoutMembers(ring: seq<RingEntry>, j: nat, x: RingEntry)
    ensures x in Without(ring, j) <==> x in ring && x.instance != j
  {
    WithoutCounts(ring, j, x);
    assert x in Without(ring, j) <==> x in multiset(Without(ring, j));
    assert x in ring <==> x in multiset(ring);
  }

  lemma {:induction false} WithoutSorted(ring: seq<RingEntry>, j: nat)
    requires Sorted(ring)
    ensures Sorted(Without(ring, j))
  {
    if ring != [] {
      var front, last := ring[..|ring| - 1], ring[|ring| - 1];
      WithoutSorted(front, j);
      forall i | 0 <= i < |Without(front, j)|
        ensures Without(front, j)[i].hash <= last.hash
      {
        WithoutMembers(front, j, Without(front, j)[i]);
      }
    }
  }

  /** How often `x` is put on the ring for the first `n` instances, and for instance `i` alone. */
  function Copies(states: seq<InstanceState>, vn: nat, n: nat, x: RingEntry): (k: nat)
    requires n <= |states|
  {
    multiset(Nodes(states, vn, n))[x]
  }

  function OwnCopies(i: nat, vn: nat, x: RingEntry): (k: nat)
    ensures x.instance != i ==> k == 0
  {
    assert x in NodesOf(i, vn) ==> x.instance == i;
    multiset(NodesOf(i, vn))[x]
  }

  lemma CopiesStep(states: seq<InstanceState>, vn: nat, n: nat, x: RingEntry)
    requires n <= |states|
    ensures Copies(states, vn, n, x) ==
            if n == 0 then 0
            else Copies(states, vn, n - 1, x) + if states[n - 1].healthy then OwnCopies(n - 1, vn, x) else 0
  {
    hide NodesOf;
    if n > 0 {
      CountConcat(Nodes(states, vn, n - 1), if states[n - 1].healthy then NodesOf(n - 1, vn) else [], x);
    }
  }

  lemma CountConcat(a: seq<RingEntry>, b: seq<RingEntry>, x: RingEntry)
    ensures multiset(a + b)[x] == multiset(a)[x] + multiset(b)[x]
  {
  }

  lemma {:induction false} CopiesWithout(before: seq<InstanceState>, after: seq<InstanceState>, j: nat, vn: nat,
                                         n: nat, x: RingEntry)
    requires WithoutInstance(before, after, j) && n <= |before|
    ensures Copies(after, vn, n, x) == if x.instance == j then 0 else Copies(before, vn, n, x)
  {
    hide Copies, OwnCopies;
    CopiesStep(before, vn, n, x);
    CopiesStep(after, vn, n, x);
    if n > 0 {
      CopiesWithout(before, after, j, vn, n - 1, x);
    }
  }

  lemma {:induction false} WithoutIsRing(before: seq<InstanceState>, after: seq<InstanceState>, j: nat, vn: nat,
                                         ring: seq<RingEntry>)
    requires WithoutInstance(before, after, j) && IsRing(ring, before, vn)
    ensures IsRing(Without(ring, j), after, vn)
  {
    WithoutSorted(ring, j);
    forall x: RingEntry
      ensures multiset(Without(ring, j))[x] == multiset(Nodes(after, vn, |after|))[x]
    {
      WithoutCounts(ring, j, x);
      CopiesWithout(before, after, j, vn, |before|, x);
    }
  }

  /** Two entries of equal hash may change places: a sort by hash may leave them in either order. */
  function Swapped(ring: seq<RingEntry>, p: nat, q: nat): (r: seq<RingEntry>)
    requires p < |ring| && q < |ring|
    ensures |r| == |ring| && multiset(r) == multiset(ring)
  {
    ring[p := ring[q]][q := ring[p]]
  }

  /** Where a key lands, as a position. */
  function LandingAt(ring: seq<RingEntry>, key: uint32): (p: nat)
    requires ring != []
    ensures p < |ring| && ring[p] == Landing(ring, key)
  {
    if LowerBound(ring, key) == |ring| then 0 else LowerBound(ring, key)
  }

  lemma SameHashesSameLanding(r: seq<RingEntry>, s: seq<RingEntry>, key: uint32)
    requires |r| == |s| && r != [] && Sorted(r) && Sorted(s)
    requires forall i :: 0 <= i < |r| ==> r[i].hash == s[i].hash
    ensures LandingAt(r, key) == LandingAt(s, key)
  {
    var p, q := LowerBound(r, key), LowerBound(s, key);
    hide LowerBound;
    assert p < |r| ==> s[p].hash >= key;
    assert q < |r| ==> r[q].hash >= key;
    assert p == q;
  }

  lemma SwapMoves(ring: seq<RingEntry>, key: uint32, x: RingEntry) returns (ring': seq<RingEntry>)
    requires Sorted(ring) && x in ring && x.hash == Landing(ring, key).hash
    ensures Sorted(ring') && multiset(ring') == multiset(ring) && ring' != [] && Landing(ring', key) == x
  {
    var p := LandingAt(ring, key);
    var q :| 0 <= q < |ring| && ring[q] == x;
    ring' := Swapped(ring, p, q);
    SwappedHashes(ring, p, q);
    hide Swapped, Landing, LowerBound;
    SameHashesSameLanding(ring, ring', key);
  }

  lemma SwappedHashes(ring: seq<RingEntry>, p: nat, q: nat)
    requires p < |ring| && q < |ring| && ring[p].hash == ring[q].hash
    ensures var r := Swapped(ring, p, q);
            && r[p] == ring[q]
            && (forall i :: 0 <= i < |r| ==> r[i].hash == ring[i].hash)
            && (Sorted(ring) ==> Sorted(r))
  {
    var r := Swapped(ring, p, q);
    assert forall i :: 0 <= i < |r| ==> r[i].hash == ring[i].hash;
    hide Swapped;
  }

  /** Whatever order the sort leaves ties in, `key` keeps the instance it has on `ring`. */
  ghost predicate Stays(ring: seq<RingEntry>, after: seq<InstanceState>, vn: nat, key: uint32)
    requires ring != []
  {
    forall ring' :: IsRing(ring', after, vn) ==>
      ring' != [] && Landing(ring', key).instance == Landing(ring, key).instance
  }

  /**
   * Minimal movement, exactly: a key that `j` did not own is sure to stay when `j` goes away if and only if no
   * third instance has a virtual node on the very hash where it lands.
   */
  lemma StaysExactly(before: seq<InstanceState>, after: seq<InstanceState>, j: nat, vn: nat,
                     ring: seq<RingEntry>, key: uint32)
    requires WithoutInstance(before, after, j) && IsRing(ring, before, vn)
    requires ring != [] && Landing(ring, key).instance != j
    ensures Stays(ring, after, vn, key) <==> TieFree(ring, key, j)
  {
    var e := Landing(ring, key);
    if TieFree(ring, key, j) {
      forall ring' | IsRing(ring', after, vn)
        ensures ring' != [] && Landing(ring', key).instance == e.instance
      {
        SubRing(before, after, j, vn, ring, ring');
        assert e in ring';
        MinimalMovement(before, after, j, vn, ring, ring', key);
      }
    } else {
      var x :| x in ring && x.hash == e.hash && x.instance != j && x.instance != e.instance;
      TieMoves(before, after, j, vn, ring, key, x);
    }
  }

  lemma TieMoves(before: seq<InstanceState>, after: seq<InstanceState>, j: nat, vn: nat,
                 ring: seq<RingEntry>, key: uint32, x: RingEntry)
    requires WithoutInstance(before, after, j) && IsRing(ring, before, vn)
    requires ring != [] && Landing(ring, key).instance != j
    requires x in ring && x.hash == Landing(ring, key).hash && x.instance != j
    requires x.instance != Landing(ring, key).instance
    ensures !Stays(ring, after, vn, key)
  {
    var e, rest := Landing(ring, key), Without(ring, j);
    WithoutIsRing(before, after, j, vn, ring);
    WithoutMembers(ring, j, x);
    WithoutMembers(ring, j, e);
    SubRing(before, after, j, vn, ring, rest);
    LandingIsClockwise(ring, key);
    LandingIsClockwise(rest, key);
    SameLanding(ring, rest, key, e, Landing(rest, key));
    var ring' := SwapMoves(rest, key, x);
    assert IsRing(ring', after, vn);
  }

  // ------------------------------------------------------------------ ties exist

  lemma {:induction false} HashStep(s: seq<byte>, x: byte, h: bv32, r: bv32)
    requires Fnv1a32(s) == h && Mix(h, x) == r
    ensures Fnv1a32(s + [x]) == r
  {
    hide Mix;
    assert (s + [x])[..|s|] == s;
  }

  lemma FirstTied()
    ensures Fnv1a32(VnodeKey(1403, 36)) == 3489564843
  {
    assert Mix(2166136261, 49) == 873244444;
    assert Mix(873244444, 52) == 401286136;
    assert Mix(401286136, 48) == 1864979416;
    assert Mix(1864979416, 51) == 3910081265;
    assert Mix(3910081265, 35) == 3032955030;
    assert Mix(3032955030, 51) == 983444415;
    assert Mix(983444415, 54) == 3489564843;
    hide Mix;
    var s0: seq<byte> := [];
    assert Fnv1a32(s0) == 2166136261;
    hide Fnv1a32;
    var s1 := s0 + [49];
    HashStep(s0, 49, 2166136261, 873244444);
    var s2 := s1 + [52];
    HashStep(s1, 52, 873244444, 401286136);
    var s3 := s2 + [48];
    HashStep(s2, 48, 401286136, 1864979416);
    var s4 := s3 + [51];
    HashStep(s3, 51, 1864979416, 3910081265);
    var s5 := s4 + [35];
    HashStep(s4, 35, 3910081265, 3032955030);
    var s6 := s5 + [51];
    HashStep(s5, 51, 3032955030, 983444415);
    var s7 := s6 + [54];
    HashStep(s6, 54, 983444415, 3489564843);
    assert s7 == VnodeKey(1403, 36) by {
      assert s7 == [49, 52, 48, 51, 35, 51, 54];
      assert Decimal(1403) == [49, 52, 48, 51];
      assert Decimal(36) == [51, 54];
    }
  }

  lemma SecondTied()
    ensures Fnv1a32(VnodeKey(1034, 9)) == 3489564843
  {
    assert Mix(2166136261, 49) == 873244444;
    assert Mix(873244444, 48) == 468396612;
    assert Mix(468396612, 51) == 1781782869;
    assert Mix(1781782869, 52) == 2426352563;
    assert Mix(2426352563, 35) == 983444400;
    assert Mix(983444400, 57) == 3489564843;
    hide Mix;
    var s0: seq<byte> := [];
    assert Fnv1a32(s0) == 2166136261;
    hide Fnv1a32;
    var s1 := s0 + [49];
    HashStep(s0, 49, 2166136261, 873244444);
    var s2 := s1 + [48];
    HashStep(s1, 48, 873244444, 468396612);
    var s3 := s2 + [51];
    HashStep(s2, 51, 468396612, 1781782869);
    var s4 := s3 + [52];
    HashStep(s3, 52, 1781782869, 2426352563);
    var s5 := s4 + [35];
    HashStep(s4, 35, 2426352563, 983444400);
    var s6 := s5 + [57];
    HashStep(s5, 57, 983444400, 3489564843);
    assert s6 == VnodeKey(1034, 9) by {
      assert s6 == [49, 48, 51, 52, 35, 57];
      assert Decimal(1034) == [49, 48, 51, 52];
      assert Decimal(9) == [57];
    }
  }

  /** The hash of "default", which stands in for a missing key. */
  lemma DefaultKey()
    ensures EffectiveKey(0) == 2470140894
  {
    assert Mix(2166136261, 100) == 3775669363;
    assert Mix(3775669363, 101) == 1545391778;
    assert Mix(1545391778, 102) == 3310976652;
    assert Mix(3310976652, 97) == 2565000983;
    assert Mix(2565000983, 117) == 252475206;
    assert Mix(252475206, 108) == 3667891998;
    assert Mix(3667891998, 116) == 2470140894;
    hide Mix;
    var s0: seq<byte> := [];
    assert Fnv1a32(s0) == 2166136261;
    hide Fnv1a32;
    var s1 := s0 + [100];
    HashStep(s0, 100, 2166136261, 3775669363);
    var s2 := s1 + [101];
    HashStep(s1, 101, 3775669363, 1545391778);
    var s3 := s2 + [102];
    HashStep(s2, 102, 1545391778, 3310976652);
    var s4 := s3 + [97];
    HashStep(s3, 97, 3310976652, 2565000983);
    var s5 := s4 + [117];
    HashStep(s4, 117, 2565000983, 252475206);
    var s6 := s5 + [108];
    HashStep(s5, 108, 252475206, 3667891998);
    var s7 := s6 + [116];
    HashStep(s6, 116, 3667891998, 2470140894);
    assert s7 == DEFAULT_KEY;
  }

  const TIED_KEY: uint32 := 3489564843

  /** With the default 160 virtual nodes, instances 1034 and 1403 share a point of the ring. */
  lemma TieExists()
    ensures VnodeHash(1403, 36) == VnodeHash(1034, 9) == TIED_KEY
    ensures !CollisionFree(1404, 160)
  {
    FirstTied();
    SecondTied();
    hide Fnv1a32, VnodeKey;
  }

  lemma TiedNode(states: seq<InstanceState>, ring: seq<RingEntry>, i: nat, v: nat)
    requires IsRing(ring, states, 160) && i < |states| && states[i].healthy && v < 160
    ensures RingEntry(VnodeHash(i, v), i) in ring
  {
    hide VnodeHash;
    var e := RingEntry(VnodeHash(i, v), i);
    assert NodesOf(i, 160)[v] == e;
    RingMembership(ring, states, 160, e);
  }

  /**
   * The tie matters: whenever instances 1034 and 1403 are healthy there is a ring on which 1403 owns the key they
   * share, and when a third instance goes away that key may move although its owner is still there.
   */
  lemma KeyMovesNeedlessly(before: seq<InstanceState>, after: seq<InstanceState>, j: nat)
    returns (ring: seq<RingEntry>)
    requires WithoutInstance(before, after, j) && |before| > 1403 && j != 1034 && j != 1403
    requires before[1034].healthy && before[1403].healthy
    ensures IsRing(ring, before, 160) && ring != [] && Landing(ring, TIED_KEY).instance == 1403
    ensures !Stays(ring, after, 160, TIED_KEY)
  {
    TieExists();
    hide VnodeHash, Nodes, Landing;
    var some := SortedOrderExists(Nodes(before, 160, |before|));
    var e, x := RingEntry(TIED_KEY, 1403), RingEntry(TIED_KEY, 1034);
    TiedNode(before, some, 1403, 36);
    TiedNode(before, some, 1034, 9);
    LandingIsClockwise(some, TIED_KEY);
    assert e in some && e.hash >= TIED_KEY;
    ring := SwapMoves(some, TIED_KEY, e);
    TiedNode(before, ring, 1034, 9);
    TieMoves(before, after, j, 160, ring, TIED_KEY, x);
  }
}
