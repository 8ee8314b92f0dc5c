// Smooth weighted round-robin (src/LoadBalancer.cpp:46-75).

module WeightedRoundRobin {
  import opened Instances

  // ------------------------------------------------------------------ one pick

  function Sum(c: seq<real>): (s: real) {
    if c == [] then 0.0 else Sum(c[..|c| - 1]) + c[|c| - 1]
  }

  function Zeros(n: nat): (c: seq<real>)
    ensures |c| == n && forall i :: 0 <= i < n ==> c[i] == 0.0
  {
    seq(n, _ => 0.0)
  }

  /** The weights of the healthy instances. */
  function Weights(states: seq<InstanceState>): (ws: seq<real>)
    ensures |ws| == |Healthy(states)|
  {
    var h := Healthy(states);
    seq(|h|, i requires 0 <= i < |h| => states[h[i]].weight)
  }

  /** The weights carried over from the last pick; forgotten when the number of healthy instances changed. */
  function Carried(current: seq<real>, n: nat): (c: seq<real>)
    ensures |c| == n
  {
    if |current| != n then Zeros(n) else current
  }

  function Bumped(c: seq<real>, ws: seq<real>): (d: seq<real>)
    requires |c| == |ws|
    ensures |d| == |c| && forall i :: 0 <= i < |c| ==> d[i] == c[i] + ws[i]
  {
    seq(|c|, i requires 0 <= i < |c| => c[i] + ws[i])
  }

  /** The first index holding the largest value. */
  function Best(c: seq<real>): (b: nat)
    requires c != []
    ensures b < |c|
    ensures forall i :: 0 <= i < |c| ==> c[i] <= c[b]
    ensures forall i :: 0 <= i < b ==> c[i] < c[b]
  {
    if |c| == 1 then 0
    else
      var b := Best(c[..|c| - 1]);
      if c[|c| - 1] > c[b] then |c| - 1 else b
  }

  function Charge(c: seq<real>, b: nat, total: real): (d: seq<real>)
    requires b < |c|
    ensures |d| == |c| && forall i :: 0 <= i < |c| ==> d[i] == if i == b then c[i] - total else c[i]
  {
    c[b := c[b] - total]
  }

  datatype Picked = Picked(current: seq<real>, index: nat)

  /** `pick`: the new weights and the index handed to the caller, `|states|` standing for "none". */
  function PickStep(current: seq<real>, states: seq<InstanceState>): (p: Picked) {
    var h := Healthy(states);
    if h == [] then
      Picked(current, |states|)
    else
      var ws := Weights(states);
      var c := Bumped(Carried(current, |h|), ws);
      Picked(Charge(c, Best(c), Sum(ws)), h[Best(c)])
  }

  class Balancer {
    var current: seq<real>

    constructor ()
      ensures current == []
    {
      current := [];
    }

    method Pick(states: seq<InstanceState>) returns (index: nat)
      modifies this
      ensures Picked(current, index) == PickStep(old(current), states)
    {
      hide Healthy, Weights, Bumped, Best, Sum;
      var healthy := CollectHealthy(states);
      if healthy == [] {
        return |states|;
      }
      var n := |healthy|;
      if |current| != n {
        current := Zeros(n);
      }
      var total := TotalWeight(states, healthy);
      var best;
      current, best := Bump(current, states, healthy);
      current := current[best := current[best] - total];
      index := healthy[best];
    }
  }

  method TotalWeight(states: seq<InstanceState>, healthy: seq<nat>) returns (total: real)
    requires healthy == Healthy(states)
    ensures total == Sum(Weights(states))
  {
    ghost var ws := Weights(states);
    total := 0.0;
    for i := 0 to |healthy|
      invariant total == Sum(ws[..i])
    {
      total := total + states[healthy[i]].weight;
      assert ws[..i + 1][..i] == ws[..i];
    }
    assert ws[..|ws|] == ws;
  }

  /** Adds every weight and finds the largest result, in one pass. */
  method Bump(carried: seq<real>, states: seq<InstanceState>, healthy: seq<nat>) returns (c: seq<real>, best: nat)
    requires healthy == Healthy(states) && healthy != [] && |carried| == |healthy|
    ensures c == Bumped(carried, Weights(states)) && best == Best(c)
  {
    hide Healthy;
    ghost var goal := Bumped(carried, Weights(states));
    var n := |healthy|;
    c, best := carried, 0;
    for i := 0 to n
      invariant |c| == n && best < n
      invariant forall j :: 0 <= j < i ==> c[j] == goal[j]
      invariant forall j :: i <= j < n ==> c[j] == carried[j]
      invariant if i == 0 then best == 0 else best < i && best == Best(goal[..i])
    {
      c := c[i := c[i] + states[healthy[i]].weight];
      assert goal[..i + 1][..i] == goal[..i];
      if c[i] > c[best] {
        best := i;
      }
    }
    assert c[..n] == c && goal[..n] == goal;
  }
}
