// What balancers are told about the instances of a cluster (include/LoadBalancer.h).

module Instances {
  /** What the cluster channel tells a balancer about one instance. */
  datatype InstanceState = InstanceState(healthy: bool, inflight: nat, latencyEmaMs: real, weight: real)

  /** The indices of the healthy instances among the first `n`, in order. */
  function HealthyUpTo(states: seq<InstanceState>, n: nat): (h: seq<nat>)
    requires n <= |states|
    ensures forall i :: 0 <= i < |h| ==> h[i] < n && states[h[i]].healthy
  {
    if n == 0 then []
    else HealthyUpTo(states, n - 1) + if states[n - 1].healthy then [n - 1] else []
  }

  function Healthy(states: seq<InstanceState>): (h: seq<nat>)
    ensures forall i :: 0 <= i < |h| ==> h[i] < |states| && states[h[i]].healthy
  {
    HealthyUpTo(states, |states|)
  }

  method CollectHealthy(states: seq<InstanceState>) returns (h: seq<nat>)
    ensures h == Healthy(states)
  {
    h := [];
    for i := 0 to |states|
      invariant h == HealthyUpTo(states, i)
    {
      if states[i].healthy {
        h := h + [i];
      }
    }
  }
}
