// What makes the round-robin "smooth" and "weighted": no instance runs ahead of its share, and every
// full round gives each instance exactly its weight.

module WrrFairness {
  import opened Instances
  import opened WeightedRoundRobin

  // ------------------------------------------------------------------ picks with a fixed set of weights

  function Next(c: seq<real>, ws: seq<real>): (d: seq<real>)
    requires ws != [] && |c| == |ws|
    ensures |d| == |ws|
  {
    var b := Bumped(c, ws);
    Charge(b, Best(b), Sum(ws))
  }

  /** The current weights after `k` picks from a fresh start. */
  function After(ws: seq<real>, k: nat): (c: seq<real>)
    requires ws != []
    ensures |c| == |ws|
  {
    if k == 0 then Zeros(|ws|) else Next(After(ws, k - 1), ws)
  }

  /** The instance that pick number `k`, counting from 0, chooses. */
  function Chosen(ws: seq<real>, k: nat): (i: nat)
    requires ws != []
    ensures i < |ws|
  {
    Best(Bumped(After(ws, k), ws))
  }

  /** How often instance `i` was chosen in the first `k` picks. */
  function Count(ws: seq<real>, k: nat, i: nat): (n: nat)
    requires ws != []
    ensures n <= k
  {
    if k == 0 then 0 else Count(ws, k - 1, i) + if Chosen(ws, k - 1) == i then 1 else 0
  }

  /** A fresh balancer asked again and again about the same instances does exactly this. */
  function CurrentAfter(states: seq<InstanceState>, k: nat): (c: seq<real>) {
    if k == 0 then [] else PickStep(CurrentAfter(states, k - 1), states).current
  }

  lemma {:induction false} BalancerFollows(states: seq<InstanceState>, k: nat)
    requires Healthy(states) != []
    ensures Carried(CurrentAfter(states, k), |Weights(states)|) == After(Weights(states), k)
    ensures PickStep(CurrentAfter(states, k), states) ==
            Picked(After(Weights(states), k + 1), Healthy(states)[Chosen(Weights(states), k)])
  {
    hide Healthy, Weights, Next, Chosen, PickStep;
    if k > 0 {
      BalancerFollows(states, k - 1);
    }
    PickFollows(CurrentAfter(states, k), states, k);
  }

  lemma PickFollows(current: seq<real>, states: seq<InstanceState>, k: nat)
    requires Healthy(states) != [] && Carried(current, |Weights(states)|) == After(Weights(states), k)
    ensures PickStep(current, states) ==
            Picked(After(Weights(states), k + 1), Healthy(states)[Chosen(Weights(states), k)])
  {
    hide Healthy, Weights, Best, Bumped, Charge, Sum, Carried;
  }

  // ------------------------------------------------------------------ sums

  lemma {:induction false} SumBumped(c: seq<real>, ws: seq<real>)
    requires |c| == |ws|
    ensures Sum(Bumped(c, ws)) == Sum(c) + Sum(ws)
  {
    if c != [] {
      var n := |c| - 1;
      SumBumped(c[..n], ws[..n]);
      assert Bumped(c, ws)[..n] == Bumped(c[..n], ws[..n]);
    }
  }

  lemma {:induction false} SumCharge(c: seq<real>, b: nat, total: real)
    requires b < |c|
    ensures Sum(Charge(c, b, total)) == Sum(c) - total
  {
    var n := |c| - 1;
    if b < n {
      SumCharge(c[..n], b, total);
      assert Charge(c, b, total)[..n] == Charge(c[..n], b, total);
    } else {
      assert Charge(c, b, total)[..n] == c[..n];
    }
  }

  lemma {:induction false} SumZeros(n: nat)
    ensures Sum(Zeros(n)) == 0.0
  {
    if n > 0 {
      SumZeros(n - 1);
      assert Zeros(n)[..n - 1] == Zeros(n - 1);
    }
  }

  lemma {:induction false} SumAtMost(c: seq<real>, m: real)
    requires m <= 0.0 && forall i :: 0 <= i < |c| ==> c[i] <= m
    ensures Sum(c) <= 0.0
  {
    if c != [] {
      SumAtMost(c[..|c| - 1], m);
    }
  }

  /** The weights sum to zero after every pick, even if health and weights change between picks. */
  lemma {:induction false} PickKeepsBalance(current: seq<real>, states: seq<InstanceState>)
    requires Sum(current) == 0.0
    ensures Sum(PickStep(current, states).current) == 0.0
  {
    if Healthy(states) != [] {
      var ws := Weights(states);
      var c := Carried(current, |ws|);
      SumZeros(|ws|);
      SumBumped(c, ws);
      SumCharge(Bumped(c, ws), Best(Bumped(c, ws)), Sum(ws));
    }
  }

  lemma {:induction false} Balanced(ws: seq<real>, k: nat)
    requires ws != []
    ensures Sum(After(ws, k)) == 0.0 && Sum(Bumped(After(ws, k), ws)) == Sum(ws)
  {
    hide Best, Bumped, Charge, Sum;
    if k == 0 {
      SumZeros(|ws|);
    } else {
      Balanced(ws, k - 1);
      SumCharge(Bumped(After(ws, k - 1), ws), Chosen(ws, k - 1), Sum(ws));
    }
    SumBumped(After(ws, k), ws);
  }

  // ------------------------------------------------------------------ shares

  lemma AfterStep(ws: seq<real>, k: nat, i: nat)
    requires i < |ws|
    ensures After(ws, k + 1)[i] == After(ws, k)[i] + ws[i] - if Chosen(ws, k) == i then Sum(ws) else 0.0
  {
    hide Best, Sum;
  }

  /** The current weight of an instance is its entitlement so far minus what its picks have cost. */
  lemma {:induction false} Ledger(ws: seq<real>, k: nat, i: nat)
    requires i < |ws|
    ensures After(ws, k)[i] == k as real * ws[i] - Count(ws, k, i) as real * Sum(ws)
  {
    hide After, Count, Chosen, Sum;
    if k == 0 {
      LedgerStart(ws, i);
    } else {
      Ledger(ws, k - 1, i);
      AfterStep(ws, k - 1, i);
      CountStep(ws, k - 1, i);
      LedgerStep(k - 1, Count(ws, k - 1, i), ws[i], Sum(ws), After(ws, k - 1)[i], Chosen(ws, k - 1) == i);
    }
  }

  lemma {:induction false} LedgerStart(ws: seq<real>, i: nat)
    requires i < |ws|
    ensures After(ws, 0)[i] == 0.0 && Count(ws, 0, i) == 0
  {
  }

  lemma CountStep(ws: seq<real>, k: nat, i: nat)
    requires ws != []
    ensures Count(ws, k + 1, i) == if Chosen(ws, k) == i then Count(ws, k, i) + 1 else Count(ws, k, i)
  {
  }

  lemma LedgerStep(k: nat, n: nat, w: real, s: real, a: real, hit: bool)
    requires a == k as real * w - n as real * s
    ensures a + w - (if hit then s else 0.0) ==
            (k + 1) as real * w - (if hit then n + 1 else n) as real * s
  {
    OneMore(k, w);
    OneMore(n, s);
  }

  lemma OneMore(n: nat, x: real)
    ensures (n + 1) as real * x == n as real * x + x
  {
  }

  predicate Weighing(ws: seq<real>) {
    ws != [] && Sum(ws) > 0.0 && forall i :: 0 <= i < |ws| ==> ws[i] >= 0.0
  }

  lemma {:induction false} NeverOverdrawn(ws: seq<real>, k: nat, i: nat)
    requires Weighing(ws) && i < |ws|
    ensures After(ws, k)[i] > -Sum(ws)
  {
    hide Next, Sum;
    if k > 0 {
      NeverOverdrawn(ws, k - 1, i);
      AfterStep(ws, k - 1, i);
      ChosenIsPositive(ws, k - 1);
    }
  }

  /** The weights to choose from sum to more than zero, so the largest one is positive. */
  lemma {:induction false} ChosenIsPositive(ws: seq<real>, k: nat)
    requires Weighing(ws)
    ensures After(ws, k)[Chosen(ws, k)] + ws[Chosen(ws, k)] > 0.0
  {
    hide Next, After, Sum;
    var c := Bumped(After(ws, k), ws);
    Balanced(ws, k);
    if c[Best(c)] <= 0.0 {
      SumAtMost(c, c[Best(c)]);
    }
  }

  /** At every prefix an instance has less than one pick more than its proportional share. */
  lemma {:induction false} NeverAhead(ws: seq<real>, k: nat, i: nat)
    requires Weighing(ws) && i < |ws|
    ensures Count(ws, k, i) as real * Sum(ws) < k as real * ws[i] + Sum(ws)
  {
    hide Sum, After, Count;
    NeverOverdrawn(ws, k, i);
    Ledger(ws, k, i);
  }

  lemma {:induction false} SumAbove(c: seq<real>, w: real, i: nat)
    requires i < |c| && forall j :: 0 <= j < |c| ==> c[j] >= -w
    ensures Sum(c) >= c[i] - (|c| - 1) as real * w
  {
    var n := |c| - 1;
    if n > 0 {
      if i < n {
        SumAbove(c[..n], w, i);
      } else {
        SumAbove(c[..n], w, 0);
        OneMore(n - 1, w);
      }
      OneMore(n - 1, w);
    }
  }

  /** And it never lags its share by more than one pick per other instance. */
  lemma {:induction false} NeverFarBehind(ws: seq<real>, k: nat, i: nat)
    requires Weighing(ws) && i < |ws|
    ensures k as real * ws[i] <= Count(ws, k, i) as real * Sum(ws) + (|ws| - 1) as real * Sum(ws)
  {
    hide Sum, After, Count;
    forall j | 0 <= j < |ws|
      ensures After(ws, k)[j] >= -Sum(ws)
    {
      NeverOverdrawn(ws, k, j);
    }
    SumAbove(After(ws, k), Sum(ws), i);
    Balanced(ws, k);
    Ledger(ws, k, i);
  }

  // ------------------------------------------------------------------ full rounds

  function Total(w: seq<nat>): (t: nat) {
    if w == [] then 0 else Total(w[..|w| - 1]) + w[|w| - 1]
  }

  /** Integer weights as the balancer holds them. */
  function AsWeights(w: seq<nat>): (ws: seq<real>)
    ensures |ws| == |w| && forall i :: 0 <= i < |w| ==> ws[i] == w[i] as real
  {
    seq(|w|, i requires 0 <= i < |w| => w[i] as real)
  }

  lemma {:induction false} SumIsTotal(w: seq<nat>)
    ensures Sum(AsWeights(w)) == Total(w) as real
  {
    if w != [] {
      var n := |w| - 1;
      SumIsTotal(w[..n]);
      assert AsWeights(w)[..n] == AsWeights(w[..n]);
    }
  }

  function Counts(ws: seq<real>, k: nat): (c: seq<nat>)
    requires ws != []
    ensures |c| == |ws| && forall i :: 0 <= i < |ws| ==> c[i] == Count(ws, k, i)
  {
    seq(|ws|, i requires 0 <= i < |ws| => Count(ws, k, i))
  }

  lemma {:induction false} TotalUpdate(a: seq<nat>, b: seq<nat>, i: nat)
    requires |a| == |b| && i < |a|
    requires b[i] == a[i] + 1 && forall j :: 0 <= j < |a| && j != i ==> b[j] == a[j]
    ensures Total(b) == Total(a) + 1
  {
    var n := |a| - 1;
    if i < n {
      TotalUpdate(a[..n], b[..n], i);
    } else {
      assert a[..n] == b[..n];
    }
  }

  lemma {:induction false} TotalOfNothing(a: seq<nat>)
    requires forall i :: 0 <= i < |a| ==> a[i] == 0
    ensures Total(a) == 0
  {
    if a != [] {
      TotalOfNothing(a[..|a| - 1]);
    }
  }

  /** Every pick goes to exactly one instance. */
  lemma {:induction false} CountsTotal(ws: seq<real>, k: nat)
    requires ws != []
    ensures Total(Counts(ws, k)) == k
  {
    hide Chosen, Total;
    if k == 0 {
      TotalOfNothing(Counts(ws, 0));
    } else {
      CountsTotal(ws, k - 1);
      TotalUpdate(Counts(ws, k - 1), Counts(ws, k), Chosen(ws, k - 1));
    }
  }

  lemma {:induction false} NoSlack(a: seq<nat>, b: seq<nat>)
    requires |a| == |b| && (forall i :: 0 <= i < |a| ==> a[i] <= b[i])
    ensures Total(a) <= Total(b)
    ensures Total(a) == Total(b) ==> a == b
  {
    if a != [] {
      var n := |a| - 1;
      NoSlack(a[..n], b[..n]);
      if Total(a) == Total(b) {
        assert a == a[..n] + [a[n]] && b == b[..n] + [b[n]];
      }
    }
  }

  lemma CancelFactor(k: real, x: real, c: real, s: real)
    requires k == s && s > 0.0 && k * x - c * s > -s
    ensures c < x + 1.0
  {
    assert k * x - c * s + s == (x - c + 1.0) * s;
    PositiveFactor(x - c + 1.0, s);
  }

  lemma PositiveFactor(a: real, s: real)
    requires s > 0.0 && a * s > 0.0
    ensures a > 0.0
  {
  }

  lemma {:induction false} AtMostWeight(w: seq<nat>, i: nat)
    requires Total(w) > 0 && i < |w|
    ensures Count(AsWeights(w), Total(w), i) <= w[i]
  {
    hide Sum, After, Count, Total;
    var ws := AsWeights(w);
    SumIsTotal(w);
    NeverOverdrawn(ws, Total(w), i);
    Ledger(ws, Total(w), i);
    CancelFactor(Total(w) as real, ws[i], Count(ws, Total(w), i) as real, Sum(ws));
  }

  /**
   * With integer weights summing to `W`, the first `W` picks choose instance `i` exactly `w[i]` times and
   * leave every current weight at zero again.
   */
  lemma {:induction false} FullRound(w: seq<nat>)
    requires Total(w) > 0
    ensures forall i :: 0 <= i < |w| ==> Count(AsWeights(w), Total(w), i) == w[i]
    ensures After(AsWeights(w), Total(w)) == Zeros(|w|)
  {
    assert w != [];
    hide Sum, After, Count, Total;
    var ws, t := AsWeights(w), Total(w);
    forall i | 0 <= i < |w|
      ensures Count(ws, t, i) <= w[i]
    {
      AtMostWeight(w, i);
    }
    CountsTotal(ws, t);
    NoSlack(Counts(ws, t), w);
    assert Counts(ws, t) == w;
    forall i | 0 <= i < |w|
      ensures Count(ws, t, i) == w[i] && After(ws, t)[i] == 0.0
    {
      assert Counts(ws, t)[i] == w[i];
      SettledLedger(w, i);
    }
  }

  lemma {:induction false} SettledLedger(w: seq<nat>, i: nat)
    requires Total(w) > 0 && i < |w| && Count(AsWeights(w), Total(w), i) == w[i]
    ensures After(AsWeights(w), Total(w))[i] == 0.0
  {
    hide Sum, After, Count, Total;
    SumIsTotal(w);
    Ledger(AsWeights(w), Total(w), i);
  }

  /** After a full round everything repeats. */
  lemma {:induction false} Periodic(w: seq<nat>, k: nat)
    requires Total(w) > 0
    ensures After(AsWeights(w), Total(w) + k) == After(AsWeights(w), k)
    ensures Chosen(AsWeights(w), Total(w) + k) == Chosen(AsWeights(w), k)
  {
    hide Next, Best, Bumped, Sum, Total;
    if k == 0 {
      FullRound(w);
    } else {
      Periodic(w, k - 1);
    }
  }

  /** Every window of `W` consecutive picks, wherever it starts, gives each instance exactly its weight. */
  lemma {:induction false} EveryWindow(w: seq<nat>, k: nat, i: nat)
    requires Total(w) > 0 && i < |w|
    ensures Count(AsWeights(w), k + Total(w), i) == Count(AsWeights(w), k, i) + w[i]
  {
    hide After, Chosen, Total;
    if k == 0 {
      FullRound(w);
    } else {
      EveryWindow(w, k - 1, i);
      Periodic(w, k - 1);
    }
  }

  // ------------------------------------------------------------------ the balancer's own answers

  /** How often a fresh balancer, asked `n` times about the same instances, answers `x`. */
  function Answered(states: seq<InstanceState>, n: nat, x: nat): (k: nat) {
    if n == 0 then 0
    else Answered(states, n - 1, x) + if PickStep(CurrentAfter(states, n - 1), states).index == x then 1 else 0
  }

  lemma {:induction false} HealthyDistinct(states: seq<InstanceState>, n: nat, i: nat, j: nat)
    requires n <= |states| && i < j < |HealthyUpTo(states, n)|
    ensures HealthyUpTo(states, n)[i] < HealthyUpTo(states, n)[j]
  {
    if j < |HealthyUpTo(states, n - 1)| {
      HealthyDistinct(states, n - 1, i, j);
    }
  }

  lemma SameHealthy(states: seq<InstanceState>, i: nat, j: nat)
    requires i < |Healthy(states)| && j < |Healthy(states)|
    ensures Healthy(states)[i] == Healthy(states)[j] <==> i == j
  {
    if i < j {
      HealthyDistinct(states, |states|, i, j);
    } else if j < i {
      HealthyDistinct(states, |states|, j, i);
    }
  }

  /** Pick number `k` answers with the instance that the ideal sequence chooses. */
  lemma {:induction false} AnswerIsChosen(states: seq<InstanceState>, k: nat, i: nat)
    requires Healthy(states) != [] && i < |Healthy(states)|
    ensures PickStep(CurrentAfter(states, k), states).index == Healthy(states)[i] <==> Chosen(Weights(states), k) == i
    ensures PickStep(CurrentAfter(states, k), states).index in Healthy(states)
  {
    hide Healthy, Weights, Chosen, PickStep, CurrentAfter, After, Carried;
    BalancerFollows(states, k);
    SameHealthy(states, Chosen(Weights(states), k), i);
  }

  lemma {:induction false} AnsweredIsCount(states: seq<InstanceState>, n: nat, i: nat)
    requires Healthy(states) != [] && i < |Healthy(states)|
    ensures Answered(states, n, Healthy(states)[i]) == Count(Weights(states), n, i)
  {
    hide Healthy, Weights, Chosen, PickStep, CurrentAfter;
    if n > 0 {
      AnsweredIsCount(states, n - 1, i);
      AnswerIsChosen(states, n - 1, i);
    }
  }

  lemma {:induction false} OnlyHealthyAnswered(states: seq<InstanceState>, n: nat, x: nat)
    requires Healthy(states) != [] && x !in Healthy(states)
    ensures Answered(states, n, x) == 0
  {
    hide Healthy, PickStep, CurrentAfter;
    if n > 0 {
      OnlyHealthyAnswered(states, n - 1, x);
      AnswerIsChosen(states, n - 1, 0);
    }
  }

  /**
   * Among any W consecutive answers of a fresh balancer asked about the same instances, whose healthy ones have
   * integer weights summing to W, each healthy instance appears exactly as often as its weight.
   */
  lemma {:induction false} EveryWindowOfAnswers(states: seq<InstanceState>, w: seq<nat>, k: nat, i: nat)
    requires Weights(states) == AsWeights(w) && Total(w) > 0 && i < |w|
    ensures i < |Healthy(states)|
    ensures var x := Healthy(states)[i]; Answered(states, k + Total(w), x) == Answered(states, k, x) + w[i]
  {
    hide *;
    EveryWindow(w, k, i);
    AnsweredIsCount(states, k, i);
    AnsweredIsCount(states, k + Total(w), i);
  }

  /** The weights of the healthy ones among the first `n` instances, in all. */
  function HealthyTotal(states: seq<InstanceState>, w: seq<nat>, n: nat): (t: nat)
    requires |w| == |states| && n <= |states|
  {
    if n == 0 then 0 else HealthyTotal(states, w, n - 1) + if states[n - 1].healthy then w[n - 1] else 0
  }

  function WeightsAt(h: seq<nat>, w: seq<nat>): (r: seq<nat>)
    requires forall i :: 0 <= i < |h| ==> h[i] < |w|
    ensures |r| == |h| && forall i :: 0 <= i < |h| ==> r[i] == w[h[i]]
  {
    seq(|h|, i requires 0 <= i < |h| => w[h[i]])
  }

  lemma {:induction false} HealthyTotalIs(states: seq<InstanceState>, w: seq<nat>, n: nat)
    requires |w| == |states| && n <= |states|
    ensures Total(WeightsAt(HealthyUpTo(states, n), w)) == HealthyTotal(states, w, n)
  {
    if n > 0 {
      HealthyTotalIs(states, w, n - 1);
      var h, front := HealthyUpTo(states, n), HealthyUpTo(states, n - 1);
      if states[n - 1].healthy {
        assert WeightsAt(h, w)[..|front|] == WeightsAt(front, w);
      } else {
        assert h == front;
      }
    }
  }

  lemma {:induction false} HealthyComplete(states: seq<InstanceState>, n: nat, x: nat)
    requires x < n <= |states|
    ensures x in HealthyUpTo(states, n) <==> states[x].healthy
  {
    var front := HealthyUpTo(states, n - 1);
    if x < n - 1 {
      HealthyComplete(states, n - 1, x);
    } else {
      assert forall i :: 0 <= i < |front| ==> front[i] < n - 1;
    }
  }

  predicate HaveWeights(states: seq<InstanceState>, w: seq<nat>) {
    |w| == |states| && forall i :: 0 <= i < |states| && states[i].healthy ==> states[i].weight == w[i] as real
  }

  lemma {:induction false} HealthyWeights(states: seq<InstanceState>, w: seq<nat>)
    requires HaveWeights(states, w)
    ensures Weights(states) == AsWeights(WeightsAt(Healthy(states), w))
    ensures Total(WeightsAt(Healthy(states), w)) == HealthyTotal(states, w, |states|)
  {
    HealthyTotalIs(states, w, |states|);
    hide Healthy, Total, HealthyTotal;
  }

  lemma HealthyExactly(states: seq<InstanceState>, x: nat)
    requires x < |states|
    ensures x in Healthy(states) <==> states[x].healthy
  {
    HealthyComplete(states, |states|, x);
  }

  /**
   * The same, instance by instance: a fresh balancer asked about instances whose healthy ones have integer weights
   * gives, in any window as long as the sum of these, each healthy instance its weight and every other one nothing.
   */
  lemma {:induction false} EveryWindowByInstance(states: seq<InstanceState>, w: seq<nat>, k: nat, x: nat)
    requires HaveWeights(states, w) && HealthyTotal(states, w, |states|) > 0 && x < |states|
    ensures Answered(states, k + HealthyTotal(states, w, |states|), x) ==
            Answered(states, k, x) + if states[x].healthy then w[x] else 0
  {
    hide Answered, HealthyTotal, Total, Weights, Healthy, PickStep, WeightsAt, AsWeights;
    var h, t := Healthy(states), HealthyTotal(states, w, |states|);
    HealthyWeights(states, w);
    HealthyExactly(states, x);
    NobodyNothing(WeightsAt(h, w));
    if states[x].healthy {
      var i :| 0 <= i < |h| && h[i] == x;
      EveryWindowOfAnswers(states, WeightsAt(h, w), k, i);
    } else {
      OnlyHealthyAnswered(states, k, x);
      OnlyHealthyAnswered(states, k + t, x);
    }
  }

  lemma {:induction false} NobodyNothing(c: seq<nat>)
    requires Total(c) > 0
    ensures c != []
  {
  }

  // ------------------------------------------------------------------ when nobody is healthy

  /** The answers of picks that find somebody healthy, one pick for each of the states in turn. */
  function AnswersServed(current: seq<real>, rounds: seq<seq<InstanceState>>): (out: seq<nat>)
    decreases |rounds|
  {
    if rounds == [] then []
    else
      var p := PickStep(current, rounds[0]);
      (if Healthy(rounds[0]) != [] then [p.index] else []) + AnswersServed(p.current, rounds[1..])
  }

  function WithoutOutages(rounds: seq<seq<InstanceState>>): (r: seq<seq<InstanceState>>) {
    if rounds == [] then []
    else (if Healthy(rounds[0]) != [] then [rounds[0]] else []) + WithoutOutages(rounds[1..])
  }

  /** A pick that finds nobody healthy says so and leaves no trace: all others answer as if it had not been made. */
  lemma {:induction false} OutagesLeaveNoTrace(current: seq<real>, rounds: seq<seq<InstanceState>>)
    ensures AnswersServed(current, rounds) == AnswersServed(current, WithoutOutages(rounds))
    ensures rounds != [] && Healthy(rounds[0]) == [] ==> PickStep(current, rounds[0]).index == |rounds[0]|
    decreases |rounds|
  {
    if rounds != [] {
      var rest := WithoutOutages(rounds[1..]);
      OutagesLeaveNoTrace(PickStep(current, rounds[0]).current, rounds[1..]);
      if Healthy(rounds[0]) == [] {
        assert WithoutOutages(rounds) == rest;
      } else {
        assert WithoutOutages(rounds) == [rounds[0]] + rest && WithoutOutages(rounds)[1..] == rest;
      }
    }
  }
}
