// Exactly which requests the circuit breaker admits (src/CircuitBreaker.cpp).

module Admission {
  import opened CircuitBreaker
  import opened BreakerRuns
  import opened ProbeRate
  import opened WindowAccuracy

  /** Where a run has got to: when the breaker opened, and how many probes have failed since it last was closed. */
  datatype Stage = Shut(at: int, failed: nat) | Probing(failed: nat) | Passing

  /** The tally of a closed breaker at reading `t1`. */
  predicate TripsAt(cfg: Config, ops: seq<Op>, t1: int) {
    var bs := Roll(Run(cfg, ops).buckets, t1, cfg.window);
    Trips(cfg, Requests(bs), Errors(bs))
  }

  predicate IsolatedAt(g: Stage, t: int) {
    g.Shut? && t < g.at + Backoff(g.failed)
  }

  function StageAfter(cfg: Config, ops: seq<Op>, g: Stage, op: Op): (g': Stage) {
    match g
    case Passing => if op.Allow? && TripsAt(cfg, ops, op.t1) then Shut(op.t2, 0) else g
    case Shut(_, failed) => if op.Allow? && !IsolatedAt(g, op.t2) then Probing(failed) else g
    case Probing(failed) => if op.Failure? then Shut(op.t2, failed + 1) else if op.Success? then Passing else g
  }

  function StageOf(cfg: Config, ops: seq<Op>): (g: Stage) {
    if ops == [] then Passing
    else StageAfter(cfg, ops[..|ops| - 1], StageOf(cfg, ops[..|ops| - 1]), ops[|ops| - 1])
  }

  predicate Fits(b: Breaker, g: Stage) {
    match g
    case Passing => b.state == Closed && b.lastIsolation == Backoff(0)
    case Shut(at, failed) => b.state == Open && b.openedAt == at && b.lastIsolation == Backoff(failed)
    case Probing(failed) => b.state == HalfOpen && b.lastIsolation == Backoff(failed)
  }

  lemma {:induction false} StepFits(cfg: Config, ops: seq<Op>, g: Stage, op: Op)
    requires Fits(Run(cfg, ops), g)
    ensures Fits(Step(cfg, Run(cfg, ops), op), StageAfter(cfg, ops, g, op))
  {
    hide Roll, Record, Requests, Errors, Trips, Backoff, Run;
    FirstBackoff();
    if g.Probing? {
      BackoffDoubles(g.failed);
    }
  }

  lemma {:induction false} RunFits(cfg: Config, ops: seq<Op>)
    ensures Fits(Run(cfg, ops), StageOf(cfg, ops))
  {
    if ops == [] {
      FirstBackoff();
    } else {
      var before := ops[..|ops| - 1];
      RunFits(cfg, before);
      StepFits(cfg, before, StageOf(cfg, before), ops[|ops| - 1]);
    }
  }

  /**
   * In every run: a closed breaker admits every request and a half-open one none; an open one admits a request if
   * and only if min(100 * 2^n, 30000) ms have passed since it opened, where n probes have failed since it last
   * tripped from CLOSED. All of it is computed from the operations of the run.
   */
  lemma {:induction false} AdmittedExactly(cfg: Config, ops: seq<Op>, t1: int, t2: int)
    ensures var g := StageOf(cfg, ops);
            AllowStep(cfg, Run(cfg, ops), t1, t2).1 <==> !g.Probing? && !IsolatedAt(g, t2)
  {
    hide Roll, Run, StageOf, Requests, Errors, Trips, Backoff;
    RunFits(cfg, ops);
  }

  // ------------------------------------------------------------------ when a closed breaker trips

  /** At least the minimum of outcomes, and more errors among them than the threshold allows. */
  predicate TooManyErrors(cfg: Config, kept: seq<Outcome>) {
    && |kept| >= cfg.minRequests && kept != []
    && CountIf(kept, IsError()) as real > cfg.threshold * |kept| as real
  }

  lemma RateAbove(errors: real, total: real, threshold: real)
    requires total > 0.0
    ensures errors / total > threshold <==> errors > threshold * total
  {
    var rate := errors / total;
    assert rate * total == errors;
    if rate > threshold {
      assert (rate - threshold) * total > 0.0;
    } else {
      assert (threshold - rate) * total >= 0.0;
    }
  }

  lemma {:induction false} TripsExactly(cfg: Config, total: nat, kept: seq<Outcome>)
    requires total == |kept|
    ensures Trips(cfg, total, CountIf(kept, IsError())) <==> TooManyErrors(cfg, kept)
  {
    if total > 0 {
      RateAbove(CountIf(kept, IsError()) as real, total as real, cfg.threshold);
    }
  }

  /** The last of the outcomes recorded: all of the last window less a second, and none as old as the window. */
  ghost predicate Recent(cfg: Config, log: seq<Outcome>, now: int, k: nat) {
    && k <= |log|
    && (forall i :: 0 <= i < k ==> now - log[i].from > cfg.window - 1_000_000_000)
    && (forall i :: k <= i < |log| ==> now - log[i].to < cfg.window)
  }

  /**
   * In every run a closed breaker trips on a request if and only if too many of the recent outcomes were errors; the
   * outcomes are those recorded since it last closed, less the ones that have left the window.
   */
  lemma {:induction false} TrippedExactly(cfg: Config, ops: seq<Op>, t1: int, t2: int) returns (k: nat)
    requires Timely(ops) && Clock(ops, t1) <= t1 && Run(cfg, ops).state == Closed
    ensures Recent(cfg, LogOf(cfg, ops), t1, k)
    ensures AllowStep(cfg, Run(cfg, ops), t1, t2).0.state == Open <==> TooManyErrors(cfg, LogOf(cfg, ops)[k..])
  {
    hide Roll, Requests, Errors, CountIf, Flat, LogOf, Run, Timely, Holds, Trips, TooManyErrors;
    var w := Explained(cfg, ops, t1);
    var clock := Clock(ops, t1);
    var w' := RollW(w, t1, cfg.window);
    RollKeepsLog(w, t1, cfg.window);
    RollKeepsWInv(w, clock, t1, cfg.window);
    KeptAreRecent(w, clock, t1, cfg.window);
    TallyIsLog(w'.bs, w'.groups);
    k := |w'.dropped|;
    assert LogOf(cfg, ops)[k..] == Flat(w'.groups) && LogOf(cfg, ops)[..k] == w'.dropped;
    TripsExactly(cfg, Requests(w'.bs), Flat(w'.groups));
  }

  // ------------------------------------------------------------------ what the balancers are told

  /**
   * In every run `isAvailable`, by which instances are chosen, agrees with what a request would be told at the same
   * reading, if and only if no probe is under way: then the instance is offered and every request to it refused.
   */
  lemma {:induction false} AvailableExactly(cfg: Config, ops: seq<Op>, t1: int, t2: int)
    ensures var b := Run(cfg, ops);
            (Available(b, t2) <==> AllowStep(cfg, b, t1, t2).1) <==> !StageOf(cfg, ops).Probing?
  {
    hide Roll, Run, StageOf, Requests, Errors, Trips, Backoff;
    RunFits(cfg, ops);
  }
}
