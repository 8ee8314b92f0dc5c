// The breaker's error rate in floating point (src/CircuitBreaker.cpp:23-28).

module Rounding {
  import opened CircuitBreaker

  /** The trip condition as the machine evaluates it: the quotient of the counts is rounded to a double. */
  predicate RoundedTrips(cfg: Config, round: real -> real, total: nat, errors: nat) {
    total >= cfg.minRequests && total > 0 && round(errors as real / total as real) > cfg.threshold
  }

  /** Rounding keeps order and leaves the threshold, itself a double, alone. */
  ghost predicate Rounds(round: real -> real, threshold: real) {
    (forall x, y :: x <= y ==> round(x) <= round(y)) && round(threshold) == threshold
  }

  /**
   * Rounding never trips a breaker whose exact error rate is within the threshold; it holds one back if and only if
   * the exact rate is above the threshold and is rounded onto it.
   */
  lemma RoundingOnlyDelays(cfg: Config, round: real -> real, total: nat, errors: nat)
    requires Rounds(round, cfg.threshold)
    ensures RoundedTrips(cfg, round, total, errors) <==>
            Trips(cfg, total, errors) && round(errors as real / total as real) != cfg.threshold
  {
    if total > 0 {
      var rate := errors as real / total as real;
      if rate <= cfg.threshold {
        assert round(rate) <= round(cfg.threshold);
      } else {
        assert round(cfg.threshold) <= round(rate);
      }
    }
  }
}
