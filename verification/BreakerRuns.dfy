// Runs of the circuit breaker under a monotone clock.

module BreakerRuns {
  import opened CircuitBreaker

  datatype Op =
    | Allow(t1: int, t2: int)
    | Success(t1: int, t2: int, t3: int)
    | Failure(t1: int, t2: int, t3: int)

  function LastReading(op: Op): (t: int) {
    if op.Allow? then op.t2 else op.t3
  }

  /** The readings of one operation never go backwards. */
  predicate Ordered(op: Op) {
    op.t1 <= op.t2 && (op.Allow? || op.t2 <= op.t3)
  }

  /** Operations run one after the other under the lock, so readings are monotone across them too. */
  predicate Timely(ops: seq<Op>) {
    ops == [] ||
    (&& Timely(ops[..|ops| - 1])
     && Ordered(ops[|ops| - 1])
     && Clock(ops[..|ops| - 1], ops[|ops| - 1].t1) <= ops[|ops| - 1].t1)
  }

  /** The last clock reading of a run, `start` if there was none. */
  function Clock(ops: seq<Op>, start: int): (t: int) {
    if ops == [] then start else LastReading(ops[|ops| - 1])
  }

  function Step(cfg: Config, b: Breaker, op: Op): (b': Breaker) {
    match op
    case Allow(t1, t2) => AllowStep(cfg, b, t1, t2).0
    case Success(t1, t2, t3) => SuccessStep(cfg, b, t1, t2, t3)
    case Failure(t1, t2, t3) => ErrorStep(cfg, b, t1, t2, t3)
  }

  function Run(cfg: Config, ops: seq<Op>): (b: Breaker) {
    if ops == [] then Fresh else Step(cfg, Run(cfg, ops[..|ops| - 1]), ops[|ops| - 1])
  }
}
