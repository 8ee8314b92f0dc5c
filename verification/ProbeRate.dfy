// How often an open breaker lets a probe through (src/CircuitBreaker.cpp).

module ProbeRate {
  import opened Powers
  import opened CircuitBreaker
  import opened BreakerRuns

  /** 100 ms doubled `n` times, at most 30 s. */
  function Backoff(n: nat): (d: int)
    ensures FIRST_ISOLATION <= d <= MAX_ISOLATION
  {
    (if 100 * Pow2(n) <= 30_000 then 100 * Pow2(n) else 30_000) * 1_000_000
  }

  /** The least time from a trip to its `n`-th probe. */
  function TotalBackoff(n: nat): (d: int) {
    if n == 0 then 0 else TotalBackoff(n - 1) + Backoff(n - 1)
  }

  lemma BackoffDoubles(n: nat)
    ensures Doubled(Backoff(n)) == Backoff(n + 1)
  {
    assert Pow2(n + 1) == 2 * Pow2(n);
  }

  /** When the breaker last tripped from CLOSED, and how many probes it has granted since. */
  datatype Probes = Probes(trip: int, granted: nat)

  function Track(cfg: Config, b: Breaker, p: Probes, op: Op): (p': Probes) {
    if !op.Allow? then p
    else if b.state == Closed && AllowStep(cfg, b, op.t1, op.t2).0.state == Open then Probes(op.t2, 0)
    else if b.state == Open && AllowStep(cfg, b, op.t1, op.t2).1 then p.(granted := p.granted + 1)
    else p
  }

  function ProbesOf(cfg: Config, ops: seq<Op>): (p: Probes) {
    if ops == [] then Probes(0, 0)
    else Track(cfg, Run(cfg, ops[..|ops| - 1]), ProbesOf(cfg, ops[..|ops| - 1]), ops[|ops| - 1])
  }

  ghost predicate PInv(b: Breaker, p: Probes, clock: int) {
    match b.state
    case Closed => b.lastIsolation == Backoff(0)
    case Open =>
      b.lastIsolation == Backoff(p.granted) && p.trip + TotalBackoff(p.granted) <= b.openedAt <= clock
    case HalfOpen =>
      p.granted > 0 && b.lastIsolation == Backoff(p.granted - 1) && p.trip + TotalBackoff(p.granted) <= clock
  }

  lemma StepKeepsPInv(cfg: Config, b: Breaker, p: Probes, clock: int, op: Op)
    requires PInv(b, p, clock) && Ordered(op) && clock <= op.t1
    ensures PInv(Step(cfg, b, op), Track(cfg, b, p, op), LastReading(op))
  {
    hide Roll, Record, Requests, Errors, Trips, Backoff;
    if b.state == HalfOpen && op.Failure? {
      BackoffDoubles(p.granted - 1);
    }
    if b.state == HalfOpen && op.Success? {
      FirstBackoff();
    }
  }

  lemma FirstBackoff()
    ensures Backoff(0) == FIRST_ISOLATION
  {
  }

  lemma {:induction false} RunKeepsPInv(cfg: Config, ops: seq<Op>, start: int)
    requires Timely(ops)
    ensures PInv(Run(cfg, ops), ProbesOf(cfg, ops), Clock(ops, start))
  {
    if ops == [] {
      FirstBackoff();
    } else {
      var op, before := ops[|ops| - 1], ops[..|ops| - 1];
      RunKeepsPInv(cfg, before, op.t1);
      StepKeepsPInv(cfg, Run(cfg, before), ProbesOf(cfg, before), Clock(before, op.t1), op);
    }
  }

  /**
   * In every run, the n-th probe since the breaker last tripped from CLOSED comes at least the sum of the
   * first n isolation periods, min(100 * 2^i, 30000) ms each, after that trip.
   */
  lemma {:induction false} ProbesBackOff(cfg: Config, ops: seq<Op>, t1: int, t2: int)
    requires Timely(ops) && Clock(ops, t1) <= t1 <= t2
    requires Run(cfg, ops).state == Open && AllowStep(cfg, Run(cfg, ops), t1, t2).1
    ensures t2 >= ProbesOf(cfg, ops).trip + TotalBackoff(ProbesOf(cfg, ops).granted + 1)
  {
    hide Roll, Run, ProbesOf, Timely, Requests, Errors, Trips, Backoff;
    RunKeepsPInv(cfg, ops, t1);
  }

  /** How many of the requests in `ops` the breaker lets through, starting from `b`. */
  function Admissions(cfg: Config, b: Breaker, ops: seq<Op>): (n: nat)
    decreases |ops|
  {
    if ops == [] then 0
    else
      (if ops[0].Allow? && AllowStep(cfg, b, ops[0].t1, ops[0].t2).1 then 1 else 0)
      + Admissions(cfg, Step(cfg, b, ops[0]), ops[1..])
  }

  /**
   * From OPEN, however many requests ask and whenever, at most one is admitted before the next reported
   * outcome; from HALF_OPEN none is, so a probe that never reports keeps the breaker shut for good.
   */
  lemma {:induction false} SingleProbe(cfg: Config, b: Breaker, ops: seq<Op>)
    requires b.state != Closed && forall i :: 0 <= i < |ops| ==> ops[i].Allow?
    ensures Admissions(cfg, b, ops) <= if b.state == Open then 1 else 0
    decreases |ops|
  {
    hide Roll, Trips, Requests, Errors;
    if ops != [] {
      SingleProbe(cfg, Step(cfg, b, ops[0]), ops[1..]);
    }
  }
}
