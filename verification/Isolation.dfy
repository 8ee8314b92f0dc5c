// How long the breaker isolates an instance, against its description (include/CircuitBreaker.h:18-19).

module Isolation {
  import opened Powers
  import opened Time
  import opened CircuitBreaker
  import opened BreakerRuns
  import opened ProbeRate

  /** How often the breaker has tripped, and how often from CLOSED. */
  datatype TripCount = TripCount(all: nat, fromClosed: nat)

  function Trip(b: Breaker, b': Breaker, n: TripCount): (n': TripCount) {
    if b.state == Open || b'.state != Open then n
    else TripCount(n.all + 1, if b.state == Closed then n.fromClosed + 1 else n.fromClosed)
  }

  function TripsOf(cfg: Config, ops: seq<Op>): (n: TripCount) {
    if ops == [] then TripCount(0, 0)
    else
      var before := ops[..|ops| - 1];
      Trip(Run(cfg, before), Run(cfg, ops), TripsOf(cfg, before))
  }

  ghost predicate TInv(b: Breaker, p: Probes, n: TripCount) {
    match b.state
    case Closed => n.all >= n.fromClosed && (n.fromClosed == 0 ==> n.all == 0)
    case Open =>
      n.fromClosed > 0 && n.all >= p.granted + n.fromClosed && (n.fromClosed == 1 ==> n.all == p.granted + 1)
    case HalfOpen =>
      && p.granted > 0 && n.fromClosed > 0 && n.all >= p.granted - 1 + n.fromClosed
      && (n.fromClosed == 1 ==> n.all == p.granted)
  }

  lemma StepKeepsTInv(cfg: Config, b: Breaker, p: Probes, n: TripCount, op: Op)
    requires TInv(b, p, n)
    ensures TInv(Step(cfg, b, op), Track(cfg, b, p, op), Trip(b, Step(cfg, b, op), n))
  {
    hide Roll, Record, Requests, Errors, Trips;
  }

  lemma {:induction false} RunKeepsTInv(cfg: Config, ops: seq<Op>)
    ensures TInv(Run(cfg, ops), ProbesOf(cfg, ops), TripsOf(cfg, ops))
  {
    if ops != [] {
      var before := ops[..|ops| - 1];
      RunKeepsTInv(cfg, before);
      StepKeepsTInv(cfg, Run(cfg, before), ProbesOf(cfg, before), TripsOf(cfg, before), ops[|ops| - 1]);
    }
  }

  /** Nine doublings reach the cap, and no fewer. */
  lemma {:induction false} BackoffCaps(n: nat)
    ensures n >= 9 ==> Backoff(n) == MAX_ISOLATION
    ensures n < 9 ==> Backoff(n) == FIRST_ISOLATION * Pow2(n) < MAX_ISOLATION
  {
    assert Pow2(8) == 256 && Pow2(9) == 512;
    if n < 8 {
      Pow2Grows(n, 8);
    } else if n > 9 {
      Pow2Grows(9, n);
    }
    assert if n < 9 then Pow2(n) <= 256 else Pow2(n) >= 512;
    hide Pow2;
  }

  lemma SameBackoff(m: nat, n: nat)
    requires m <= n
    ensures Backoff(m) == Backoff(n) <==> m == n || m >= 9
  {
    hide Backoff;
    BackoffCaps(m);
    BackoffCaps(n);
    if m < n {
      Pow2Grows(m, n);
    }
  }

  /**
   * In every run an open breaker isolates for min(100 * 2^i, 30000) ms, where i counts the probes that failed since
   * it last tripped from CLOSED. That is the described time, doubled at every trip, if and only if it has tripped
   * from CLOSED only once or nine probes have failed since it did.
   */
  lemma {:induction false} DoublesOnEveryTripExactly(cfg: Config, ops: seq<Op>, start: int)
    requires Timely(ops) && Run(cfg, ops).state == Open
    ensures var b, n, failed := Run(cfg, ops), TripsOf(cfg, ops), ProbesOf(cfg, ops).granted;
            && n.all > 0 && b.lastIsolation == Backoff(failed)
            && (b.lastIsolation == Backoff(n.all - 1) <==> n.fromClosed == 1 || failed >= 9)
  {
    hide Run, ProbesOf, TripsOf, Backoff, Timely;
    RunKeepsPInv(cfg, ops, start);
    RunKeepsTInv(cfg, ops);
    SameBackoff(ProbesOf(cfg, ops).granted, TripsOf(cfg, ops).all - 1);
  }

  // ------------------------------------------------------------------ a run that disagrees

  const AT: int := FIRST_ISOLATION

  /** One failure out of one request is enough to trip. */
  const TOUCHY := Config(1, 0.5, 10 * SECOND)

  function OneError(t: int): (bs: seq<Bucket>) {
    [Bucket(t, 1, 1)]
  }

  lemma FailureIsRecorded(t: int, b: Breaker)
    requires b.state == Closed && b.buckets == []
    ensures Step(TOUCHY, b, Failure(t, t, t)) == b.(buckets := OneError(t))
  {
    assert Roll([], t, TOUCHY.window) == [Bucket(t, 0, 0)];
  }

  lemma OneErrorTrips(t: int, b: Breaker)
    requires b.state == Closed && b.buckets == OneError(t)
    ensures Step(TOUCHY, b, Allow(t, t)) == b.(state := Open, openedAt := t)
  {
    assert Roll(b.buckets, t, TOUCHY.window) == b.buckets;
    assert Requests(b.buckets[..0]) == 0 && Errors(b.buckets[..0]) == 0;
    assert Trips(TOUCHY, 1, 1);
  }

  lemma {:induction false} RunMore(cfg: Config, ops: seq<Op>, op: Op)
    ensures Run(cfg, ops + [op]) == Step(cfg, Run(cfg, ops), op)
    ensures TripsOf(cfg, ops + [op]) == Trip(Run(cfg, ops), Step(cfg, Run(cfg, ops), op), TripsOf(cfg, ops))
    ensures Timely(ops + [op]) <==> Timely(ops) && Ordered(op) && Clock(ops, op.t1) <= op.t1
  {
    hide Step, Trip;
    assert (ops + [op])[..|ops|] == ops;
  }

  const FAIL_AND_TRIP: seq<Op> := [] + [Failure(0, 0, 0)] + [Allow(0, 0)]
  const RECOVER: seq<Op> := FAIL_AND_TRIP + [Allow(AT, AT)] + [Success(AT, AT, AT)]
  const FAIL_AGAIN: seq<Op> := RECOVER + [Failure(AT, AT, AT)] + [Allow(AT, AT)]

  lemma {:induction false} FirstTrip()
    ensures Timely(FAIL_AND_TRIP) && Clock(FAIL_AND_TRIP, 0) == 0
    ensures Run(TOUCHY, FAIL_AND_TRIP) == Breaker(Open, OneError(0), 0, FIRST_ISOLATION)
    ensures TripsOf(TOUCHY, FAIL_AND_TRIP) == TripCount(1, 1)
  {
    NothingYet(TOUCHY);
    hide Run, TripsOf, Timely, Step, OneError;
    RunMore(TOUCHY, [], Failure(0, 0, 0));
    RunMore(TOUCHY, [] + [Failure(0, 0, 0)], Allow(0, 0));
    FailureIsRecorded(0, Fresh);
    OneErrorTrips(0, Fresh.(buckets := OneError(0)));
  }

  lemma {:induction false} NothingYet(cfg: Config)
    ensures Run(cfg, []) == Fresh && TripsOf(cfg, []) == TripCount(0, 0) && Timely([])
  {
  }

  lemma {:induction false} Recovery()
    ensures Timely(RECOVER) && Clock(RECOVER, 0) == AT
    ensures Run(TOUCHY, RECOVER) == Breaker(Closed, [], 0, FIRST_ISOLATION)
    ensures TripsOf(TOUCHY, RECOVER) == TripCount(1, 1)
  {
    FirstTrip();
    RunMore(TOUCHY, FAIL_AND_TRIP, Allow(AT, AT));
    RunMore(TOUCHY, FAIL_AND_TRIP + [Allow(AT, AT)], Success(AT, AT, AT));
    hide Roll, Run, TripsOf, Timely, Record;
  }

  /** A breaker that has recovered and trips again isolates for 100 ms, not for the described 200 ms. */
  lemma {:induction false} SecondTripDoesNotDouble()
    ensures Timely(FAIL_AGAIN) && Run(TOUCHY, FAIL_AGAIN).state == Open && TripsOf(TOUCHY, FAIL_AGAIN).all == 2
    ensures Run(TOUCHY, FAIL_AGAIN).lastIsolation == 100 * MS && Backoff(2 - 1) == 200 * MS
  {
    Recovery();
    RunMore(TOUCHY, RECOVER, Failure(AT, AT, AT));
    RunMore(TOUCHY, RECOVER + [Failure(AT, AT, AT)], Allow(AT, AT));
    FailureIsRecorded(AT, Run(TOUCHY, RECOVER));
    OneErrorTrips(AT, Run(TOUCHY, RECOVER).(buckets := OneError(AT)));
    hide Step, Run, TripsOf, Timely;
    BackoffDoubles(0);
  }
}
