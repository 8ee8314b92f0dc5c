// The per-instance circuit breaker (src/CircuitBreaker.cpp). Clock readings are parameters, in nanoseconds; an
// operation that reads the clock several times takes one parameter per reading.

module CircuitBreaker {
  import opened Time

  const FIRST_ISOLATION: int := 100 * MS
  const MAX_ISOLATION: int := 30000 * MS

  datatype State = Closed | Open | HalfOpen

  /** A slice of the sliding window. */
  datatype Bucket = Bucket(start: int, requests: nat, errors: nat)

  datatype Config = Config(minRequests: nat, threshold: real, window: int)

  datatype Breaker = Breaker(state: State, buckets: seq<Bucket>, openedAt: int, lastIsolation: int)

  const Fresh := Breaker(Closed, [], 0, FIRST_ISOLATION)

  // ------------------------------------------------------------------ specification

  /** How many buckets at the front have left the window. */
  function Expired(bs: seq<Bucket>, now: int, window: int): (k: nat)
    ensures k <= |bs|
    ensures forall i :: 0 <= i < k ==> now - bs[i].start >= window
    ensures k < |bs| ==> now - bs[k].start < window
  {
    if bs == [] || now - bs[0].start < window then 0 else 1 + Expired(bs[1..], now, window)
  }

  /** Whether a new one-second slice starts now. */
  predicate NeedsBucket(bs: seq<Bucket>, now: int) {
    bs == [] || now - bs[|bs| - 1].start >= SECOND
  }

  /** `rollWindowLocked`. */
  function Roll(bs: seq<Bucket>, now: int, window: int): (r: seq<Bucket>)
    ensures r != []
  {
    var kept := bs[Expired(bs, now, window)..];
    if NeedsBucket(kept, now) then kept + [Bucket(now, 0, 0)] else kept
  }

  function Count(bs: seq<Bucket>, error: bool): (r: seq<Bucket>)
    requires bs != []
    ensures |r| == |bs|
  {
    var b := bs[|bs| - 1];
    bs[|bs| - 1 := Bucket(b.start, b.requests + 1, if error then b.errors + 1 else b.errors)]
  }

  /** Whether `record`, reading the clock again, finds its slice already outside the window. */
  predicate Overdue(bs: seq<Bucket>, now: int, window: int) {
    bs == [] || now - bs[|bs| - 1].start >= window
  }

  /** `record`, with its own two clock readings. */
  function Record(bs: seq<Bucket>, error: bool, t2: int, t3: int, window: int): (r: seq<Bucket>) {
    if Overdue(bs, t2, window) then Count(Roll(bs, t3, window), error) else Count(bs, error)
  }

  function Requests(bs: seq<Bucket>): (n: nat) {
    if bs == [] then 0 else Requests(bs[..|bs| - 1]) + bs[|bs| - 1].requests
  }

  function Errors(bs: seq<Bucket>): (n: nat) {
    if bs == [] then 0 else Errors(bs[..|bs| - 1]) + bs[|bs| - 1].errors
  }

  /** The trip condition; 0/0 never exceeds the threshold. */
  predicate Trips(cfg: Config, total: nat, errors: nat) {
    total >= cfg.minRequests && total > 0 && errors as real / total as real > cfg.threshold
  }

  /** `allowRequest`: the new state and whether the request may go. */
  function AllowStep(cfg: Config, b: Breaker, t1: int, t2: int): (r: (Breaker, bool)) {
    var b1 := b.(buckets := Roll(b.buckets, t1, cfg.window));
    match b.state
    case Closed =>
      if Trips(cfg, Requests(b1.buckets), Errors(b1.buckets))
      then (b1.(state := Open, openedAt := t2), true) else (b1, true)
    case Open =>
      if t2 - b.openedAt >= b.lastIsolation then (b1.(state := HalfOpen), true) else (b1, false)
    case HalfOpen => (b1, false)
  }

  function SuccessStep(cfg: Config, b: Breaker, t1: int, t2: int, t3: int): (b': Breaker) {
    if b.state == HalfOpen then
      b.(state := Closed, buckets := [], lastIsolation := FIRST_ISOLATION)
    else
      b.(buckets := Record(Roll(b.buckets, t1, cfg.window), false, t2, t3, cfg.window))
  }

  /** `isAvailable`. */
  predicate Available(b: Breaker, t: int) {
    b.state != Open || t - b.openedAt >= b.lastIsolation
  }

  function Doubled(isolation: int): (d: int) {
    if 2 * isolation <= MAX_ISOLATION then 2 * isolation else MAX_ISOLATION
  }

  function ErrorStep(cfg: Config, b: Breaker, t1: int, t2: int, t3: int): (b': Breaker) {
    var bs := Roll(b.buckets, t1, cfg.window);
    if b.state == HalfOpen then
      b.(state := Open, buckets := bs, openedAt := t2, lastIsolation := Doubled(b.lastIsolation))
    else
      b.(buckets := Record(bs, true, t2, t3, cfg.window))
  }

  // ------------------------------------------------------------------ the code

  class Circuit {
    const cfg: Config
    var state: State
    var buckets: seq<Bucket>
    var openedAt: int
    var lastIsolation: int

    ghost function View(): (b: Breaker)
      reads this
    {
      Breaker(state, buckets, openedAt, lastIsolation)
    }

    constructor (minRequests: nat := 5, threshold: real := 0.5, window: int := 10 * SECOND)
      ensures cfg == Config(minRequests, threshold, window) && View() == Fresh
    {
      cfg := Config(minRequests, threshold, window);
      state, buckets, openedAt, lastIsolation := Closed, [], 0, FIRST_ISOLATION;
    }

    method RollWindow(now: int)
      modifies this`buckets
      ensures buckets == Roll(old(buckets), now, cfg.window)
    {
      ghost var k := 0;
      while buckets != [] && now - buckets[0].start >= cfg.window
        invariant k <= |old(buckets)| && buckets == old(buckets)[k..]
        invariant k + Expired(buckets, now, cfg.window) == Expired(old(buckets), now, cfg.window)
        decreases |buckets|
      {
        buckets := buckets[1..];
        k := k + 1;
      }
      if buckets == [] || now - buckets[|buckets| - 1].start >= SECOND {
        buckets := buckets + [Bucket(now, 0, 0)];
      }
    }

    method RecordOutcome(error: bool, t2: int, t3: int)
      modifies this`buckets
      ensures buckets == Record(old(buckets), error, t2, t3, cfg.window)
    {
      if buckets == [] || t2 - buckets[|buckets| - 1].start >= cfg.window {
        RollWindow(t3);
      }
      var b := buckets[|buckets| - 1];
      b := b.(requests := b.requests + 1);
      if error {
        b := b.(errors := b.errors + 1);
      }
      buckets := buckets[|buckets| - 1 := b];
    }

    method Tally() returns (total: nat, errors: nat)
      ensures total == Requests(buckets) && errors == Errors(buckets)
    {
      total, errors := 0, 0;
      for i := 0 to |buckets|
        invariant total == Requests(buckets[..i]) && errors == Errors(buckets[..i])
      {
        assert buckets[..i + 1][..i] == buckets[..i];
        total := total + buckets[i].requests;
        errors := errors + buckets[i].errors;
      }
      assert buckets[..|buckets|] == buckets;
    }

    method AllowRequest(t1: int, t2: int) returns (admitted: bool)
      modifies this
      ensures (View(), admitted) == AllowStep(cfg, old(View()), t1, t2)
    {
      RollWindow(t1);
      match state
      case Closed =>
        var total, errors := Tally();
        if total >= cfg.minRequests && total > 0 && errors as real / total as real > cfg.threshold {
          state := Open;
          openedAt := t2;
        }
        return true;
      case Open =>
        if t2 - openedAt >= lastIsolation {
          state := HalfOpen;
          return true;
        }
        return false;
      case HalfOpen =>
        return false;
    }

    method IsAvailable(t: int) returns (r: bool)
      ensures r == Available(View(), t)
    {
      if state == Closed || state == HalfOpen {
        return true;
      }
      return t - openedAt >= lastIsolation;
    }

    method OnSuccess(t1: int, t2: int, t3: int)
      modifies this
      ensures View() == SuccessStep(cfg, old(View()), t1, t2, t3)
    {
      RollWindow(t1);
      if state == HalfOpen {
        state, buckets, lastIsolation := Closed, [], FIRST_ISOLATION;
        return;
      }
      RecordOutcome(false, t2, t3);
    }

    method OnError(t1: int, t2: int, t3: int)
      modifies this
      ensures View() == ErrorStep(cfg, old(View()), t1, t2, t3)
    {
      RollWindow(t1);
      if state == HalfOpen {
        state, openedAt, lastIsolation := Open, t2, Doubled(lastIsolation);
        return;
      }
      RecordOutcome(true, t2, t3);
    }
  }
}
