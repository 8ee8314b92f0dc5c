// Retries and hedging of one cluster call (src/RpcClusterChannel.cpp, include/RetryPolicy.h).

module ClusterCall {
  // One call of `RpcClusterChannel::callAsync` with everything it may set in motion.

  import opened Protocol
  import opened RetryPolicy

  datatype Options = Options(maxAttempts: nat, hedgeAfterMs: nat, idempotent: bool)

  /**
   * A strand of the call: an attempt about to choose an instance (`mayHedge` for the caller's first one), a
   * request on some channel, an attempt that has ended, a retry waiting out its backoff, the hedge timer, or
   * a strand about to call the shared `done`.
   */
  datatype Strand =
    | Attempting(n: nat, mayHedge: bool)
    | OnChannel(n: nat)
    | Ended(n: nat, success: bool)
    | BackingOff(n: nat)
    | HedgeTimer
    | Finishing

  /** `doneRuns` counts the caller's callback, `sends` requests put on a channel, `retries` tokens spent. */
  datatype Call = Call(
    strands: seq<Strand>, completed: bool, doneRuns: nat, attempts: nat, sends: nat, retries: nat, hedges: nat)

  const Start := Call([Attempting(1, true)], false, 0, 0, 0, 0, 0)

  /**
   * What happens to strand `i`. Statuses are read off the shared controller, which a competing strand may have
   * overwritten, so `MaybeRetry` carries whatever status the strand happened to read.
   */
  datatype Event =
    | Attempt(i: nat, sent: bool, arm: bool)
    | ChannelDone(i: nat, success: bool)
    | MaybeRetry(i: nat, status: Status, token: bool)
    | Wake(i: nat)
    | TimerFires(i: nat)
    | CallDone(i: nat)

  predicate Hedges(o: Options) {
    o.hedgeAfterMs > 0 && o.idempotent
  }

  /** The hedge timer is only ever armed by the caller's first attempt of an idempotent call. */
  predicate MayArm(o: Options, s: Strand) {
    s.Attempting? && s.mayHedge && s.n == 1 && Hedges(o)
  }

  predicate Retries(o: Options, s: Strand, e: Event)
    requires s.Ended? && e.MaybeRetry?
  {
    !s.success && ShouldRetry(e.status, o.idempotent, s.n, o.maxAttempts) && e.token
  }

  predicate Enabled(o: Options, c: Call, e: Event) {
    e.i < |c.strands| &&
    match e
    case Attempt(i, _, arm) => c.strands[i].Attempting? && (arm ==> MayArm(o, c.strands[i]))
    case ChannelDone(i, _) => c.strands[i].OnChannel?
    case MaybeRetry(i, _, _) => c.strands[i].Ended?
    case Wake(i) => c.strands[i].BackingOff?
    case TimerFires(i) => c.strands[i].HedgeTimer?
    case CallDone(i) => c.strands[i].Finishing?
  }

  /** What the strand turns into: nothing, one strand, or one and the hedge timer. */
  function Into(o: Options, c: Call, e: Event): (r: seq<Strand>)
    requires Enabled(o, c, e)
  {
    var s := c.strands[e.i];
    match e
    case Attempt(_, sent, arm) =>
      var next := if sent then OnChannel(s.n) else Ended(s.n, false);
      if arm then [next, HedgeTimer] else [next]
    case ChannelDone(_, success) => [Ended(s.n, success)]
    case MaybeRetry(_, _, _) => if Retries(o, s, e) then [BackingOff(s.n)] else [Finishing]
    case Wake(_) => [Attempting(s.n + 1, false)]
    case TimerFires(_) => if c.completed then [] else [Attempting(1, false)]
    case CallDone(_) => []
  }

  function Becomes(ss: seq<Strand>, i: nat, into: seq<Strand>): (r: seq<Strand>)
    requires i < |ss|
  {
    ss[..i] + into + ss[i + 1..]
  }

  function Step(o: Options, c: Call, e: Event): (c': Call)
    requires Enabled(o, c, e)
  {
    var d := c.(strands := Becomes(c.strands, e.i, Into(o, c, e)));
    match e
    case Attempt(_, sent, _) => d.(attempts := c.attempts + 1, sends := if sent then c.sends + 1 else c.sends)
    case ChannelDone(_, _) => d
    case MaybeRetry(i, _, _) => if Retries(o, c.strands[i], e) then d.(retries := c.retries + 1) else d
    case Wake(_) => d
    case TimerFires(_) => if c.completed then d else d.(hedges := c.hedges + 1)
    case CallDone(_) =>
      d.(completed := true, doneRuns := if c.completed then c.doneRuns else c.doneRuns + 1)
  }

  predicate Possible(o: Options, c: Call, es: seq<Event>)
    decreases |es|
  {
    es == [] || (Enabled(o, c, es[0]) && Possible(o, Step(o, c, es[0]), es[1..]))
  }

  function Run(o: Options, c: Call, es: seq<Event>): (c': Call)
    requires Possible(o, c, es)
    decreases |es|
  {
    if es == [] then c else Run(o, Step(o, c, es[0]), es[1..])
  }

  // ------------------------------------------------------------------ what a strand may still do

  /** The most attempts one chain of retries can make. */
  function Limit(o: Options): (l: nat)
    ensures l >= 1
  {
    if o.idempotent && o.maxAttempts > 1 then o.maxAttempts else 1
  }

  /** The most attempts the whole call can make. */
  function Bound(o: Options): (b: nat) {
    if Hedges(o) then 2 * Limit(o) else Limit(o)
  }

  /** Attempts, steps, attempts already owed, and hedges a strand still has in it. */
  datatype Measure = Ahead | Weight | Owed | Hedge

  function Of(m: Measure, o: Options, s: Strand): (n: int) {
    match m
    case Ahead =>
      (match s
       case Attempting(n, mayHedge) => Limit(o) - n + 1 + if mayHedge && Hedges(o) then Limit(o) else 0
       case OnChannel(n) => Limit(o) - n
       case Ended(n, _) => Limit(o) - n
       case BackingOff(n) => Limit(o) - n
       case HedgeTimer => Limit(o)
       case Finishing => 0)
    case Weight =>
      (match s
       case Attempting(n, mayHedge) => 4 * (Limit(o) - n) + 4 + if mayHedge then 4 * Limit(o) + 1 else 0
       case OnChannel(n) => 4 * (Limit(o) - n) + 3
       case Ended(n, _) => 4 * (Limit(o) - n) + 2
       case BackingOff(n) => 4 * (Limit(o) - n) + 1
       case HedgeTimer => 4 * Limit(o) + 1
       case Finishing => 1)
    case Owed => if s.Attempting? || s.BackingOff? then 1 else 0
    case Hedge => if s.HedgeTimer? || (s.Attempting? && s.mayHedge) then 1 else 0
  }

  function Total(m: Measure, o: Options, ss: seq<Strand>): (t: int) {
    if ss == [] then 0 else Of(m, o, ss[0]) + Total(m, o, ss[1..])
  }

  lemma {:induction false} TotalConcat(m: Measure, o: Options, a: seq<Strand>, b: seq<Strand>)
    ensures Total(m, o, a + b) == Total(m, o, a) + Total(m, o, b)
  {
    hide Of;
    if a == [] {
      assert a + b == b;
    } else {
      TotalConcat(m, o, a[1..], b);
      assert (a + b)[1..] == a[1..] + b;
    }
  }

  lemma {:induction false} TotalBecomes(m: Measure, o: Options, ss: seq<Strand>, i: nat, into: seq<Strand>)
    requires i < |ss|
    ensures Total(m, o, Becomes(ss, i, into)) == Total(m, o, ss) - Of(m, o, ss[i]) + Total(m, o, into)
  {
    hide Of;
    TotalConcat(m, o, ss[..i] + into, ss[i + 1..]);
    TotalConcat(m, o, ss[..i], into);
    TotalConcat(m, o, ss[..i], ss[i..]);
    assert ss == ss[..i] + ss[i..];
    assert ss[i..][1..] == ss[i + 1..];
  }

  lemma {:induction false} TotalShort(m: Measure, o: Options, ss: seq<Strand>)
    requires |ss| <= 2
    ensures Total(m, o, ss) == (if |ss| > 0 then Of(m, o, ss[0]) else 0) + (if |ss| > 1 then Of(m, o, ss[1]) else 0)
  {
    hide Of;
    if |ss| > 0 {
      var t := ss[1..];
      assert t == if |ss| == 1 then [] else [ss[1]];
      assert |t| == 1 ==> t[1..] == [] && Total(m, o, t) == Of(m, o, t[0]) + Total(m, o, t[1..]);
    }
  }

  // ------------------------------------------------------------------ the invariant

  predicate Sound(o: Options, s: Strand) {
    match s
    case Attempting(n, mayHedge) => 1 <= n <= Limit(o) && (mayHedge ==> n == 1)
    case OnChannel(n) => 1 <= n <= Limit(o)
    case Ended(n, _) => 1 <= n <= Limit(o)
    case BackingOff(n) => 1 <= n < Limit(o)
    case HedgeTimer => Hedges(o)
    case Finishing => true
  }

  ghost predicate AllSound(o: Options, ss: seq<Strand>) {
    forall i :: 0 <= i < |ss| ==> Sound(o, ss[i])
  }

  /** Some strand other than the timer is still on its way to `done`. */
  ghost predicate Live(ss: seq<Strand>) {
    exists i :: 0 <= i < |ss| && !ss[i].HedgeTimer?
  }

  ghost predicate Inv(o: Options, c: Call) {
    && AllSound(o, c.strands)
    && (c.completed || Live(c.strands))
    && c.doneRuns == (if c.completed then 1 else 0)
    && c.sends <= c.attempts
    && c.attempts + Total(Ahead, o, c.strands) <= Bound(o)
    && c.attempts + Total(Owed, o, c.strands) == 1 + c.retries + c.hedges
    && c.hedges + Total(Hedge, o, c.strands) <= 1
  }

  lemma StepKeepsSound(o: Options, c: Call, e: Event)
    requires AllSound(o, c.strands) && Enabled(o, c, e)
    ensures AllSound(o, Step(o, c, e).strands) && AllSound(o, Into(o, c, e))
  {
    assert Sound(o, c.strands[e.i]);
    assert AllSound(o, Into(o, c, e));
    hide Into, Sound;
  }

  lemma StepKeepsLive(o: Options, c: Call, e: Event)
    requires c.completed || Live(c.strands)
    requires Enabled(o, c, e)
    ensures var c' := Step(o, c, e); c'.completed || Live(c'.strands)
  {
    var into := Into(o, c, e);
    var c' := Step(o, c, e);
    if !c'.completed {
      assert into != [] && !into[0].HedgeTimer?;
      assert c'.strands[e.i] == into[0];
    }
  }

  /** What one step does to each measure of the strand it moves. */
  lemma {:induction false} StrandMeasures(o: Options, c: Call, e: Event)
    requires Enabled(o, c, e) && Sound(o, c.strands[e.i])
    ensures var s, into, c' := c.strands[e.i], Into(o, c, e), Step(o, c, e);
            && c'.attempts - c.attempts + Total(Ahead, o, into) <= Of(Ahead, o, s)
            && Total(Weight, o, into) < Of(Weight, o, s)
            && c'.attempts - c.attempts + Total(Owed, o, into) - Of(Owed, o, s)
                 == c'.retries - c.retries + c'.hedges - c.hedges
            && c'.hedges - c.hedges + Total(Hedge, o, into) <= Of(Hedge, o, s)
  {
    forall m: Measure {
      TotalShort(m, o, Into(o, c, e));
    }
    hide Total;
  }

  lemma {:induction false} StepKeepsInv(o: Options, c: Call, e: Event)
    requires Inv(o, c) && Enabled(o, c, e)
    ensures Inv(o, Step(o, c, e))
    ensures Total(Weight, o, Step(o, c, e).strands) < Total(Weight, o, c.strands)
  {
    StepKeepsSound(o, c, e);
    StepKeepsLive(o, c, e);
    assert Sound(o, c.strands[e.i]);
    StrandMeasures(o, c, e);
    forall m: Measure {
      TotalBecomes(m, o, c.strands, e.i, Into(o, c, e));
    }
    hide Becomes, Into, Of, Total, Sound, Live;
  }

  lemma {:induction false} TotalsNonNegative(m: Measure, o: Options, ss: seq<Strand>)
    requires AllSound(o, ss)
    ensures Total(m, o, ss) >= 0
  {
    if ss != [] {
      assert Sound(o, ss[0]);
      TotalsNonNegative(m, o, ss[1..]);
    }
  }

  // ------------------------------------------------------------------ whole calls

  lemma {:induction false} RunKeepsInv(o: Options, c: Call, es: seq<Event>)
    requires Inv(o, c) && Possible(o, c, es)
    ensures Inv(o, Run(o, c, es))
    ensures |es| + Total(Weight, o, Run(o, c, es).strands) <= Total(Weight, o, c.strands)
    decreases |es|
  {
    if es != [] {
      StepKeepsInv(o, c, es[0]);
      RunKeepsInv(o, Step(o, c, es[0]), es[1..]);
    }
  }

  lemma {:induction false} StartInv(o: Options)
    ensures Inv(o, Start) && Total(Weight, o, Start.strands) == 8 * Limit(o) + 1
  {
    assert Start.strands[0] == Attempting(1, true);
  }

  /**
   * Every run of a call is finite, of at most `8 * Limit + 1` steps; it makes at most `Bound` attempts, one if
   * the method is not idempotent; and it calls `done` at most once, exactly once when it has come to rest.
   */
  lemma {:induction false} CallCompletesOnce(o: Options, es: seq<Event>)
    requires Possible(o, Start, es)
    ensures |es| <= 8 * Limit(o) + 1
    ensures var c := Run(o, Start, es);
            && c.doneRuns <= 1
            && (c.strands == [] ==> c.doneRuns == 1)
            && c.sends <= c.attempts <= Bound(o)
            && (!o.idempotent ==> c.attempts <= 1)
  {
    StartInv(o);
    RunKeepsInv(o, Start, es);
    var c := Run(o, Start, es);
    TotalsNonNegative(Weight, o, c.strands);
    TotalsNonNegative(Ahead, o, c.strands);
  }

  /** Every attempt after the first was paid for by a retry token or is the single hedge. */
  lemma {:induction false} AttemptsPaidFor(o: Options, es: seq<Event>)
    requires Possible(o, Start, es)
    ensures var c := Run(o, Start, es);
            && c.attempts <= 1 + c.retries + c.hedges && c.hedges <= 1
            && (c.strands == [] ==> c.attempts == 1 + c.retries + c.hedges)
  {
    StartInv(o);
    RunKeepsInv(o, Start, es);
    var c := Run(o, Start, es);
    TotalsNonNegative(Owed, o, c.strands);
    TotalsNonNegative(Hedge, o, c.strands);
  }

  /** A call that has not come to rest can always move, so a run that stops has called `done`. */
  lemma NeverStuck(o: Options, c: Call)
    ensures c.strands != [] <==> exists e :: Enabled(o, c, e)
  {
    if c.strands != [] {
      var e := match c.strands[0]
        case Attempting(_, _) => Attempt(0, true, false)
        case OnChannel(_) => ChannelDone(0, true)
        case Ended(_, _) => MaybeRetry(0, StatusOk, false)
        case BackingOff(_) => Wake(0)
        case HedgeTimer => TimerFires(0)
        case Finishing => CallDone(0);
      assert Enabled(o, c, e);
    }
  }
}
