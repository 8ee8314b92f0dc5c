// Request handling and overload protection (src/RpcServer.cpp, include/ConcurrencyLimiter.h).

module Server {
  // Requests run side by side; each step below is one atomic access or one local decision.

  import opened Bytes
  import opened Protocol

  /**
   * How far a request has come. `Queued` is waiting for the executor, `Begun` is running and has its trace id;
   * `Acquiring` is inside the limiter's compare-and-swap loop with the value it
   * last saw; from `Leaving` on, the status to answer with is fixed and `alive` says whether the connection
   * is still there to answer on.
   */
  datatype Phase =
    | Queued
    | Begun
    | Acquiring(seen: nat)
    | Admitted
    | Counted
    | Handling
    | Leaving(status: Status, alive: bool)
    | Uncounting(status: Status, alive: bool)
    | Replying(status: Status, alive: bool)
    | Over(status: Status, alive: bool)
    | Acknowledged
    | Ignored

  /**
   * `trace` is the trace id of its context, 0 until it has begun; `admits` and `releases` count the times the request
   * got past the limiter and ran `releaseSlot`.
   */
  datatype Request = Request(
    header: Header, phase: Phase, trace: uint64, admits: nat, releases: nat, replies: seq<Header>)

  /** `current` is the limiter's `size_t`; a server without a limiter has none. */
  datatype State = State(limiter: Option<nat>, current: nat, inflight: int, requests: seq<Request>)

  function Fresh(limiter: Option<nat>): (s: State) {
    State(limiter, 0, 0, [])
  }

  datatype Event =
    | Arrive(header: Header)
    | TurnAway(i: nat)
    | Begin(i: nat, minted: uint64)
    | Load(i: nat)
    | Swap(i: nat, spurious: bool)
    | Refuse(i: nat)
    | CountIn(i: nat)
    | Reject(i: nat, status: Status)
    | Dispatch(i: nat)
    | Done(i: nat, status: Status, latencyMs: nat, alive: bool)
    | Release(i: nat)
    | CountOut(i: nat)
    | Reply(i: nat)

  /** A limiter of 0 lets everything through. */
  predicate Limited(s: State) {
    s.limiter.Some? && s.limiter.value > 0
  }

  predicate MaySwap(s: State, p: Phase) {
    Limited(s) && p.Acquiring? && p.seen < s.limiter.value
  }

  predicate Enabled(s: State, e: Event) {
    e.Arrive? ||
    (e.i < |s.requests| &&
     var p := s.requests[e.i].phase;
     match e
     case TurnAway(_) => p.Queued? || p.Begun?
     case Begin(_, _) => p.Queued?
     case Load(_) => p.Begun?
     case Swap(_, _) => MaySwap(s, p)
     case Refuse(_) => p.Acquiring? && !MaySwap(s, p)
     case CountIn(_) => p.Admitted?
     case Reject(_, status) => p.Counted? && (status.SerializationError? || status.MethodNotFound?)
     case Dispatch(_) => p.Counted?
     case Done(_, _, _, _) => p.Handling?
     case Release(_) => p.Leaving?
     case CountOut(_) => p.Uncounting?
     case Reply(_) => p.Replying?)
  }

  /** Heartbeats are answered where they arrive and unexpected frame types are dropped. */
  function Arrived(h: Header): (r: Request) {
    if h.msgType == MSG_HEARTBEAT then Request(h, Acknowledged, 0, 0, 0, [h.(msgType := MSG_HEARTBEAT_ACK)])
    else if h.msgType == MSG_REQUEST || h.msgType == MSG_ONEWAY then Request(h, Queued, 0, 0, 0, [])
    else Request(h, Ignored, 0, 0, 0, [])
  }

  /** A handler slower than the caller's timeout has its status overruled. */
  function FinalStatus(h: Header, status: Status, latencyMs: nat): (r: Status) {
    if h.timeoutMs > 0 && latencyMs >= h.timeoutMs then DeadlineExceeded else status
  }

  function Code(status: Status): (c: uint16) {
    match status
    case StatusOk => 0
    case InvalidArgument => 1
    case MethodNotFound => 2
    case SerializationError => 3
    case InternalError => 4
    case DeadlineExceeded => 5
    case RequestTooLarge => 6
    case Unknown => 7
    case ShuttingDown => 8
    case ConcurrencyLimited => 9
  }

  predicate Answers(r: Request, alive: bool) {
    r.header.msgType != MSG_ONEWAY && alive
  }

  /** `size_t` arithmetic. */
  function Wrap(n: int): (r: nat) {
    n % TWO64
  }

  predicate Swaps(s: State, e: Event)
    requires Enabled(s, e)
  {
    e.Swap? && s.requests[e.i].phase.seen == s.current && !e.spurious
  }

  /** What a step does to the request it concerns. */
  function Moved(s: State, e: Event): (r: Request)
    requires Enabled(s, e) && !e.Arrive?
  {
    var r := s.requests[e.i];
    match e
    case TurnAway(_) => r.(phase := Replying(ShuttingDown, true))
    case Begin(_, minted) => r.(phase := Begun, trace := if r.header.traceId != 0 then r.header.traceId else minted)
    case Load(_) =>
      if Limited(s) then r.(phase := Acquiring(s.current)) else r.(phase := Admitted, admits := r.admits + 1)
    case Swap(_, _) =>
      if Swaps(s, e) then r.(phase := Admitted, admits := r.admits + 1)
      else r.(phase := Acquiring(s.current))
    case Refuse(_) => r.(phase := Replying(ConcurrencyLimited, true))
    case CountIn(_) => r.(phase := Counted)
    case Reject(_, status) => r.(phase := Leaving(status, true))
    case Dispatch(_) => r.(phase := Handling)
    case Done(_, status, latencyMs, alive) =>
      r.(phase := Leaving(FinalStatus(r.header, status, latencyMs), alive))
    case Release(_) => r.(phase := Uncounting(r.phase.status, r.phase.alive), releases := r.releases + 1)
    case CountOut(_) => r.(phase := Replying(r.phase.status, r.phase.alive))
    case Reply(_) =>
      var reply := r.header.(msgType := MSG_RESPONSE, status := Code(r.phase.status), traceId := r.trace);
      r.(phase := Over(r.phase.status, r.phase.alive),
         replies := if Answers(r, r.phase.alive) then r.replies + [reply] else r.replies)
  }

  /** The limiter's counter: a successful swap adds one, and `release` subtracts one whatever the maximum is. */
  function Counter(s: State, e: Event): (n: nat)
    requires Enabled(s, e)
  {
    match e
    case Swap(_, _) => if Swaps(s, e) then s.current + 1 else s.current
    case Release(_) => if s.limiter.None? then s.current else Wrap(s.current - 1)
    case _ => s.current
  }

  function Step(s: State, e: Event): (s': State)
    requires Enabled(s, e)
  {
    if e.Arrive? then s.(requests := s.requests + [Arrived(e.header)])
    else s.(requests := s.requests[e.i := Moved(s, e)],
            current := Counter(s, e),
            inflight := if e.CountIn? then s.inflight + 1 else if e.CountOut? then s.inflight - 1 else s.inflight)
  }

  predicate Possible(s: State, es: seq<Event>)
    decreases |es|
  {
    es == [] || (Enabled(s, es[0]) && Possible(Step(s, es[0]), es[1..]))
  }

  function Run(s: State, es: seq<Event>): (s': State)
    requires Possible(s, es)
    decreases |es|
  {
    if es == [] then s else Run(Step(s, es[0]), es[1..])
  }

  // ------------------------------------------------------------------ each request by itself

  predicate Holds(r: Request) {
    r.phase.Admitted? || r.phase.Counted? || r.phase.Handling? || r.phase.Leaving?
  }

  predicate IsCounted(r: Request) {
    r.phase.Counted? || r.phase.Handling? || r.phase.Leaving? || r.phase.Uncounting?
  }

  /** The reply repeats the request's header but for type, status and trace id. */
  predicate Echoes(reply: Header, h: Header, status: Status, trace: uint64) {
    reply == h.(msgType := MSG_RESPONSE, status := Code(status), traceId := trace)
  }

  predicate Proper(r: Request) {
    && (match r.phase
        case Queued => r.admits == 0 && r.releases == 0
        case Begun => r.admits == 0 && r.releases == 0
        case Acquiring(_) => r.admits == 0 && r.releases == 0
        case Uncounting(_, _) => r.admits == 1 && r.releases == 1
        case Replying(_, _) => r.admits == r.releases <= 1
        case Over(_, _) => r.admits == r.releases <= 1
        case Acknowledged => r.admits == 0 && r.releases == 0
        case Ignored => r.admits == 0 && r.releases == 0
        case _ => r.admits == 1 && r.releases == 0)
    && (match r.phase
        case Over(status, alive) =>
          if Answers(r, alive) then |r.replies| == 1 && Echoes(r.replies[0], r.header, status, r.trace)
          else r.replies == []
        case Acknowledged => r.replies == [r.header.(msgType := MSG_HEARTBEAT_ACK)]
        case _ => r.replies == [])
  }

  ghost predicate AllProper(rs: seq<Request>) {
    forall i :: 0 <= i < |rs| ==> Proper(rs[i])
  }

  lemma StepKeepsProper(s: State, e: Event)
    requires AllProper(s.requests) && Enabled(s, e)
    ensures AllProper(Step(s, e).requests)
  {
    if e.Arrive? {
      assert Proper(Arrived(e.header));
    } else {
      assert Proper(s.requests[e.i]);
      assert Proper(Moved(s, e));
    }
    hide Proper, Moved, Arrived;
  }

  lemma {:induction false} RunKeepsProper(s: State, es: seq<Event>)
    requires AllProper(s.requests) && Possible(s, es)
    ensures AllProper(Run(s, es).requests)
    decreases |es|
  {
    hide AllProper;
    if es != [] {
      StepKeepsProper(s, es[0]);
      RunKeepsProper(Step(s, es[0]), es[1..]);
    }
  }

  /**
   * On every path a request that was let in releases its slot exactly once and one that was not never does;
   * a finished request was answered exactly once, with its own ids, unless it was one-way or its connection
   * had gone.
   */
  lemma {:induction false} SettledOnce(limiter: Option<nat>, es: seq<Event>, i: nat)
    requires Possible(Fresh(limiter), es)
    requires i < |Run(Fresh(limiter), es).requests|
    ensures var r := Run(Fresh(limiter), es).requests[i];
            && r.releases <= r.admits <= 1 && |r.replies| <= 1
            && (r.header.msgType == MSG_ONEWAY ==> r.replies == [])
            && (r.phase.Over? ==> r.releases == r.admits)
            && (r.phase.Over? && Answers(r, r.phase.alive) ==>
                  r.replies != [] && Echoes(r.replies[0], r.header, r.phase.status, r.trace))
  {
    RunKeepsProper(Fresh(limiter), es);
    RunKeepsTypes(Fresh(limiter), es);
    assert Proper(Run(Fresh(limiter), es).requests[i]);
    assert Typed(Run(Fresh(limiter), es).requests[i]);
  }

  /** Only requests and one-way calls are handled; heartbeats are acknowledged and other frames ignored. */
  predicate Typed(r: Request) {
    && (r.phase.Acknowledged? <==> r.header.msgType == 3)
    && (r.phase.Ignored? <==> r.header.msgType !in {0, 2, 3})
  }

  lemma {:induction false} RunKeepsTypes(s: State, es: seq<Event>)
    requires Possible(s, es)
    requires forall i :: 0 <= i < |s.requests| ==> Typed(s.requests[i])
    ensures forall i :: 0 <= i < |Run(s, es).requests| ==> Typed(Run(s, es).requests[i])
    decreases |es|
  {
    if es != [] {
      RunKeepsTypes(Step(s, es[0]), es[1..]);
    }
  }

  // ------------------------------------------------------------------ the counters

  datatype Measure = Slots | InFlight | Returned

  function Of(m: Measure, r: Request): (n: nat) {
    match m
    case Slots => if Holds(r) then 1 else 0
    case InFlight => if IsCounted(r) then 1 else 0
    case Returned => r.releases
  }

  function Total(m: Measure, rs: seq<Request>): (n: nat) {
    if rs == [] then 0 else Total(m, rs[..|rs| - 1]) + Of(m, rs[|rs| - 1])
  }

  lemma {:induction false} TotalUpdate(m: Measure, rs: seq<Request>, i: nat, r: Request)
    requires i < |rs|
    ensures Total(m, rs[i := r]) == Total(m, rs) - Of(m, rs[i]) + Of(m, r)
  {
    hide Of;
    var last := |rs| - 1;
    if i == last {
      assert rs[i := r][..last] == rs[..last];
    } else {
      TotalUpdate(m, rs[..last], i, r);
      assert rs[i := r][..last] == rs[..last][i := r];
    }
  }

  lemma {:induction false} TotalStep(m: Measure, s: State, e: Event)
    requires Enabled(s, e)
    ensures e.Arrive? ==> Total(m, Step(s, e).requests) == Total(m, s.requests)
    ensures !e.Arrive? ==>
              Total(m, Step(s, e).requests) == Total(m, s.requests) - Of(m, s.requests[e.i]) + Of(m, Moved(s, e))
  {
    hide Moved;
    if e.Arrive? {
      var rs := s.requests + [Arrived(e.header)];
      assert rs[..|rs| - 1] == s.requests;
    } else {
      TotalUpdate(m, s.requests, e.i, Moved(s, e));
    }
  }

  /** Both counters count exactly the requests between their increments and decrements. */
  ghost predicate Counts(s: State) {
    && s.inflight == Total(InFlight, s.requests)
    && (Limited(s) ==> s.current == Total(Slots, s.requests) <= s.limiter.value)
    && (s.limiter.None? ==> s.current == 0)
    && (s.limiter == Some(0) ==> s.current == Wrap(0 - Total(Returned, s.requests)))
  }

  /** What a step does to the measures of the request it concerns. */
  lemma RequestMeasures(s: State, e: Event)
    requires Enabled(s, e) && !e.Arrive?
    ensures var r, r' := s.requests[e.i], Moved(s, e);
            && (Limited(s) ==>
                  Of(Slots, r') == Of(Slots, r) + (if Swaps(s, e) then 1 else if e.Release? then -1 else 0))
            && Of(InFlight, r') == Of(InFlight, r) + (if e.CountIn? then 1 else if e.CountOut? then -1 else 0)
            && Of(Returned, r') == Of(Returned, r) + (if e.Release? then 1 else 0)
            && (e.Release? ==> Of(Slots, r) == 1)
  {
  }

  lemma {:induction false} TotalCovers(m: Measure, rs: seq<Request>, i: nat)
    requires i < |rs|
    ensures Total(m, rs) >= Of(m, rs[i])
  {
    hide Of;
    if i < |rs| - 1 {
      TotalCovers(m, rs[..|rs| - 1], i);
    }
  }

  lemma StepKeepsCounts(s: State, e: Event)
    requires Counts(s) && Enabled(s, e)
    requires s.limiter.Some? ==> s.limiter.value < TWO64
    ensures Counts(Step(s, e)) && Step(s, e).limiter == s.limiter
  {
    hide Total, Of, Moved, Arrived, Wrap, Counter, Enabled, Swaps;
    TotalStep(Slots, s, e);
    TotalStep(InFlight, s, e);
    TotalStep(Returned, s, e);
    if !e.Arrive? {
      RequestMeasures(s, e);
      CounterKept(s, e);
    }
  }

  /** The counter moves with the slots held and, when unlimited, against the releases. */
  lemma CounterKept(s: State, e: Event)
    requires Counts(s) && Enabled(s, e) && !e.Arrive?
    requires s.limiter.Some? ==> s.limiter.value < TWO64
    ensures Limited(s) ==>
              && Counter(s, e) == s.current + (if Swaps(s, e) then 1 else if e.Release? then -1 else 0)
              && Counter(s, e) <= s.limiter.value
    ensures s.limiter.None? ==> Counter(s, e) == 0
    ensures s.limiter == Some(0) ==>
              Counter(s, e) == Wrap(0 - (Total(Returned, s.requests) + if e.Release? then 1 else 0))
  {
    if e.Release? {
      TotalCovers(Slots, s.requests, e.i);
      WrapDown(s.current, Total(Returned, s.requests));
    }
    hide Total, Wrap;
  }

  lemma WrapDown(current: nat, returned: nat)
    ensures 1 <= current < TWO64 ==> Wrap(current - 1) == current - 1
    ensures current == Wrap(0 - returned) ==> Wrap(current - 1) == Wrap(0 - (returned + 1))
  {
    if current == Wrap(0 - returned) {
      var q := (0 - returned) / TWO64;
      assert 0 - returned == q * TWO64 + current;
      assert 0 - (returned + 1) == q * TWO64 + (current - 1);
    }
  }

  lemma {:induction false} RunKeepsCounts(s: State, es: seq<Event>)
    requires Counts(s) && Possible(s, es)
    requires s.limiter.Some? ==> s.limiter.value < TWO64
    ensures Counts(Run(s, es)) && Run(s, es).limiter == s.limiter
    decreases |es|
  {
    hide Counts;
    if es != [] {
      StepKeepsCounts(s, es[0]);
      RunKeepsCounts(Step(s, es[0]), es[1..]);
    }
  }

  /**
   * With a positive maximum, in every interleaving the limiter's counter is the number of slots acquired and
   * not yet released, and never exceeds the maximum; the in-flight counter is the number of requests between
   * admission and release.
   */
  lemma {:induction false} ConcurrencyCap(max: nat, es: seq<Event>)
    requires 0 < max < TWO64
    requires Possible(Fresh(Some(max)), es)
    ensures var s := Run(Fresh(Some(max)), es);
            && s.current == Total(Slots, s.requests) <= max
            && s.inflight == Total(InFlight, s.requests)
  {
    RunKeepsCounts(Fresh(Some(max)), es);
  }

  /** A request in the limiter's loop has seen no more than the maximum. */
  ghost predicate SawAtMostMax(s: State) {
    forall i :: 0 <= i < |s.requests| ==> RequestSaw(s.requests[i], s.limiter)
  }

  predicate RequestSaw(r: Request, limiter: Option<nat>) {
    r.phase.Acquiring? ==> limiter.Some? && r.phase.seen <= limiter.value
  }

  lemma StepKeepsSeen(s: State, e: Event)
    requires Counts(s) && SawAtMostMax(s) && Enabled(s, e)
    ensures SawAtMostMax(Step(s, e))
  {
    if e.Arrive? {
      assert RequestSaw(Arrived(e.header), s.limiter);
    } else {
      assert RequestSaw(s.requests[e.i], s.limiter);
      assert RequestSaw(Moved(s, e), s.limiter);
    }
    hide RequestSaw, Moved, Arrived, Counts, Counter;
  }

  lemma {:induction false} RunKeepsSeen(s: State, es: seq<Event>)
    requires Counts(s) && SawAtMostMax(s) && Possible(s, es)
    requires s.limiter.Some? ==> s.limiter.value < TWO64
    ensures SawAtMostMax(Run(s, es))
    decreases |es|
  {
    hide Counts, SawAtMostMax;
    if es != [] {
      StepKeepsCounts(s, es[0]);
      StepKeepsSeen(s, es[0]);
      RunKeepsSeen(Step(s, es[0]), es[1..]);
    }
  }

  lemma NothingSeenYet(max: nat)
    ensures Counts(Fresh(Some(max))) && SawAtMostMax(Fresh(Some(max)))
  {
  }

  /** In every interleaving a request is refused exactly when it last read the counter at the maximum. */
  lemma {:induction false} RefusedExactlyWhenFull(max: nat, es: seq<Event>, i: nat)
    requires 0 < max < TWO64
    requires Possible(Fresh(Some(max)), es) && i < |Run(Fresh(Some(max)), es).requests|
    ensures var s := Run(Fresh(Some(max)), es); Enabled(s, Refuse(i)) <==> s.requests[i].phase == Acquiring(max)
  {
    NothingSeenYet(max);
    RunKeepsCounts(Fresh(Some(max)), es);
    RunKeepsSeen(Fresh(Some(max)), es);
    var s := Run(Fresh(Some(max)), es);
    hide Run, Possible, Total, Counts;
    assert RequestSaw(s.requests[i], s.limiter);
  }

  predicate AllOver(rs: seq<Request>) {
    forall i :: 0 <= i < |rs| ==> rs[i].phase.Over? || rs[i].phase.Acknowledged? || rs[i].phase.Ignored?
  }

  lemma {:induction false} NothingHeldWhenOver(rs: seq<Request>)
    requires AllOver(rs)
    ensures Total(Slots, rs) == 0 && Total(InFlight, rs) == 0
  {
    if rs != [] {
      NothingHeldWhenOver(rs[..|rs| - 1]);
    }
  }

  /** No slot leaks: once every request is over the whole capacity is free again. */
  lemma {:induction false} NoLeak(max: nat, es: seq<Event>)
    requires 0 < max < TWO64
    requires Possible(Fresh(Some(max)), es) && AllOver(Run(Fresh(Some(max)), es).requests)
    ensures var s := Run(Fresh(Some(max)), es); s.current == 0 && s.inflight == 0
  {
    ConcurrencyCap(max, es);
    NothingHeldWhenOver(Run(Fresh(Some(max)), es).requests);
  }

  /**
   * With a maximum of 0 nothing is acquired but every release still subtracts, so the counter is minus the
   * number of releases, wrapped to 64 bits: it reads 0, the number of slots taken, only before the first
   * release or after a multiple of 2^64 of them.
   */
  lemma {:induction false} UnlimitedCounterWraps(es: seq<Event>)
    requires Possible(Fresh(Some(0)), es)
    ensures var s := Run(Fresh(Some(0)), es);
            && s.current == Wrap(0 - Total(Returned, s.requests))
            && (s.current == 0 <==> Total(Returned, s.requests) % TWO64 == 0)
  {
    RunKeepsCounts(Fresh(Some(0)), es);
    WrapZero(Total(Returned, Run(Fresh(Some(0)), es).requests));
  }

  lemma WrapZero(n: nat)
    ensures Wrap(0 - n) == 0 <==> n % TWO64 == 0
  {
    if n % TWO64 == 0 {
      assert 0 - n == (0 - n / TWO64) * TWO64;
    }
  }

  function Alone(h: Header, phase: Phase, admits: nat, inflight: int): (s: State) {
    State(Some(0), 0, inflight, [Request(h, phase, if phase.Queued? then 0 else h.traceId, admits, 0, [])])
  }

  /** One request through an unlimited limiter leaves the counter at 2^64 - 1. */
  lemma UnlimitedWitness(h: Header)
    requires h.msgType == MSG_REQUEST
    ensures var es := [Arrive(h), Begin(0, 0), Load(0), CountIn(0), Reject(0, MethodNotFound), Release(0)];
            Possible(Fresh(Some(0)), es) && Run(Fresh(Some(0)), es).current == TWO64 - 1
  {
    var es := [Arrive(h), Begin(0, 0), Load(0), CountIn(0), Reject(0, MethodNotFound), Release(0)];
    WitnessSteps(h);
    var last := Alone(h, Leaving(MethodNotFound, true), 1, 1);
    hide Alone, Step, Enabled;
    RunStep(last, es[5..], Step(last, es[5]));
    RunStep(Alone(h, Counted, 1, 1), es[4..], last);
    RunStep(Alone(h, Admitted, 1, 0), es[3..], Alone(h, Counted, 1, 1));
    RunStep(Alone(h, Begun, 0, 0), es[2..], Alone(h, Admitted, 1, 0));
    RunStep(Alone(h, Queued, 0, 0), es[1..], Alone(h, Begun, 0, 0));
    RunStep(Fresh(Some(0)), es, Alone(h, Queued, 0, 0));
  }

  lemma WitnessSteps(h: Header)
    requires h.msgType == MSG_REQUEST
    ensures Leads(Fresh(Some(0)), Arrive(h), Alone(h, Queued, 0, 0))
    ensures Leads(Alone(h, Queued, 0, 0), Begin(0, 0), Alone(h, Begun, 0, 0))
    ensures Leads(Alone(h, Begun, 0, 0), Load(0), Alone(h, Admitted, 1, 0))
    ensures Leads(Alone(h, Admitted, 1, 0), CountIn(0), Alone(h, Counted, 1, 1))
    ensures Leads(Alone(h, Counted, 1, 1), Reject(0, MethodNotFound), Alone(h, Leaving(MethodNotFound, true), 1, 1))
    ensures var s := Alone(h, Leaving(MethodNotFound, true), 1, 1);
            Enabled(s, Release(0)) && Step(s, Release(0)).current == TWO64 - 1
  {
  }

  predicate Leads(s: State, e: Event, s': State) {
    Enabled(s, e) && Step(s, e) == s'
  }

  lemma {:induction false} RunStep(s: State, es: seq<Event>, s': State)
    requires es != [] && Enabled(s, es[0]) && Step(s, es[0]) == s' && Possible(s', es[1..])
    ensures Possible(s, es) && Run(s, es) == Run(s', es[1..])
  {
  }
}
