// Which status a request is answered with (src/RpcServer.cpp).

module ServerReplies {
  import opened Bytes
  import opened Protocol
  import opened Server

  /** The events that settle how a request will be answered. */
  predicate Deciding(e: Event) {
    e.TurnAway? || e.Refuse? || e.Reject? || e.Done?
  }

  predicate Decides(e: Event, i: nat) {
    Deciding(e) && e.i == i
  }

  function Decisions(es: seq<Event>, i: nat): (ds: seq<Event>)
    decreases |es|
  {
    if es == [] then [] else (if Decides(es[0], i) then [es[0]] else []) + Decisions(es[1..], i)
  }

  /** The statuses in the order of their codes on the wire. */
  const STATUSES: seq<Status> := [
    StatusOk, InvalidArgument, MethodNotFound, SerializationError, InternalError, DeadlineExceeded, RequestTooLarge,
    Unknown, ShuttingDown, ConcurrencyLimited]

  lemma CodeIsPlace(s: Status)
    ensures Code(s) < |STATUSES| && STATUSES[Code(s)] == s
  {
  }

  /** What each of them means for the caller; a handler that took as long as the caller's timeout is too late. */
  function DecidedStatus(h: Header, d: Event): (s: Status)
    requires Deciding(d)
  {
    match d
    case TurnAway(_) => ShuttingDown
    case Refuse(_) => ConcurrencyLimited
    case Reject(_, status) => status
    case Done(_, status, latencyMs, _) => if 0 < h.timeoutMs <= latencyMs then DeadlineExceeded else status
  }

  /** Only a handler can outlive its connection. */
  predicate Reachable(d: Event) {
    d.Done? ==> d.alive
  }

  predicate DecidedAs(r: Request, d: Event) {
    && Deciding(d)
    && match r.phase
       case Leaving(status, alive) => status == DecidedStatus(r.header, d) && alive == Reachable(d)
       case Uncounting(status, alive) => status == DecidedStatus(r.header, d) && alive == Reachable(d)
       case Replying(status, alive) => status == DecidedStatus(r.header, d) && alive == Reachable(d)
       case Over(status, alive) => status == DecidedStatus(r.header, d) && alive == Reachable(d)
       case _ => false
  }

  predicate IsDecided(r: Request) {
    r.phase.Leaving? || r.phase.Uncounting? || r.phase.Replying? || r.phase.Over?
  }

  /** A request not yet decided has had no such event, any other exactly one, and it is as that event decided. */
  predicate Tracks(s: State, i: nat, ds: seq<Event>) {
    if i < |s.requests| && IsDecided(s.requests[i]) then |ds| == 1 && DecidedAs(s.requests[i], ds[0]) else ds == []
  }

  lemma StepTracks(s: State, i: nat, ds: seq<Event>, e: Event)
    requires Tracks(s, i, ds) && Enabled(s, e)
    ensures Tracks(Step(s, e), i, ds + if Decides(e, i) then [e] else [])
  {
    hide Wrap, Counter;
    assert ds + [] == ds;
    if !e.Arrive? && e.i == i {
      MovedTracks(s, ds, e);
      hide Tracks, Moved;
    }
  }

  lemma MovedTracks(s: State, ds: seq<Event>, e: Event)
    requires !e.Arrive? && Enabled(s, e) && Tracks(s, e.i, ds)
    ensures var r, ds' := Moved(s, e), ds + if Decides(e, e.i) then [e] else [];
            if IsDecided(r) then |ds'| == 1 && DecidedAs(r, ds'[0]) else ds' == []
  {
  }

  lemma {:induction false} RunTracks(s: State, es: seq<Event>, i: nat, ds: seq<Event>)
    requires Possible(s, es) && Tracks(s, i, ds)
    ensures Tracks(Run(s, es), i, ds + Decisions(es, i))
    decreases |es|
  {
    hide Step, Enabled, Tracks, Decides;
    if es == [] {
      assert ds + [] == ds;
    } else {
      var d := if Decides(es[0], i) then [es[0]] else [];
      StepTracks(s, i, ds, es[0]);
      RunTracks(Step(s, es[0]), es[1..], i, ds + d);
      assert ds + d + Decisions(es[1..], i) == ds + Decisions(es, i);
    }
  }

  lemma {:induction false} DecisionsDecide(es: seq<Event>, i: nat)
    ensures forall d :: d in Decisions(es, i) ==> Decides(d, i)
    decreases |es|
  {
    if es != [] {
      DecisionsDecide(es[1..], i);
    }
  }

  // ------------------------------------------------------------------ the trace id

  /** The trace id of request `i`: none until it begins, then the caller's, or a new one if the caller sent none. */
  function TraceAfter(h: Header, trace: uint64, e: Event, i: nat): (t: uint64) {
    if e.Begin? && e.i == i then if h.traceId != 0 then h.traceId else e.minted else trace
  }

  function TraceOf(h: Header, trace: uint64, es: seq<Event>, i: nat): (t: uint64)
    decreases |es|
  {
    if es == [] then trace else TraceOf(h, TraceAfter(h, trace, es[0], i), es[1..], i)
  }

  /** `h` is the header of request `i`, which may be yet to arrive, and `trace` its trace id so far. */
  predicate Carries(s: State, i: nat, h: Header, trace: uint64) {
    if i < |s.requests| then s.requests[i].header == h && s.requests[i].trace == trace else trace == 0
  }

  lemma StepCarries(s: State, i: nat, h: Header, trace: uint64, e: Event)
    requires Enabled(s, e) && Carries(s, i, h, trace)
    requires e.Arrive? && i == |s.requests| ==> e.header == h
    ensures Carries(Step(s, e), i, h, TraceAfter(h, trace, e, i))
  {
    hide Wrap, Counter;
  }

  /** The header a request arrived with never changes. */
  lemma {:induction false} HeaderStays(s: State, es: seq<Event>, i: nat)
    requires Possible(s, es) && i < |s.requests|
    ensures i < |Run(s, es).requests| && Run(s, es).requests[i].header == s.requests[i].header
    decreases |es|
  {
    hide Wrap, Counter;
    if es != [] {
      HeaderStays(Step(s, es[0]), es[1..], i);
    }
  }

  lemma {:induction false} RunCarries(s: State, es: seq<Event>, i: nat, h: Header, trace: uint64)
    requires Possible(s, es) && Carries(s, i, h, trace)
    requires i < |Run(s, es).requests| && Run(s, es).requests[i].header == h
    ensures Run(s, es).requests[i].trace == TraceOf(h, trace, es, i)
    decreases |es|
  {
    if es != [] {
      var s' := Step(s, es[0]);
      if i < |s'.requests| {
        HeaderStays(s', es[1..], i);
      }
      StepCarries(s, i, h, trace, es[0]);
      hide Step, Enabled, Carries, TraceAfter;
      RunCarries(s', es[1..], i, h, TraceAfter(h, trace, es[0], i));
    }
  }

  /** A message of type 0, 1 in the reply, is a request, 2 a one-way call; 3 is a heartbeat, acknowledged with a 4. */
  predicate RepliedTo(r: Request, es: seq<Event>, i: nat) {
    var ds := Decisions(es, i);
    if r.header.msgType == 3 then
      r.replies == [r.header.(msgType := 4)]
    else if r.header.msgType !in {0, 2} then
      r.replies == []
    else
      r.phase.Over? ==>
        && |ds| == 1 && Decides(ds[0], i)
        && if r.header.msgType == 2 || !Reachable(ds[0]) then r.replies == []
           else
             && |r.replies| == 1 && r.replies[0].status < |STATUSES|
             && STATUSES[r.replies[0].status] == DecidedStatus(r.header, ds[0])
             && r.replies[0] == r.header.(msgType := 1, status := r.replies[0].status,
                                          traceId := TraceOf(r.header, 0, es, i))
  }

  /**
   * In every interleaving each request is decided by at most one event. One that is over was decided by exactly one,
   * and its reply, due unless the request is one-way or its connection has gone, repeats its header with the status
   * of that event and the trace id it got when it began, 0 if it was turned away before. Heartbeats are acknowledged,
   * other frames get no reply.
   */
  lemma {:induction false} AnsweredAsDecided(limiter: Option<nat>, es: seq<Event>, i: nat)
    requires Possible(Fresh(limiter), es) && i < |Run(Fresh(limiter), es).requests|
    ensures |Decisions(es, i)| <= 1 && RepliedTo(Run(Fresh(limiter), es).requests[i], es, i)
  {
    RunKeepsProper(Fresh(limiter), es);
    RunKeepsTypes(Fresh(limiter), es);
    RunTracks(Fresh(limiter), es, i, []);
    DecisionsDecide(es, i);
    var r, ds := Run(Fresh(limiter), es).requests[i], Decisions(es, i);
    RunCarries(Fresh(limiter), es, i, r.header, 0);
    assert [] + ds == ds;
    assert Proper(r) && Typed(r);
    if r.phase.Over? {
      CodeIsPlace(r.phase.status);
    }
    hide Run, Possible, Decisions, TraceOf, Code;
  }
}
