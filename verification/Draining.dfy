// How far the output of a connection gets (src/TcpConnection.cpp).

module Draining {
  import opened Bytes
  import opened Protocol
  import opened Framer
  import opened FrameStream
  import opened TcpConnection

  // ------------------------------------------------------------------ one drain

  /** The bytes the kernel takes before it first answers EAGAIN or a fatal errno. */
  function Took(rs: seq<WriteResult>): (n: nat)
    decreases |rs|
  {
    if rs == [] || rs[0].Again? || rs[0].Fatal? then 0
    else (if rs[0].Wrote? then rs[0].n else 0) + Took(rs[1..])
  }

  function AtMost(n: nat, max: nat): (r: nat) {
    if n <= max then n else max
  }

  /**
   * The first `n` queued bytes have moved to the wire. If those were all, write interest is off, and a disconnecting
   * connection that had any is half-closed.
   */
  predicate Moves(o: Output, o': Output, n: nat) {
    && n <= |o.buffered|
    && o'.state == o.state && o'.wire == o.wire + o.buffered[..n] && o'.buffered == o.buffered[n..]
    && o'.writing == (n < |o.buffered| && o.writing)
    && o'.shut == (o.shut || (o.state == Disconnecting && n == |o.buffered| > 0))
  }

  lemma MovesMore(o: Output, o': Output, n: nat, k: nat)
    requires n < |o.buffered| && Moves(Taken(o, n), o', k)
    ensures Moves(o, o', n + k)
  {
    CutFurther(o.wire, o.buffered, n, k);
  }

  lemma CutFurther(wire: seq<byte>, bs: seq<byte>, n: nat, k: nat)
    requires n + k <= |bs|
    ensures wire + bs[..n] + bs[n..][..k] == wire + bs[..n + k] && bs[n..][k..] == bs[n + k..]
  {
    assert bs[..n] + bs[n..][..k] == bs[..n + k];
    Reassociate(wire, bs[..n], bs[n..][..k]);
  }

  lemma MovesNone(o: Output)
    ensures Moves(o, if o.buffered == [] then o.(writing := false) else o, 0)
  {
    assert o.wire + o.buffered[..0] == o.wire;
  }

  lemma MovesAll(o: Output)
    requires o.buffered != []
    ensures Moves(o, Drained(Taken(o, |o.buffered|)), |o.buffered|)
  {
    assert o.buffered[|o.buffered|..] == [];
  }

  /** Whatever the kernel answers, a drain moves exactly the bytes it takes. */
  lemma {:induction false} DrainExactly(o: Output, rs: seq<WriteResult>)
    requires Answers(|o.buffered|, rs)
    ensures Moves(o, DrainStep(o, rs), AtMost(Took(rs), |o.buffered|))
    decreases |rs|
  {
    hide Moves, Drained;
    if o.buffered == [] || rs == [] || rs[0].Again? || rs[0].Fatal? {
      MovesNone(o);
    } else if rs[0].Interrupted? {
      DrainExactly(o, rs[1..]);
    } else if rs[0].n == |o.buffered| {
      MovesAll(o);
    } else {
      DrainExactly(Taken(o, rs[0].n), rs[1..]);
      MovesMore(o, DrainStep(o, rs), rs[0].n, AtMost(Took(rs[1..]), |o.buffered| - rs[0].n));
    }
  }

  // ------------------------------------------------------------------ whole runs

  /** Sent while open, and written, queued, or refused with EAGAIN: not lost to another errno. */
  predicate Passes(o: Output, e: Event) {
    e.SendMessage? && o.state != Disconnected && (o.buffered != [] || e.r.Wrote? || e.r.Again?)
  }

  function Passed(o: Output, es: seq<Event>): (ms: seq<Message>)
    requires Possible(o, es)
    decreases |es|
  {
    if es == [] then [] else (if Passes(o, es[0]) then [es[0].m] else []) + Passed(Step(o, es[0]), es[1..])
  }

  /** The bytes that the kernel takes in one event. */
  function Accepted(o: Output, e: Event): (n: nat) {
    match e
    case SendMessage(_, r) => if Passes(o, e) && o.buffered == [] && r.Wrote? then r.n else 0
    case Writable(rs) => AtMost(Took(rs), |o.buffered|)
    case _ => 0
  }

  function AcceptedIn(o: Output, es: seq<Event>): (n: nat)
    requires Possible(o, es)
    decreases |es|
  {
    if es == [] then 0 else Accepted(o, es[0]) + AcceptedIn(Step(o, es[0]), es[1..])
  }

  lemma {:induction false} PassedIsKept(o: Output, es: seq<Event>)
    requires Possible(o, es)
    ensures Passed(o, es) == Kept(o, es)
    decreases |es|
  {
    hide Step, Enabled;
    if es != [] {
      PassedIsKept(Step(o, es[0]), es[1..]);
    }
  }

  lemma {:induction false} StepAccepts(o: Output, e: Event)
    requires Enabled(o, e)
    ensures |Step(o, e).wire| == |o.wire| + Accepted(o, e)
  {
    hide FrameBytes;
    if e.Writable? {
      DrainExactly(o, e.rs);
    }
  }

  lemma {:induction false} RunAccepts(o: Output, es: seq<Event>)
    requires Possible(o, es)
    ensures |Run(o, es).wire| == |o.wire| + AcceptedIn(o, es)
    decreases |es|
  {
    hide Step, Enabled, Accepted;
    if es != [] {
      StepAccepts(o, es[0]);
      RunAccepts(Step(o, es[0]), es[1..]);
    }
  }

  /**
   * Over every run the kernel's answers alone decide what has been written and what is queued: the stream of the
   * passed messages, cut behind as many bytes as the kernel took.
   */
  lemma {:induction false} WireExactly(es: seq<Event>)
    requires Possible(Fresh, es)
    ensures var o, n, bs := Run(Fresh, es), AcceptedIn(Fresh, es), Stream(Passed(Fresh, es));
            n <= |bs| && o.wire == bs[..n] && o.buffered == bs[n..]
  {
    RunConserves(Fresh, es);
    PassedIsKept(Fresh, es);
    RunAccepts(Fresh, es);
    var o, bs := Run(Fresh, es), Stream(Passed(Fresh, es));
    hide Run, Stream, Passed, AcceptedIn;
    assert [] + [] + bs == bs;
    assert bs[..|o.wire|] == o.wire && bs[|o.wire|..] == o.buffered;
  }

  // ------------------------------------------------------------------ write interest

  predicate Interested(o: Output) {
    o.writing <==> o.state != Disconnected && o.buffered != []
  }

  /** At every point of the run the connection asks to write exactly when it is open and bytes are queued. */
  predicate AlwaysInterested(o: Output, es: seq<Event>)
    requires Possible(o, es)
    decreases |es|
  {
    Interested(o) && (es == [] || AlwaysInterested(Step(o, es[0]), es[1..]))
  }

  /** An empty frame, that of an oversized message, is answered with EAGAIN when nothing is queued. */
  predicate QueuesNothing(o: Output, e: Event) {
    && e.SendMessage? && |e.m.body| > MAX_BODY_LEN && e.r.Again?
    && o.state != Disconnected && o.buffered == []
  }

  predicate NeverQueuesNothing(o: Output, es: seq<Event>)
    requires Possible(o, es)
    decreases |es|
  {
    es == [] || (!QueuesNothing(o, es[0]) && NeverQueuesNothing(Step(o, es[0]), es[1..]))
  }

  lemma {:induction false} StepInterest(o: Output, e: Event)
    requires Enabled(o, e) && Interested(o)
    ensures Interested(Step(o, e)) <==> !QueuesNothing(o, e)
  {
    match e
    case SendMessage(m, r) =>
      EmptyFrame(m);
      hide FrameBytes;
    case Writable(rs) => DrainExactly(o, rs);
    case _ =>
  }

  lemma {:induction false} RunInterest(o: Output, es: seq<Event>)
    requires Possible(o, es) && Interested(o)
    ensures AlwaysInterested(o, es) <==> NeverQueuesNothing(o, es)
    decreases |es|
  {
    hide Step, Enabled, Interested, QueuesNothing;
    if es != [] {
      StepInterest(o, es[0]);
      if !QueuesNothing(o, es[0]) {
        RunInterest(Step(o, es[0]), es[1..]);
      }
    }
  }

  /** Write interest follows the queue in every run, if and only if no empty frame is answered with EAGAIN. */
  lemma {:induction false} InterestExactly(es: seq<Event>)
    requires Possible(Fresh, es)
    ensures AlwaysInterested(Fresh, es) <==> NeverQueuesNothing(Fresh, es)
  {
    RunInterest(Fresh, es);
  }

  // ------------------------------------------------------------------ the half-close is not forgotten

  /** `shutdown` has left its task for the loop, and the loop now runs it. */
  predicate RunsTask(o: Output, e: Event) {
    e.ShutdownInLoop? && o.state == Disconnecting
  }

  /** From that task on, at every point of the run: a disconnecting connection with an empty queue is half-closed. */
  predicate ShutsWhenEmpty(o: Output, es: seq<Event>, due: bool)
    requires Possible(o, es)
    decreases |es|
  {
    && (due && o.state == Disconnecting && o.buffered == [] ==> o.shut)
    && (es == [] || ShutsWhenEmpty(Step(o, es[0]), es[1..], due || RunsTask(o, es[0])))
  }

  /** The task finds an empty queue but write interest still on. */
  predicate PutOff(o: Output, e: Event) {
    RunsTask(o, e) && o.buffered == [] && o.writing && !o.shut
  }

  predicate NeverPutOff(o: Output, es: seq<Event>)
    requires Possible(o, es)
    decreases |es|
  {
    es == [] || (!PutOff(o, es[0]) && NeverPutOff(Step(o, es[0]), es[1..]))
  }

  /** Once the task has run the connection is half-closed or has bytes queued. */
  predicate Settled(o: Output, due: bool) {
    due ==> o.state == Disconnected || (o.state == Disconnecting && (o.shut || o.buffered != []))
  }

  lemma {:induction false} StepSettles(o: Output, e: Event, due: bool)
    requires Enabled(o, e) && Settled(o, due)
    ensures Settled(Step(o, e), due || RunsTask(o, e)) <==> !PutOff(o, e)
    ensures PutOff(o, e) ==> Step(o, e) == o
  {
    hide FrameBytes;
    if e.Writable? {
      DrainExactly(o, e.rs);
    }
  }

  lemma {:induction false} RunSettles(o: Output, es: seq<Event>, due: bool)
    requires Possible(o, es) && Settled(o, due)
    ensures ShutsWhenEmpty(o, es, due) <==> NeverPutOff(o, es)
    decreases |es|
  {
    hide Step, Enabled;
    if es != [] {
      StepSettles(o, es[0], due);
      if !PutOff(o, es[0]) {
        RunSettles(Step(o, es[0]), es[1..], due || RunsTask(o, es[0]));
      }
    }
  }

  /**
   * In every run a connection that is shut down half-closes as soon as its queue is empty, if and only if the task
   * that `shutdown` leaves never finds write interest on with nothing queued.
   */
  lemma {:induction false} HalfCloseExactly(es: seq<Event>)
    requires Possible(Fresh, es)
    ensures ShutsWhenEmpty(Fresh, es, false) <==> NeverPutOff(Fresh, es)
  {
    RunSettles(Fresh, es, false);
  }

  lemma {:induction false} InterestNeverPutsOff(o: Output, es: seq<Event>)
    requires Possible(o, es) && AlwaysInterested(o, es)
    ensures NeverPutOff(o, es)
    decreases |es|
  {
    hide Step, Enabled;
    if es != [] {
      InterestNeverPutsOff(Step(o, es[0]), es[1..]);
    }
  }

  /** So it does unless an oversized message was answered with EAGAIN... */
  lemma {:induction false} HalfCloseHappens(es: seq<Event>)
    requires Possible(Fresh, es) && NeverQueuesNothing(Fresh, es)
    ensures ShutsWhenEmpty(Fresh, es, false)
  {
    InterestExactly(es);
    InterestNeverPutsOff(Fresh, es);
    HalfCloseExactly(es);
  }

  /** ... when it may be forgotten: write interest goes off at the next event, and nothing is left to half-close. */
  lemma {:induction false} HalfCloseForgotten(m: Message)
    requires |m.body| > MAX_BODY_LEN
    ensures var es := [SendMessage(m, Again), Shutdown, ShutdownInLoop, Writable([])];
            Possible(Fresh, es) && Run(Fresh, es) == Fresh.(state := Disconnecting)
  {
    var es := [SendMessage(m, Again), Shutdown, ShutdownInLoop, Writable([])];
    EmptyFrame(m);
    assert [] + FrameBytes(m) == [];
    hide FrameBytes;
    var o1 := Fresh.(writing := true);
    assert Enabled(Fresh, es[0]) && Step(Fresh, es[0]) == o1;
    var o2 := o1.(state := Disconnecting);
    assert Enabled(o1, es[1]) && Step(o1, es[1]) == o2;
    assert Enabled(o2, es[2]) && Step(o2, es[2]) == o2;
    assert Enabled(o2, es[3]) && Step(o2, es[3]) == Fresh.(state := Disconnecting);
    assert es[3..][1..] == [];
    assert es[2..][1..] == es[3..] && es[1..][1..] == es[2..];
    hide Step, Enabled;
    assert Possible(o2, es[3..]) && Run(o2, es[3..]) == Step(o2, es[3]);
    assert Possible(o2, es[2..]) && Run(o2, es[2..]) == Run(o2, es[3..]);
    assert Possible(o1, es[1..]) && Run(o1, es[1..]) == Run(o2, es[2..]);
  }
}
