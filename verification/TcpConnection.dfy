// The write path of a connection over a non-blocking socket (src/TcpConnection.cpp).

module TcpConnection {
  import opened Bytes
  import opened Buffers
  import opened Protocol
  import opened Framer
  import opened FrameStream

  datatype ConnState = Connecting | Connected | Disconnecting | Disconnected

  /** What `::write` may answer: a count of bytes taken, or an errno. */
  datatype WriteResult = Wrote(n: nat) | Again | Interrupted | Fatal

  /** `wire` is everything the kernel has taken from this connection so far; `shut` once its end was announced. */
  datatype Output = Output(state: ConnState, buffered: seq<byte>, writing: bool, wire: seq<byte>, shut: bool)

  // ------------------------------------------------------------------ specification of the steps

  /** Whether the direct write of `sendInLoop` fails for good: the message is then dropped. */
  predicate Drops(o: Output, r: WriteResult) {
    o.state != Disconnected && o.buffered == [] && (r.Interrupted? || r.Fatal?)
  }

  function SendStep(o: Output, message: seq<byte>, r: WriteResult): (o': Output)
    requires r.Wrote? ==> r.n <= |message|
  {
    if o.state == Disconnected || Drops(o, r) then
      o
    else if o.buffered == [] && r.Wrote? then
      var o1 := o.(wire := o.wire + message[..r.n]);
      if r.n == |message| then o1 else o1.(buffered := message[r.n..], writing := true)
    else
      o.(buffered := o.buffered + message, writing := true)
  }

  /** Answers that `handleWrite`, which only writes when bytes are buffered, can get from the kernel. */
  predicate Answers(size: nat, rs: seq<WriteResult>)
    decreases |rs|
  {
    if size == 0 || rs == [] then true
    else if rs[0].Wrote? then 0 < rs[0].n <= size && Answers(size - rs[0].n, rs[1..])
    else rs[0].Interrupted? ==> Answers(size, rs[1..])
  }

  function Taken(o: Output, n: nat): (o': Output)
    requires n <= |o.buffered|
  {
    o.(wire := o.wire + o.buffered[..n], buffered := o.buffered[n..])
  }

  /** `shutdownInLoop`: half-closes unless output is pending. */
  function ShutStep(o: Output): (o': Output) {
    if o.buffered != [] || o.writing then o else o.(shut := true)
  }

  /** What `handleWrite` does once it has written everything. */
  function Drained(o: Output): (o': Output) {
    var o1 := o.(writing := false);
    if o.state == Disconnecting then ShutStep(o1) else o1
  }

  /** `handleWrite` under the answers `rs`; running out of them is one more EAGAIN. */
  function DrainStep(o: Output, rs: seq<WriteResult>): (o': Output)
    requires Answers(|o.buffered|, rs)
    decreases |rs|
  {
    if o.buffered == [] then
      o.(writing := false)
    else if rs == [] || rs[0].Again? || rs[0].Fatal? then
      o
    else if rs[0].Interrupted? then
      DrainStep(o, rs[1..])
    else
      var o1 := Taken(o, rs[0].n);
      if o1.buffered == [] then Drained(o1) else DrainStep(o1, rs[1..])
  }

  /** `shutdown`: only a connected connection starts disconnecting. */
  function DisconnectStep(o: Output): (o': Output) {
    if o.state == Connected then o.(state := Disconnecting) else o
  }

  function CloseStep(o: Output): (o': Output) {
    o.(state := Disconnected, writing := false)
  }

  // ------------------------------------------------------------------ the code

  class Connection {
    var state: ConnState
    var output: Buffer
    var writing: bool
    ghost var wire: seq<byte>
    var shut: bool

    ghost predicate Valid()
      reads this, output
    {
      output.Valid()
    }

    ghost function View(): (o: Output)
      requires Valid()
      reads this, output, output.data
    {
      Output(state, output.Contents(), writing, wire, shut)
    }

    constructor ()
      ensures Valid() && View() == Fresh
      ensures fresh(output) && fresh(output.data)
    {
      state, writing, wire, shut := Connected, false, [], false;
      output := new Buffer(1024);
    }

    /** `sendInLoop`; `r` is the answer to its direct write, if it makes one. */
    method SendInLoop(message: seq<byte>, r: WriteResult)
      requires Valid() && (r.Wrote? ==> r.n <= |message|)
      modifies this, output, output.data
      ensures Valid() && output == old(output) && (output.data == old(output.data) || fresh(output.data))
      ensures View() == SendStep(old(View()), message, r)
    {
      if state == Disconnected {
        return;
      }
      if output.ReadableBytes() == 0 {
        match r {
          case Wrote(n) =>
            wire := wire + message[..n];
            if n < |message| {
              Enqueue(message[n..]);
            }
            return;
          case Again =>
          case Interrupted => return;
          case Fatal => return;
        }
      }
      Enqueue(message);
    }

    /** Queues what the kernel did not take and asks to be told when it will take more. */
    method Enqueue(bs: seq<byte>)
      requires Valid()
      modifies this, output, output.data
      ensures Valid() && output == old(output) && (output.data == old(output.data) || fresh(output.data))
      ensures View() == old(View()).(buffered := old(View()).buffered + bs, writing := true)
    {
      output.Append(bs);
      writing := true;
    }

    /** `handleWrite`: writes until the buffer is empty or the kernel stops taking bytes. */
    method HandleWrite(rs: seq<WriteResult>)
      requires Valid() && Answers(output.ReadableBytes(), rs)
      modifies this, output
      ensures Valid() && output == old(output) && output.data == old(output.data)
      ensures View() == DrainStep(old(View()), rs)
    {
      var i := 0;
      while true
        invariant Valid() && output == old(output) && output.data == old(output.data)
        invariant i <= |rs| && Answers(output.ReadableBytes(), rs[i..])
        invariant DrainStep(View(), rs[i..]) == DrainStep(old(View()), rs)
        decreases |rs| - i
      {
        if output.ReadableBytes() == 0 {
          writing := false;
          return;
        }
        if i == |rs| || rs[i].Again? || rs[i].Fatal? {
          return;
        }
        assert rs[i..][1..] == rs[i + 1..];
        if rs[i].Wrote? {
          TakeWritten(rs[i].n);
          if output.ReadableBytes() == 0 {
            writing := false;
            if state == Disconnecting {
              ShutdownInLoop();
            }
            return;
          }
        }
        i := i + 1;
      }
    }

    /** The kernel took the first `n` buffered bytes. */
    method TakeWritten(n: nat)
      requires Valid() && n <= output.ReadableBytes()
      modifies this, output
      ensures Valid() && output == old(output) && output.data == old(output.data)
      ensures View() == Taken(old(View()), n)
    {
      wire := wire + output.Contents()[..n];
      output.Retrieve(n);
    }

    /** `shutdownInLoop`. */
    method ShutdownInLoop()
      requires Valid()
      modifies this
      ensures Valid() && output == old(output) && View() == ShutStep(old(View()))
    {
      if output.ReadableBytes() > 0 || writing {
        return;
      }
      shut := true;
    }

    /** `shutdown`, up to the task it leaves for the loop. */
    method Shutdown()
      requires Valid()
      modifies this
      ensures Valid() && output == old(output) && View() == DisconnectStep(old(View()))
    {
      if state != Connected {
        return;
      }
      state := Disconnecting;
    }

    /** `handleClose`. */
    method HandleClose()
      requires Valid()
      modifies this
      ensures Valid() && output == old(output) && View() == CloseStep(old(View()))
    {
      state := Disconnected;
      writing := false;
    }
  }

  // ------------------------------------------------------------------ whole runs

  datatype Event =
    | SendMessage(m: Message, r: WriteResult)
    | Writable(rs: seq<WriteResult>)
    | Shutdown
    | ShutdownInLoop
    | Close

  /** Events the kernel and the program can produce in this state: nothing is written after the half-close. */
  predicate Enabled(o: Output, e: Event) {
    match e
    case SendMessage(m, r) => r.Wrote? ==> r.n <= |FrameBytes(m)| && (o.shut ==> r.n == 0)
    case Writable(rs) => Answers(|o.buffered|, rs) && (o.shut ==> forall i :: 0 <= i < |rs| ==> !rs[i].Wrote?)
    case _ => true
  }

  function Step(o: Output, e: Event): (o': Output)
    requires Enabled(o, e)
  {
    match e
    case SendMessage(m, r) => SendStep(o, FrameBytes(m), r)
    case Writable(rs) => DrainStep(o, rs)
    case Shutdown => DisconnectStep(o)
    case ShutdownInLoop => ShutStep(o)
    case Close => CloseStep(o)
  }

  predicate Possible(o: Output, es: seq<Event>)
    decreases |es|
  {
    es == [] || (Enabled(o, es[0]) && Possible(Step(o, es[0]), es[1..]))
  }

  function Run(o: Output, es: seq<Event>): (o': Output)
    requires Possible(o, es)
    decreases |es|
  {
    if es == [] then o else Run(Step(o, es[0]), es[1..])
  }

  /** Messages sent while the connection was open. */
  function Offered(o: Output, es: seq<Event>): (ms: seq<Message>)
    requires Possible(o, es)
    decreases |es|
  {
    if es == [] then []
    else
      (if es[0].SendMessage? && o.state != Disconnected then [es[0].m] else [])
      + Offered(Step(o, es[0]), es[1..])
  }

  /** Those of them that the direct write did not drop. */
  function Kept(o: Output, es: seq<Event>): (ms: seq<Message>)
    requires Possible(o, es)
    decreases |es|
  {
    if es == [] then []
    else
      (if es[0].SendMessage? && o.state != Disconnected && !Drops(o, es[0].r) then [es[0].m] else [])
      + Kept(Step(o, es[0]), es[1..])
  }

  /** No direct write fails with anything but EAGAIN. */
  predicate NeverDrops(o: Output, es: seq<Event>)
    requires Possible(o, es)
    decreases |es|
  {
    es == [] || (!(es[0].SendMessage? && Drops(o, es[0].r)) && NeverDrops(Step(o, es[0]), es[1..]))
  }

  /** The same, but for oversized messages, which have no frame to lose. */
  predicate DropsNoFrame(o: Output, es: seq<Event>)
    requires Possible(o, es)
    decreases |es|
  {
    es == [] ||
    (!(es[0].SendMessage? && Drops(o, es[0].r) && |es[0].m.body| <= MAX_BODY_LEN)
     && DropsNoFrame(Step(o, es[0]), es[1..]))
  }

  lemma {:induction false} DrainConserves(o: Output, rs: seq<WriteResult>)
    requires Answers(|o.buffered|, rs)
    ensures DrainStep(o, rs).wire + DrainStep(o, rs).buffered == o.wire + o.buffered
    ensures DrainStep(o, rs).state == o.state
    ensures o.wire <= DrainStep(o, rs).wire
    ensures DrainStep(o, rs).writing ==> o.writing
    ensures o.writing && DrainStep(o, rs).buffered != [] ==> DrainStep(o, rs).writing
    ensures o.shut ==> DrainStep(o, rs).shut
    ensures DrainStep(o, rs).shut && !o.shut ==> o.state == Disconnecting && DrainStep(o, rs).buffered == []
    decreases |rs|
  {
    if o.buffered == [] || rs == [] || rs[0].Again? || rs[0].Fatal? {
    } else if rs[0].Interrupted? {
      DrainConserves(o, rs[1..]);
    } else {
      var n := rs[0].n;
      if Taken(o, n).buffered != [] {
        DrainConserves(Taken(o, n), rs[1..]);
      }
      assert o.wire + o.buffered[..n] + o.buffered[n..] == o.wire + o.buffered;
    }
  }

  /** Pending output always has write interest while the connection is open, so it is never stuck. */
  predicate Inv(o: Output) {
    o.state != Disconnected && o.buffered != [] ==> o.writing
  }

  lemma SendConserves(o: Output, bs: seq<byte>, r: WriteResult)
    requires (r.Wrote? ==> r.n <= |bs|) && Inv(o) && o.state != Disconnected && !Drops(o, r)
    ensures var o' := SendStep(o, bs, r);
            Inv(o') && o.wire <= o'.wire && o'.wire + o'.buffered == o.wire + o.buffered + bs
  {
    if o.buffered == [] && r.Wrote? {
      assert o.wire + bs[..r.n] + bs[r.n..] == o.wire + o.buffered + bs;
    } else {
      Reassociate(o.wire, o.buffered, bs);
    }
  }

  lemma {:induction false} StepConserves(o: Output, e: Event)
    requires Enabled(o, e) && Inv(o)
    ensures Possible(o, [e])
    ensures var o' := Step(o, e);
            && Inv(o') && o.wire <= o'.wire
            && o'.wire + o'.buffered == o.wire + o.buffered + Stream(Kept(o, [e]))
  {
    KeptOne(o, e);
    assert o.wire + o.buffered + [] == o.wire + o.buffered;
    match e
    case SendMessage(m, r) =>
      StreamOne(m);
      if o.state != Disconnected && !Drops(o, r) {
        SendConserves(o, FrameBytes(m), r);
      }
    case Writable(rs) =>
      DrainConserves(o, rs);
    case _ =>
  }

  lemma StreamOne(m: Message)
    ensures Stream([m]) == FrameBytes(m)
  {
    assert [m][1..] == [];
    assert FrameBytes(m) + [] == FrameBytes(m);
  }

  lemma {:induction false} KeptOne(o: Output, e: Event)
    requires Enabled(o, e)
    ensures Possible(o, [e])
    ensures Kept(o, [e]) ==
            if e.SendMessage? && o.state != Disconnected && !Drops(o, e.r) then [e.m] else []
  {
    assert [e][1..] == [];
  }

  lemma {:induction false} StreamConcat(a: seq<Message>, b: seq<Message>)
    ensures Stream(a + b) == Stream(a) + Stream(b)
  {
    hide FrameBytes;
    if a == [] {
      assert a + b == b;
    } else {
      StreamConcat(a[1..], b);
      assert a + b == [a[0]] + (a[1..] + b);
      StreamCons(a[0], a[1..] + b);
      Reassociate(FrameBytes(a[0]), Stream(a[1..]), Stream(b));
    }
  }

  /** Byte conservation over whole runs: written plus buffered is the concatenation of the kept frames. */
  lemma {:induction false} RunConserves(o: Output, es: seq<Event>)
    requires Possible(o, es) && Inv(o)
    ensures Inv(Run(o, es))
    ensures Run(o, es).wire + Run(o, es).buffered == o.wire + o.buffered + Stream(Kept(o, es))
    decreases |es|
  {
    if es == [] {
      assert o.wire + o.buffered + [] == o.wire + o.buffered;
    } else {
      var o1 := Step(o, es[0]);
      StepConserves(o, es[0]);
      KeptOne(o, es[0]);
      RunConserves(o1, es[1..]);
      StreamConcat(Kept(o, [es[0]]), Kept(o1, es[1..]));
      Reassociate(o.wire + o.buffered, Stream(Kept(o, [es[0]])), Stream(Kept(o1, es[1..])));
    }
  }

  /** Only an oversized message has no frame. */
  lemma EmptyFrame(m: Message)
    ensures FrameBytes(m) == [] <==> |m.body| > MAX_BODY_LEN
  {
  }

  lemma {:induction false} KeptIsShorter(o: Output, es: seq<Event>)
    requires Possible(o, es)
    ensures |Stream(Kept(o, es))| <= |Stream(Offered(o, es))|
    ensures |Stream(Kept(o, es))| == |Stream(Offered(o, es))| <==> DropsNoFrame(o, es)
    ensures DropsNoFrame(o, es) ==> Stream(Kept(o, es)) == Stream(Offered(o, es))
    ensures NeverDrops(o, es) ==> Kept(o, es) == Offered(o, es)
    decreases |es|
  {
    hide FrameBytes, Step, Enabled, Drops;
    if es != [] {
      var o1 := Step(o, es[0]);
      KeptIsShorter(o1, es[1..]);
      var k, f := Kept(o1, es[1..]), Offered(o1, es[1..]);
      assert [] + k == k && [] + f == f;
      if es[0].SendMessage? && o.state != Disconnected {
        EmptyFrame(es[0].m);
        StreamCons(es[0].m, k);
        StreamCons(es[0].m, f);
        assert [] + Stream(f) == Stream(f);
      } else {
        DroppedWhileOpen(o, es[0]);
      }
    }
  }

  lemma DroppedWhileOpen(o: Output, e: Event)
    ensures e.SendMessage? && Drops(o, e.r) ==> o.state != Disconnected
  {
  }

  /**
   * Over every run, bytes written plus bytes queued are the frames of all messages sent while the connection was
   * open, if and only if no direct write of a message that has a frame failed with an errno other than EAGAIN.
   */
  lemma {:induction false} NothingLost(o: Output, es: seq<Event>)
    requires Possible(o, es) && Inv(o)
    ensures Run(o, es).wire + Run(o, es).buffered == o.wire + o.buffered + Stream(Offered(o, es)) <==>
            DropsNoFrame(o, es)
  {
    RunConserves(o, es);
    KeptIsShorter(o, es);
  }

  /** It happens: a signal that interrupts the direct write drops the message without trace... */
  lemma {:induction false} InterruptedSendIsLost(m: Message)
    requires |m.body| <= MAX_BODY_LEN
    ensures var es := [SendMessage(m, Interrupted)];
            && Possible(Fresh, es) && Offered(Fresh, es) == [m] && !DropsNoFrame(Fresh, es)
            && Run(Fresh, es) == Fresh && FrameBytes(m) != []
  {
    var es := [SendMessage(m, Interrupted)];
    assert es[1..] == [];
    EmptyFrame(m);
  }

  /** ... though one that interrupts the draining of the queue loses nothing. */
  lemma {:induction false} InterruptedDrainIsNot(o: Output, rs: seq<WriteResult>)
    requires o.buffered != [] && Answers(|o.buffered|, [Interrupted] + rs)
    ensures Answers(|o.buffered|, rs) && DrainStep(o, [Interrupted] + rs) == DrainStep(o, rs)
  {
    assert ([Interrupted] + rs)[1..] == rs;
  }

  const Fresh := Output(Connected, [], false, [], false)

  // ------------------------------------------------------------------ the half-close

  /** The half-close comes only once everything kept has been written. */
  lemma {:induction false} HalfCloseAfterAll(es: seq<Event>, e: Event)
    requires Possible(Fresh, es) && Enabled(Run(Fresh, es), e)
    requires !Run(Fresh, es).shut && Step(Run(Fresh, es), e).shut
    ensures Run(Fresh, es).wire + Run(Fresh, es).buffered == Stream(Kept(Fresh, es))
    ensures Step(Run(Fresh, es), e).buffered == [] && Step(Run(Fresh, es), e).wire == Stream(Kept(Fresh, es))
  {
    RunConserves(Fresh, es);
    var o := Run(Fresh, es);
    assert [] + [] + Stream(Kept(Fresh, es)) == Stream(Kept(Fresh, es));
    if e.Writable? {
      DrainConserves(o, e.rs);
    }
  }

  /** And no byte is written after it. */
  lemma {:induction false} NothingAfterHalfClose(o: Output, es: seq<Event>)
    requires Possible(o, es) && o.shut
    ensures Run(o, es).shut && Run(o, es).wire == o.wire
    decreases |es|
  {
    if es != [] {
      ShutStaysShut(o, es[0]);
      NothingAfterHalfClose(Step(o, es[0]), es[1..]);
    }
  }

  lemma {:induction false} ShutStaysShut(o: Output, e: Event)
    requires Enabled(o, e) && o.shut
    ensures Step(o, e).shut && Step(o, e).wire == o.wire
  {
    match e
    case SendMessage(m, r) => assert o.wire + FrameBytes(m)[..0] == o.wire;
    case Writable(rs) => DrainConserves(o, rs); NothingTaken(o, rs);
    case _ =>
  }

  lemma {:induction false} NothingTaken(o: Output, rs: seq<WriteResult>)
    requires Answers(|o.buffered|, rs) && forall i :: 0 <= i < |rs| ==> !rs[i].Wrote?
    ensures DrainStep(o, rs).wire == o.wire
    decreases |rs|
  {
    if o.buffered != [] && rs != [] && rs[0].Interrupted? {
      NothingTaken(o, rs[1..]);
    }
  }

  // ------------------------------------------------------------------ end to end

  /**
   * End to end: whatever the schedule of partial writes and EAGAIN, and however the peer's reads split the
   * bytes that have reached it, the messages it has been handed are a prefix of those kept by the sender.
   */
  lemma {:induction false} EndToEnd(es: seq<Event>, chunks: seq<seq<byte>>)
    requires Possible(Fresh, es) && Flatten(chunks) <= Run(Fresh, es).wire
    ensures Feed([], chunks).msgs <= Sent(Kept(Fresh, es))
    ensures NeverDrops(Fresh, es) ==> Feed([], chunks).msgs <= Sent(Offered(Fresh, es))
    ensures Flatten(chunks) == Stream(Kept(Fresh, es)) ==> Feed([], chunks) == Delivery(Sent(Kept(Fresh, es)), [])
  {
    RunConserves(Fresh, es);
    KeptIsShorter(Fresh, es);
    var msgs, o := Kept(Fresh, es), Run(Fresh, es);
    assert [] + [] + Stream(msgs) == Stream(msgs);
    assert o.wire <= o.wire + o.buffered;
    StreamInChunks(msgs, chunks);
    SentPrefix(msgs, WholeFrames(msgs, |Flatten(chunks)|));
    if Flatten(chunks) == Stream(msgs) {
      WholeStreamInChunks(msgs, chunks);
    }
  }
}
