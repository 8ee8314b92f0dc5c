// Streams of whole frames: what a receiver makes of any part of one, however it is cut.

module FrameStream {
  import opened Bytes
  import opened Protocol
  import opened Framer

  /** The bytes of a list of messages sent one after the other. */
  function Stream(msgs: seq<Message>): (bs: seq<byte>) {
    if msgs == [] then [] else FrameBytes(msgs[0]) + Stream(msgs[1..])
  }

  /** The messages a receiver should see: every one whose body fits in a frame, normalised. */
  function Sent(msgs: seq<Message>): (r: seq<Message>) {
    if msgs == [] then []
    else (if |msgs[0].body| > MAX_BODY_LEN then [] else [Normalised(msgs[0])]) + Sent(msgs[1..])
  }

  /** How many frames lie wholly within the first `n` bytes of the stream. */
  function WholeFrames(msgs: seq<Message>, n: nat): (k: nat)
    ensures k <= |msgs|
  {
    if msgs == [] || n < |FrameBytes(msgs[0])| then 0 else 1 + WholeFrames(msgs[1..], n - |FrameBytes(msgs[0])|)
  }

  lemma FrontOfFrame(m: Message, rest: seq<byte>)
    requires |m.body| <= MAX_BODY_LEN
    ensures var bs := FrameBytes(m) + rest;
            FrontOf(bs) == Whole(Normalised(m).header)
            && FirstMessage(bs) == Normalised(m) && AfterFirst(bs) == rest
  {
    var bs := FrameBytes(m) + rest;
    var h := Normalised(m).header;
    HeaderRoundTrip(h);
    CutTwice(HeaderBytes(h), m.body, rest);
    hide HeaderBytes, ParseHeader, FirstMessage, AfterFirst;
    assert FrontOf(bs) == Whole(h);
    hide FrontOf;
    OneFrame(bs, h, m.body, rest);
  }

  lemma CutTwice(a: seq<byte>, b: seq<byte>, c: seq<byte>)
    ensures (a + b + c)[..|a|] == a && (a + b + c)[|a|..] == b + c
  {
  }

  lemma FramePrefixIncomplete(m: Message, p: seq<byte>)
    requires p < FrameBytes(m)
    ensures FrontOf(p).Incomplete?
  {
    if |p| >= HEADER_SIZE {
      var h := Normalised(m).header;
      HeaderRoundTrip(h);
      assert p[..HEADER_SIZE] == FrameBytes(m)[..HEADER_SIZE] == HeaderBytes(h);
    }
  }

  lemma {:induction false} StreamCons(m: Message, msgs: seq<Message>)
    ensures Stream([m] + msgs) == FrameBytes(m) + Stream(msgs)
    ensures Sent([m] + msgs) == (if |m.body| > MAX_BODY_LEN then [] else [Normalised(m)]) + Sent(msgs)
  {
    assert ([m] + msgs)[1..] == msgs;
  }

  /** One frame at the front of anything is delivered first, or not at all if it is oversized. */
  lemma {:induction false} DeliverFrame(m: Message, rest: seq<byte>)
    ensures BadTail(FrameBytes(m) + rest) == BadTail(rest)
    ensures Deliver(FrameBytes(m) + rest) == Delivery(Sent([m]), []).Then(Deliver(rest))
  {
    hide Deliver, BadTail, FrontOf, FirstMessage, AfterFirst, Sent, HeaderBytes;
    SentOne(m);
    if |m.body| <= MAX_BODY_LEN {
      hide FrameBytes;
      FrontOfFrame(m, rest);
      UnfoldWhole(FrameBytes(m) + rest);
    } else {
      assert FrameBytes(m) + rest == rest;
      assert Delivery([], []).Then(Deliver(rest)) == Deliver(rest);
    }
  }

  lemma SentOne(m: Message)
    ensures Sent([m]) == if |m.body| > MAX_BODY_LEN then [] else [Normalised(m)]
  {
    assert [m][1..] == [];
  }

  /** `d` holds exactly the first `k` messages of the stream, `p` their frames and the unfinished next frame. */
  predicate ExactUpTo(msgs: seq<Message>, k: nat, p: seq<byte>, d: Delivery)
    requires k <= |msgs|
  {
    && d.msgs == Sent(msgs[..k])
    && p == Stream(msgs[..k]) + d.rest
    && (if k == |msgs| then d.rest == [] else d.rest < FrameBytes(msgs[k]))
  }

  /** `d` is what the arrived part `p` of the stream should deliver and leave behind. */
  predicate Exact(msgs: seq<Message>, p: seq<byte>, d: Delivery) {
    ExactUpTo(msgs, WholeFrames(msgs, |p|), p, d)
  }

  lemma ExactCons(m: Message, msgs: seq<Message>, q: seq<byte>, d: Delivery)
    requires Exact(msgs, q, d)
    ensures Exact([m] + msgs, FrameBytes(m) + q, Delivery(Sent([m]), []).Then(d))
  {
    hide FrameBytes, ExactUpTo;
    var j := WholeFrames(msgs, |q|);
    WholeFramesCons(m, msgs, |q|);
    ExactUpToCons(m, msgs, j, q, d);
  }

  lemma WholeFramesCons(m: Message, msgs: seq<Message>, n: nat)
    ensures WholeFrames([m] + msgs, |FrameBytes(m)| + n) == WholeFrames(msgs, n) + 1
  {
    assert ([m] + msgs)[1..] == msgs;
  }

  lemma ExactUpToCons(m: Message, msgs: seq<Message>, j: nat, q: seq<byte>, d: Delivery)
    requires j <= |msgs| && ExactUpTo(msgs, j, q, d)
    ensures ExactUpTo([m] + msgs, j + 1, FrameBytes(m) + q, Delivery(Sent([m]), []).Then(d))
  {
    var kept := msgs[..j];
    assert ([m] + msgs)[..j + 1] == [m] + kept;
    StreamCons(m, kept);
    SentOne(m);
    Reassociate(FrameBytes(m), Stream(kept), d.rest);
  }

  lemma Reassociate(a: seq<byte>, b: seq<byte>, c: seq<byte>)
    ensures a + (b + c) == a + b + c
  {
  }

  /**
   * Any part of a stream of frames that has arrived delivers exactly the messages whose frames it contains,
   * in order, and leaves exactly the unfinished frame.
   */
  lemma {:induction false} PartialStream(msgs: seq<Message>, p: seq<byte>)
    requires p <= Stream(msgs)
    ensures BadTail(p).None? && Exact(msgs, p, Deliver(p))
  {
    hide FrameBytes;
    if msgs == [] {
    } else if |p| < |FrameBytes(msgs[0])| {
      ShortOfAFrame(msgs, p);
    } else {
      var head := FrameBytes(msgs[0]);
      var q := p[|head|..];
      assert p == head + q;
      PartialStream(msgs[1..], q);
      PartialCons(msgs[0], msgs[1..], q);
      assert [msgs[0]] + msgs[1..] == msgs;
    }
  }

  lemma {:induction false} PartialCons(m: Message, msgs: seq<Message>, q: seq<byte>)
    requires BadTail(q).None? && Exact(msgs, q, Deliver(q))
    ensures var p := FrameBytes(m) + q; BadTail(p).None? && Exact([m] + msgs, p, Deliver(p))
  {
    DeliverFrame(m, q);
    ExactCons(m, msgs, q, Deliver(q));
  }

  lemma {:induction false} ShortOfAFrame(msgs: seq<Message>, p: seq<byte>)
    requires msgs != [] && p <= Stream(msgs) && |p| < |FrameBytes(msgs[0])|
    ensures BadTail(p).None? && Exact(msgs, p, Deliver(p))
  {
    assert p < FrameBytes(msgs[0]);
    FramePrefixIncomplete(msgs[0], p);
    assert [] + p == p;
  }

  /** The same, for the reads of a connection: any split of any part of a stream of frames. */
  lemma {:induction false} StreamInChunks(msgs: seq<Message>, chunks: seq<seq<byte>>)
    requires Flatten(chunks) <= Stream(msgs)
    ensures Exact(msgs, Flatten(chunks), Feed([], chunks))
  {
    var p := Flatten(chunks);
    PartialStream(msgs, p);
    assert [] + p == p;
    FeedIsDeliver([], chunks);
  }

  lemma {:induction false} AllFramesWhole(msgs: seq<Message>)
    ensures WholeFrames(msgs, |Stream(msgs)|) == |msgs|
  {
    if msgs != [] {
      AllFramesWhole(msgs[1..]);
    }
  }

  /** Once the whole stream has arrived, every message has been delivered and nothing is left over. */
  lemma {:induction false} WholeStreamInChunks(msgs: seq<Message>, chunks: seq<seq<byte>>)
    requires Flatten(chunks) == Stream(msgs)
    ensures Feed([], chunks) == Delivery(Sent(msgs), [])
  {
    AllFramesWhole(msgs);
    StreamInChunks(msgs, chunks);
    assert msgs[..|msgs|] == msgs;
  }

  lemma {:induction false} SentPrefix(msgs: seq<Message>, k: nat)
    requires k <= |msgs|
    ensures Sent(msgs[..k]) <= Sent(msgs)
  {
    if k > 0 {
      SentPrefix(msgs[1..], k - 1);
      assert msgs[..k] == [msgs[0]] + msgs[1..][..k - 1];
      StreamCons(msgs[0], msgs[1..][..k - 1]);
    }
  }

  // ------------------------------------------------------------------ what a frame leaves of a message

  /** The body and every header field that is the sender's to choose. */
  predicate SameToReader(sent: Message, got: Message) {
    && got.body == sent.body
    && got.header.flags == sent.header.flags && got.header.msgType == sent.header.msgType
    && got.header.status == sent.header.status && got.header.requestId == sent.header.requestId
    && got.header.methodId == sent.header.methodId && got.header.timeoutMs == sent.header.timeoutMs
    && got.header.traceId == sent.header.traceId && got.header.reserved == sent.header.reserved
  }

  predicate AllFit(msgs: seq<Message>) {
    forall i :: 0 <= i < |msgs| ==> |msgs[i].body| <= MAX_BODY_LEN
  }

  /** A stream read to its end hands over every message as it was sent, in order, if all of them fit in frames. */
  lemma {:induction false} ReceivedAsSent(msgs: seq<Message>, chunks: seq<seq<byte>>)
    requires AllFit(msgs) && Flatten(chunks) == Stream(msgs)
    ensures var got := Feed([], chunks).msgs;
            |got| == |msgs| && forall i :: 0 <= i < |msgs| ==> SameToReader(msgs[i], got[i])
  {
    WholeStreamInChunks(msgs, chunks);
    SentAsChosen(msgs);
  }

  lemma {:induction false} SentAsChosen(msgs: seq<Message>)
    requires AllFit(msgs)
    ensures |Sent(msgs)| == |msgs| && forall i :: 0 <= i < |msgs| ==> SameToReader(msgs[i], Sent(msgs)[i])
  {
    if msgs != [] {
      SentAsChosen(msgs[1..]);
      assert SameToReader(msgs[0], Normalised(msgs[0]));
      hide SameToReader, Normalised;
      var rest := Sent(msgs[1..]);
      forall i | 0 <= i < |msgs|
        ensures SameToReader(msgs[i], ([Normalised(msgs[0])] + rest)[i])
      {
        if i > 0 {
          assert SameToReader(msgs[1..][i - 1], rest[i - 1]);
        }
      }
    }
  }
}
