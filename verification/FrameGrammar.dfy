// The streams that the framer takes apart, and how (src/RpcFramer.cpp).

module FrameGrammar {
  import opened Bytes
  import opened Protocol
  import opened Framer

  /** The header of a frame the framer will take: "MP", version 2, and a body of at most 64 MB. */
  predicate Good(h: Header) {
    h.magic == 0x4D50 && h.version == 2 && h.bodyLen <= 67_108_864
  }

  predicate GoodMessage(m: Message) {
    Good(m.header) && |m.body| == m.header.bodyLen
  }

  /** The frames of messages as they stand in the stream, whoever wrote them. */
  function Frames(ms: seq<Message>): (bs: seq<byte>) {
    if ms == [] then [] else HeaderBytes(ms[0].header) + ms[0].body + Frames(ms[1..])
  }

  /** A frame may still become of these bytes. */
  predicate Unfinished(bs: seq<byte>) {
    |bs| < 32 || (var h := ParseHeader(bs[..32]); Good(h) && |bs| < 32 + h.bodyLen)
  }

  /** No frame can become of these bytes. */
  predicate Broken(bs: seq<byte>) {
    |bs| >= 32 && !Good(ParseHeader(bs[..32]))
  }

  /** Whole frames of exactly these messages, and then a tail: kept if unfinished, dropped if broken. */
  ghost predicate TakenApart(bs: seq<byte>, d: Delivery, tail: seq<byte>) {
    && (forall i :: 0 <= i < |d.msgs| ==> GoodMessage(d.msgs[i]))
    && bs == Frames(d.msgs) + tail
    && ((Unfinished(tail) && d.rest == tail) || (Broken(tail) && d.rest == []))
  }

  lemma FrontExactly(bs: seq<byte>)
    ensures FrontOf(bs).Incomplete? <==> Unfinished(bs)
    ensures FrontOf(bs).Bad? <==> Broken(bs)
  {
  }

  lemma WholeFront(m: Message, rest: seq<byte>)
    requires GoodMessage(m)
    ensures var bs := HeaderBytes(m.header) + m.body + rest;
            FrontOf(bs) == Whole(m.header) && FirstMessage(bs) == m && AfterFirst(bs) == rest
  {
    hide HeaderBytes, ParseHeader;
    HeaderRoundTrip(m.header);
    var bs := HeaderBytes(m.header) + m.body + rest;
    assert bs[..HEADER_SIZE] == HeaderBytes(m.header);
    assert bs[HEADER_SIZE..] == m.body + rest;
    OneFrame(bs, m.header, m.body, rest);
  }

  lemma {:induction false} FrontIsFrame(bs: seq<byte>)
    requires FrontOf(bs).Whole?
    ensures GoodMessage(FirstMessage(bs))
    ensures bs == HeaderBytes(FirstMessage(bs).header) + FirstMessage(bs).body + AfterFirst(bs)
  {
    hide HeaderBytes, ParseHeader;
    HeaderOnto(bs[..HEADER_SIZE]);
    var n := HEADER_SIZE + FrontOf(bs).header.bodyLen;
    assert bs == bs[..HEADER_SIZE] + bs[HEADER_SIZE..n] + bs[n..];
  }

  lemma {:induction false} DeliveredIsTakenApart(bs: seq<byte>) returns (tail: seq<byte>)
    ensures TakenApart(bs, Deliver(bs), tail)
    decreases |bs|
  {
    FrontExactly(bs);
    if FrontOf(bs).Whole? {
      FrontIsFrame(bs);
      tail := DeliveredIsTakenApart(AfterFirst(bs));
      UnfoldWhole(bs);
      hide Deliver, FrontOf, FirstMessage, AfterFirst, GoodMessage, Unfinished, Broken;
      OneMoreFrame(FirstMessage(bs), AfterFirst(bs), Deliver(AfterFirst(bs)), tail);
    } else {
      tail := bs;
      assert [] + bs == bs;
    }
  }

  lemma {:induction false} OneMoreFrame(m: Message, rest: seq<byte>, d: Delivery, tail: seq<byte>)
    requires GoodMessage(m) && TakenApart(rest, d, tail)
    ensures TakenApart(HeaderBytes(m.header) + m.body + rest, Delivery([m], []).Then(d), tail)
  {
    hide GoodMessage, Unfinished, Broken;
    assert ([m] + d.msgs)[1..] == d.msgs;
    var front := HeaderBytes(m.header) + m.body;
    assert front + (Frames(d.msgs) + tail) == front + Frames(d.msgs) + tail;
  }

  lemma {:induction false} FramesFirst(ms: seq<Message>, tail: seq<byte>)
    requires ms != []
    ensures Frames(ms) + tail == HeaderBytes(ms[0].header) + ms[0].body + (Frames(ms[1..]) + tail)
  {
    var front := HeaderBytes(ms[0].header) + ms[0].body;
    assert front + Frames(ms[1..]) + tail == front + (Frames(ms[1..]) + tail);
  }

  lemma {:induction false} TakenApartIsDelivered(bs: seq<byte>, d: Delivery, tail: seq<byte>)
    requires TakenApart(bs, d, tail)
    ensures Deliver(bs) == d
    decreases |d.msgs|
  {
    hide *;
    if d.msgs == [] {
      NoFrames(bs, d, tail);
    } else {
      var m, more := d.msgs[0], Delivery(d.msgs[1..], d.rest);
      var rest := Frames(more.msgs) + tail;
      OneFrameLess(bs, d, tail);
      WholeFront(m, rest);
      TakenApartIsDelivered(rest, more, tail);
      UnfoldWhole(bs);
      ThenBack(m, d);
    }
  }

  lemma {:induction false} OneFrameLess(bs: seq<byte>, d: Delivery, tail: seq<byte>)
    requires d.msgs != [] && TakenApart(bs, d, tail)
    ensures var rest := Frames(d.msgs[1..]) + tail;
            && TakenApart(rest, Delivery(d.msgs[1..], d.rest), tail) && GoodMessage(d.msgs[0])
            && bs == HeaderBytes(d.msgs[0].header) + d.msgs[0].body + rest
  {
    hide GoodMessage, HeaderBytes, Unfinished, Broken;
    FramesFirst(d.msgs, tail);
    hide Frames;
  }

  lemma ThenBack(m: Message, d: Delivery)
    requires d.msgs != [] && m == d.msgs[0]
    ensures Delivery([m], []).Then(Delivery(d.msgs[1..], d.rest)) == d
  {
    assert [m] + d.msgs[1..] == d.msgs;
  }

  lemma {:induction false} NoFrames(bs: seq<byte>, d: Delivery, tail: seq<byte>)
    requires d.msgs == [] && TakenApart(bs, d, tail)
    ensures Deliver(bs) == d
  {
    assert [] + tail == tail;
    FrontExactly(bs);
    hide Unfinished, Broken, FrontOf;
  }

  /**
   * What one call of the decoder makes of any buffer: it delivers exactly the messages of the good frames in front,
   * keeps what follows them if a frame may still become of it, and drops it if its header is bad.
   */
  lemma {:induction false} DecodedExactly(bs: seq<byte>, d: Delivery)
    ensures Deliver(bs) == d <==> exists tail :: TakenApart(bs, d, tail)
  {
    hide Deliver, TakenApart;
    if Deliver(bs) == d {
      var tail := DeliveredIsTakenApart(bs);
    }
    if tail :| TakenApart(bs, d, tail) {
      TakenApartIsDelivered(bs, d, tail);
    }
  }
}
