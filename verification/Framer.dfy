// Framing over a TCP byte stream (src/RpcFramer.cpp).

module Framer {
  import opened Bytes
  import opened Buffers
  import opened Protocol

  datatype Message = Message(header: Header, body: seq<byte>)

  // ------------------------------------------------------------------ specification

  /** The message a receiver sees: magic, version and body length are the framer's, not the sender's. */
  function Normalised(m: Message): (n: Message)
    requires |m.body| <= MAX_BODY_LEN
  {
    m.(header := m.header.(magic := MAGIC, version := VERSION, bodyLen := |m.body|))
  }

  /** The frame of a message; a message with an oversized body has none. */
  function FrameBytes(m: Message): (bs: seq<byte>) {
    if |m.body| > MAX_BODY_LEN then [] else HeaderBytes(Normalised(m).header) + m.body
  }

  /** What stands at the front of the input buffer. */
  datatype Front = Incomplete | Bad | Whole(header: Header)

  function FrontOf(bs: seq<byte>): (f: Front)
    ensures f.Bad? ==> |bs| >= HEADER_SIZE
    ensures f.Whole? ==> |bs| >= HEADER_SIZE + f.header.bodyLen
  {
    if |bs| < HEADER_SIZE then
      Incomplete
    else
      var h := ParseHeader(bs[..HEADER_SIZE]);
      if !Accepts(h) || h.bodyLen > MAX_BODY_LEN then Bad
      else if |bs| < HEADER_SIZE + h.bodyLen then Incomplete
      else Whole(h)
  }

  datatype Delivery = Delivery(msgs: seq<Message>, rest: seq<byte>) {
    /** This delivery followed by a later one. */
    function Then(d: Delivery): Delivery {
      Delivery(msgs + d.msgs, d.rest)
    }
  }

  function FirstMessage(bs: seq<byte>): (m: Message)
    requires FrontOf(bs).Whole?
  {
    var h := FrontOf(bs).header;
    Message(h, bs[HEADER_SIZE..HEADER_SIZE + h.bodyLen])
  }

  function AfterFirst(bs: seq<byte>): (rest: seq<byte>)
    requires FrontOf(bs).Whole?
    ensures |rest| < |bs|
  {
    bs[HEADER_SIZE + FrontOf(bs).header.bodyLen..]
  }

  /** What one call of the decoder delivers from a buffer and leaves in it; a bad header drains everything. */
  function Deliver(bs: seq<byte>): (d: Delivery)
    decreases |bs|
  {
    match FrontOf(bs)
    case Incomplete => Delivery([], bs)
    case Bad => Delivery([], [])
    case Whole(h) => Delivery([FirstMessage(bs)], []).Then(Deliver(AfterFirst(bs)))
  }

  /** How many bytes were still buffered when the decoder met a bad header, if it met one. */
  function BadTail(bs: seq<byte>): (n: Option<nat>)
    ensures n.Some? ==> HEADER_SIZE <= n.value <= |bs|
    decreases |bs|
  {
    match FrontOf(bs)
    case Incomplete => None
    case Bad => Some(|bs|)
    case Whole(h) => BadTail(AfterFirst(bs))
  }

  /** A connection's input path: append each read, then decode. */
  function Feed(buffered: seq<byte>, chunks: seq<seq<byte>>): (d: Delivery)
    decreases |chunks|
  {
    if chunks == [] then
      Delivery([], buffered)
    else
      var d := Deliver(buffered + chunks[0]);
      d.Then(Feed(d.rest, chunks[1..]))
  }

  function Flatten(chunks: seq<seq<byte>>): (bs: seq<byte>) {
    if chunks == [] then [] else chunks[0] + Flatten(chunks[1..])
  }

  // ------------------------------------------------------------------ the code

  /** `RpcFramer::encode`: the frame is sized first and filled in place. */
  method Encode(m: Message) returns (frame: seq<byte>)
    ensures frame == FrameBytes(m)
  {
    if |m.body| > MAX_BODY_LEN {
      return [];
    }
    var header := m.header.(magic := MAGIC, version := VERSION, bodyLen := |m.body|);
    var buf := new byte[HEADER_SIZE + |m.body|](_ => 0);
    EncodeHeader(header, buf);
    CopyInto(buf, HEADER_SIZE, m.body);
    frame := buf[..];
  }

  /** `RpcFramer::decode`: `msgs` are the messages handed to the callback, in order. */
  method Decode(buffer: Buffer) returns (msgs: seq<Message>)
    requires buffer.Valid()
    modifies buffer
    ensures buffer.Valid() && buffer.data == old(buffer.data)
    ensures Delivery(msgs, buffer.Contents()) == Deliver(old(buffer.Contents()))
  {
    hide ParseHeader;
    msgs := [];
    ghost var all := buffer.Contents();
    while buffer.ReadableBytes() >= HEADER_SIZE
      invariant buffer.Valid() && buffer.data == old(buffer.data)
      invariant Deliver(all) == Delivery(msgs, []).Then(Deliver(buffer.Contents()))
      decreases buffer.ReadableBytes()
    {
      var raw := buffer.Peek(HEADER_SIZE);
      var header := ParseHeader(raw);
      if !Accepts(header) || header.bodyLen > MAX_BODY_LEN {
        buffer.RetrieveAll();
        return;
      }
      if buffer.ReadableBytes() < HEADER_SIZE + header.bodyLen {
        return;
      }
      DeliverOne(msgs, buffer.Contents());
      var msg := TakeFrame(buffer, header);
      msgs := msgs + [msg];
    }
  }

  /** The read loop of `handleRead`: `chunks` are the reads that brought bytes, in order. */
  method HandleRead(buffer: Buffer, chunks: seq<seq<byte>>) returns (msgs: seq<Message>)
    requires buffer.Valid()
    modifies buffer, buffer.data
    ensures buffer.Valid() && (buffer.data == old(buffer.data) || fresh(buffer.data))
    ensures Delivery(msgs, buffer.Contents()) == Feed(old(buffer.Contents()), chunks)
  {
    hide Deliver;
    msgs := [];
    ghost var all := Feed(buffer.Contents(), chunks);
    for i := 0 to |chunks|
      invariant buffer.Valid() && (buffer.data == old(buffer.data) || fresh(buffer.data))
      invariant all == Delivery(msgs, []).Then(Feed(buffer.Contents(), chunks[i..]))
    {
      ghost var before := buffer.Contents();
      FeedOne(msgs, before, chunks[i..]);
      buffer.Append(chunks[i]);
      var more := Decode(buffer);
      assert chunks[i..][1..] == chunks[i + 1..];
      msgs := msgs + more;
    }
  }

  lemma {:induction false} FeedOne(msgs: seq<Message>, buffered: seq<byte>, chunks: seq<seq<byte>>)
    requires chunks != []
    ensures var d := Deliver(buffered + chunks[0]);
            Delivery(msgs, []).Then(Feed(buffered, chunks)) ==
            Delivery(msgs + d.msgs, []).Then(Feed(d.rest, chunks[1..]))
  {
    hide Deliver;
    var d := Deliver(buffered + chunks[0]);
    ThenAssociative(msgs, d, Feed(d.rest, chunks[1..]));
  }

  lemma {:induction false} DeliverOne(msgs: seq<Message>, bs: seq<byte>)
    requires FrontOf(bs).Whole?
    ensures Delivery(msgs, []).Then(Deliver(bs)) ==
            Delivery(msgs + [FirstMessage(bs)], []).Then(Deliver(AfterFirst(bs)))
  {
    ThenAssociative(msgs, Delivery([FirstMessage(bs)], []), Deliver(AfterFirst(bs)));
  }

  /** Removes a complete frame from the front of the buffer. */
  method TakeFrame(buffer: Buffer, header: Header) returns (msg: Message)
    requires buffer.Valid() && FrontOf(buffer.Contents()) == Whole(header)
    modifies buffer
    ensures buffer.Valid() && buffer.data == old(buffer.data)
    ensures msg == FirstMessage(old(buffer.Contents()))
    ensures buffer.Contents() == AfterFirst(old(buffer.Contents()))
  {
    ghost var bs := buffer.Contents();
    buffer.Retrieve(HEADER_SIZE);
    var body := [];
    if header.bodyLen > 0 {
      body := buffer.RetrieveAsString(header.bodyLen);
    }
    msg := Message(header, body);
    OneFrame(bs, header, body, buffer.Contents());
  }

  lemma OneFrame(bs: seq<byte>, h: Header, body: seq<byte>, rest: seq<byte>)
    requires FrontOf(bs) == Whole(h)
    requires bs[HEADER_SIZE..] == body + rest && |body| == h.bodyLen
    ensures FirstMessage(bs) == Message(h, body) && AfterFirst(bs) == rest
  {
    assert bs[HEADER_SIZE..][..h.bodyLen] == bs[HEADER_SIZE..HEADER_SIZE + h.bodyLen];
    assert bs[HEADER_SIZE..][h.bodyLen..] == bs[HEADER_SIZE + h.bodyLen..];
  }

  // ------------------------------------------------------------------ splitting a stream

  lemma FrontExtend(a: seq<byte>, b: seq<byte>)
    ensures FrontOf(a).Incomplete? || FrontOf(a + b) == FrontOf(a)
    ensures FrontOf(a).Whole? ==> FirstMessage(a + b) == FirstMessage(a) && AfterFirst(a + b) == AfterFirst(a) + b
  {
    if |a| >= HEADER_SIZE {
      assert (a + b)[..HEADER_SIZE] == a[..HEADER_SIZE];
    }
  }

  /** Decoding in two goes is decoding at once, as long as the first go meets no bad header. */
  lemma {:induction false} DeliverAppend(a: seq<byte>, b: seq<byte>)
    requires BadTail(a).None?
    ensures FrontOf(Deliver(a).rest).Incomplete?
    ensures Deliver(a + b) == Deliver(a).Then(Deliver(Deliver(a).rest + b))
    ensures BadTail(a + b) == BadTail(Deliver(a).rest + b)
    decreases |a|
  {
    FrontExtend(a, b);
    if FrontOf(a).Whole? {
      DeliverAppend(AfterFirst(a), b);
      ThenAssociative([FirstMessage(a)], Deliver(AfterFirst(a)), Deliver(Deliver(a).rest + b));
    } else {
      assert Deliver(a).Then(Deliver(a + b)) == Deliver(a + b);
    }
  }

  lemma ThenAssociative(first: seq<Message>, d: Delivery, e: Delivery)
    ensures Delivery(first, []).Then(d).Then(e) == Delivery(first, []).Then(d.Then(e))
  {
    assert first + d.msgs + e.msgs == first + (d.msgs + e.msgs);
  }

  /** A bad header, once complete, is met however much arrives after it. */
  lemma {:induction false} BadTailAppend(a: seq<byte>, b: seq<byte>)
    requires BadTail(a).Some?
    ensures BadTail(a + b) == Some(BadTail(a).value + |b|)
    decreases |a|
  {
    hide ParseHeader;
    FrontExtend(a, b);
    if FrontOf(a).Whole? {
      BadTailAppend(AfterFirst(a), b);
    } else {
      UnfoldBad(a);
      UnfoldBad(a + b);
    }
  }

  /** Whatever arrives together with a bad header is drained with it. */
  lemma {:induction false} DrainAppend(a: seq<byte>, b: seq<byte>)
    requires BadTail(a).Some?
    ensures Deliver(a + b) == Deliver(a) && Deliver(a).rest == []
    decreases |a|
  {
    FrontExtend(a, b);
    if FrontOf(a).Whole? {
      DrainAppend(AfterFirst(a), b);
      UnfoldWhole(a);
      UnfoldWhole(a + b);
    } else {
      UnfoldBad(a);
      UnfoldBad(a + b);
    }
  }

  lemma {:induction false} UnfoldBad(bs: seq<byte>)
    requires FrontOf(bs).Bad?
    ensures BadTail(bs) == Some(|bs|) && Deliver(bs) == Delivery([], [])
  {
  }

  lemma {:induction false} UnfoldWhole(bs: seq<byte>)
    requires FrontOf(bs).Whole?
    ensures Deliver(bs) == Delivery([FirstMessage(bs)], []).Then(Deliver(AfterFirst(bs)))
    ensures BadTail(bs) == BadTail(AfterFirst(bs))
  {
  }

  lemma {:induction false} FeedNothing(chunks: seq<seq<byte>>)
    requires Flatten(chunks) == []
    ensures Feed([], chunks) == Delivery([], [])
    decreases |chunks|
  {
    if chunks != [] {
      assert [] + chunks[0] == [];
      FeedNothing(chunks[1..]);
    }
  }

  /** The stream may be split at will if no bad header is met before its last 32 bytes. */
  predicate Splittable(bs: seq<byte>) {
    BadTail(bs).None? || BadTail(bs).value == HEADER_SIZE
  }

  lemma {:induction false} FeedIsDeliver(buffered: seq<byte>, chunks: seq<seq<byte>>)
    requires FrontOf(buffered).Incomplete? && Splittable(buffered + Flatten(chunks))
    ensures Feed(buffered, chunks) == Deliver(buffered + Flatten(chunks))
    decreases |chunks|
  {
    if chunks == [] {
      assert buffered + [] == buffered;
    } else {
      var a, b := buffered + chunks[0], Flatten(chunks[1..]);
      assert buffered + Flatten(chunks) == a + b;
      if BadTail(a).None? {
        DeliverAppend(a, b);
        FeedIsDeliver(Deliver(a).rest, chunks[1..]);
      } else {
        BadTailAppend(a, b);
        DrainAppend(a, b);
        FeedNothing(chunks[1..]);
        assert Deliver(a).Then(Delivery([], [])) == Deliver(a);
      }
    }
  }

  lemma {:induction false} DropLastByte(bs: seq<byte>)
    requires BadTail(bs).Some? && BadTail(bs).value > HEADER_SIZE
    ensures BadTail(bs[..|bs| - 1]).Some?
    decreases |bs|
  {
    hide ParseHeader;
    var a := bs[..|bs| - 1];
    assert a[..HEADER_SIZE] == bs[..HEADER_SIZE];
    if FrontOf(bs).Whole? {
      DropLastByte(AfterFirst(bs));
      assert AfterFirst(a) == AfterFirst(bs)[..|AfterFirst(bs)| - 1];
    }
  }

  /** Reading a stream gives the same messages and leftover however it is cut. */
  ghost predicate ChunkingIndependent(bs: seq<byte>) {
    forall chunks :: Flatten(chunks) == bs ==> Feed([], chunks) == Deliver(bs)
  }

  /**
   * Exactly when the split does not matter: the stream has no bad header, or nothing follows the first one.
   * Otherwise the drain drops bytes that another split would have kept.
   */
  lemma ChunkingIndependence(bs: seq<byte>)
    ensures ChunkingIndependent(bs) <==> Splittable(bs)
  {
    if Splittable(bs) {
      forall chunks | Flatten(chunks) == bs
        ensures Feed([], chunks) == Deliver(bs)
      {
        assert [] + bs == bs;
        FeedIsDeliver([], chunks);
      }
    } else {
      LateDrain(bs);
    }
  }

  /** The witness: reading the last byte by itself leaves that byte in the buffer. */
  lemma {:induction false} LateDrain(bs: seq<byte>)
    requires BadTail(bs).Some? && BadTail(bs).value > HEADER_SIZE
    ensures var chunks := [bs[..|bs| - 1], bs[|bs| - 1..]];
            Flatten(chunks) == bs && Feed([], chunks) != Deliver(bs)
  {
    var a, b := bs[..|bs| - 1], bs[|bs| - 1..];
    assert a + b == bs;
    DropLastByte(bs);
    DrainAppend(a, b);
    FlattenTwo(a, b);
    FeedTwo(a, b);
  }

  lemma FlattenTwo(a: seq<byte>, b: seq<byte>)
    ensures Flatten([a, b]) == a + b
  {
    assert [a, b][1..] == [b] && [b][1..] == [];
    assert Flatten([b]) == b + [];
  }

  lemma {:induction false} FeedTwo(a: seq<byte>, b: seq<byte>)
    ensures Feed([], [a, b]).rest == Deliver(Deliver(a).rest + b).rest
  {
    assert [a, b][1..] == [b] && [b][1..] == [];
    assert [] + a == a;
    assert Feed(Deliver(a).rest, [b]).rest == Deliver(Deliver(a).rest + b).rest;
  }
}
