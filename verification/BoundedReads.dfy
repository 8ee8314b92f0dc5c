// Framing when no read brings more than 4096 bytes (src/TcpConnection.cpp, src/RpcFramer.cpp).

module BoundedReads {
  import opened Bytes
  import opened Protocol
  import opened Framer

  /** The size of the array `handleRead` reads into. */
  const READ_SIZE := 4096

  predicate Reads(chunks: seq<seq<byte>>) {
    forall i :: 0 <= i < |chunks| ==> 0 < |chunks[i]| <= READ_SIZE
  }

  /** One of the ways in which the reads can cut the stream. */
  predicate Cuts(chunks: seq<seq<byte>>, bs: seq<byte>) {
    Reads(chunks) && Flatten(chunks) == bs
  }

  /** All of them give the same messages and leave the same bytes in the buffer. */
  ghost predicate CutsAgree(bs: seq<byte>) {
    forall a, b :: Cuts(a, bs) && Cuts(b, bs) ==> Feed([], a) == Feed([], b)
  }

  // ------------------------------------------------------------------ reads in a row

  lemma {:induction false} FlattenConcat(a: seq<seq<byte>>, b: seq<seq<byte>>)
    ensures Flatten(a + b) == Flatten(a) + Flatten(b)
    decreases |a|
  {
    if a == [] {
      assert a + b == b;
    } else {
      assert (a + b)[1..] == a[1..] + b;
      FlattenConcat(a[1..], b);
    }
  }

  lemma {:induction false} FeedConcat(buffered: seq<byte>, a: seq<seq<byte>>, b: seq<seq<byte>>)
    ensures Feed(buffered, a + b) == Feed(buffered, a).Then(Feed(Feed(buffered, a).rest, b))
    decreases |a|
  {
    hide Deliver;
    if a == [] {
      assert a + b == b;
    } else {
      assert (a + b)[1..] == a[1..] + b;
      var d := Deliver(buffered + a[0]);
      FeedConcat(d.rest, a[1..], b);
    }
  }

  lemma {:induction false} FeedCons(buffered: seq<byte>, chunk: seq<byte>, b: seq<seq<byte>>)
    ensures var d := Deliver(buffered + chunk); Feed(buffered, [chunk] + b) == d.Then(Feed(d.rest, b))
    ensures Flatten([chunk] + b) == chunk + Flatten(b)
  {
    hide Deliver;
    assert ([chunk] + b)[1..] == b;
  }

  /** The stream read byte by byte. */
  function Singles(bs: seq<byte>): (chunks: seq<seq<byte>>)
    ensures Cuts(chunks, bs)
  {
    if bs == [] then [] else FeedCons([], [bs[0]], Singles(bs[1..])); [[bs[0]]] + Singles(bs[1..])
  }

  lemma {:induction false} SinglesDeliver(bs: seq<byte>)
    requires Splittable(bs)
    ensures Feed([], Singles(bs)) == Deliver(bs)
  {
    hide Deliver;
    assert [] + bs == bs;
    FeedIsDeliver([], Singles(bs));
  }

  // ------------------------------------------------------------------ how many bytes are not dropped

  function Volume(msgs: seq<Message>): (n: nat) {
    if msgs == [] then 0 else HEADER_SIZE + |msgs[0].body| + Volume(msgs[1..])
  }

  lemma {:induction false} VolumeConcat(a: seq<Message>, b: seq<Message>)
    ensures Volume(a + b) == Volume(a) + Volume(b)
    decreases |a|
  {
    if a == [] {
      assert a + b == b;
    } else {
      assert (a + b)[1..] == a[1..] + b;
      VolumeConcat(a[1..], b);
    }
  }

  /** The bytes of the delivered frames and of the leftover. */
  function Kept(d: Delivery): (n: nat) {
    Volume(d.msgs) + |d.rest|
  }

  function Dropped(bs: seq<byte>): (n: nat) {
    match BadTail(bs) case None => 0 case Some(n) => n
  }

  /** A decoder call drops what is behind the first bad header, and nothing else. */
  lemma {:induction false} DeliverKeeps(bs: seq<byte>)
    ensures Kept(Deliver(bs)) + Dropped(bs) == |bs|
    decreases |bs|
  {
    hide ParseHeader;
    if FrontOf(bs).Whole? {
      DeliverKeeps(AfterFirst(bs));
      UnfoldWhole(bs);
      VolumeConcat([FirstMessage(bs)], Deliver(AfterFirst(bs)).msgs);
      assert Volume([FirstMessage(bs)]) == HEADER_SIZE + |FirstMessage(bs).body|;
    }
  }

  lemma {:induction false} FeedKeepsAtMost(buffered: seq<byte>, chunks: seq<seq<byte>>)
    ensures Kept(Feed(buffered, chunks)) <= |buffered| + |Flatten(chunks)|
    decreases |chunks|
  {
    hide Deliver, BadTail;
    if chunks != [] {
      var d := Deliver(buffered + chunks[0]);
      DeliverKeeps(buffered + chunks[0]);
      FeedKeepsAtMost(d.rest, chunks[1..]);
      VolumeConcat(d.msgs, Feed(d.rest, chunks[1..]).msgs);
    }
  }

  // ------------------------------------------------------------------ what follows a bad header

  /** The stream up to the end of its first bad header. */
  function UpToBad(bs: seq<byte>): (p: seq<byte>)
    requires BadTail(bs).Some?
    ensures p <= bs && |p| > 0
  {
    bs[..|bs| - BadTail(bs).value + HEADER_SIZE]
  }

  lemma {:induction false} BadAtEnd(bs: seq<byte>)
    requires BadTail(bs).Some?
    ensures BadTail(UpToBad(bs)) == Some(HEADER_SIZE)
    decreases |bs|
  {
    hide ParseHeader;
    var p := UpToBad(bs);
    assert p[..HEADER_SIZE] == bs[..HEADER_SIZE];
    if FrontOf(bs).Whole? {
      BadAtEnd(AfterFirst(bs));
      assert AfterFirst(p) == UpToBad(AfterFirst(bs));
    }
  }

  /** The bad header is not met before its last byte is there. */
  lemma {:induction false} NotYetBad(p: seq<byte>)
    requires BadTail(p) == Some(HEADER_SIZE)
    ensures BadTail(p[..|p| - 1]).None?
  {
    var a, last := p[..|p| - 1], p[|p| - 1..];
    assert a + last == p;
    if BadTail(a).Some? {
      BadTailAppend(a, last);
    }
  }

  /** `j` bytes of `tail` came with the bad header and were drained with it, the rest in `chunks`. */
  predicate CutsBehind(chunks: seq<seq<byte>>, tail: seq<byte>, j: nat) {
    j < READ_SIZE && j <= |tail| && Cuts(chunks, tail[j..])
  }

  /** Reads up to the bad header byte by byte, the last byte of the header together with the first `j` behind it. */
  function Behind(p: seq<byte>, tail: seq<byte>, j: nat, chunks: seq<seq<byte>>): (all: seq<seq<byte>>)
    requires p != [] && CutsBehind(chunks, tail, j)
  {
    Singles(p[..|p| - 1]) + ([p[|p| - 1..] + tail[..j]] + chunks)
  }

  lemma {:induction false} BehindCuts(p: seq<byte>, tail: seq<byte>, j: nat, chunks: seq<seq<byte>>)
    requires p != [] && CutsBehind(chunks, tail, j)
    ensures Cuts(Behind(p, tail, j, chunks), p + tail)
  {
    hide Feed, Flatten;
    var front, read := Singles(p[..|p| - 1]), p[|p| - 1..] + tail[..j];
    FlattenConcat(front, [read] + chunks);
    FeedCons([], read, chunks);
    assert p[..|p| - 1] + (read + tail[j..]) == p + tail;
  }

  lemma {:induction false} FeedBehind(p: seq<byte>, tail: seq<byte>, j: nat, chunks: seq<seq<byte>>)
    requires BadTail(p) == Some(HEADER_SIZE) && CutsBehind(chunks, tail, j)
    ensures Feed([], Behind(p, tail, j, chunks)) == Deliver(p).Then(Feed([], chunks))
  {
    hide Deliver, Feed, BadTail;
    var a, read := p[..|p| - 1], p[|p| - 1..] + tail[..j];
    var d := Deliver(a);
    NotYetBad(p);
    SinglesDeliver(a);
    FeedConcat([], Singles(a), [read] + chunks);
    FeedCons(d.rest, read, chunks);
    DeliverAppend(a, read);
    assert a + read == p + tail[..j];
    DrainAppend(p, tail[..j]);
  }

  // ------------------------------------------------------------------ two cuts that differ

  /** However much follows a bad header, two cuts of it differ. */
  lemma {:induction false} TwoBehind(tail: seq<byte>)
    returns (j1: nat, c1: seq<seq<byte>>, j2: nat, c2: seq<seq<byte>>)
    requires tail != []
    ensures CutsBehind(c1, tail, j1) && CutsBehind(c2, tail, j2) && Feed([], c1) != Feed([], c2)
    decreases |tail|
  {
    if |tail| < READ_SIZE {
      j1, c1, j2, c2 := ShortTail(tail);
    } else if Splittable(tail) {
      j1, c1, j2, c2 := LongTail(tail);
    } else {
      j1, j2 := 0, 0;
      c1, c2 := TwoCuts(tail);
    }
  }

  lemma ShortTail(tail: seq<byte>) returns (j1: nat, c1: seq<seq<byte>>, j2: nat, c2: seq<seq<byte>>)
    requires 0 < |tail| < READ_SIZE
    ensures CutsBehind(c1, tail, j1) && CutsBehind(c2, tail, j2) && Feed([], c1) != Feed([], c2)
  {
    j1, c1, j2, c2 := |tail|, Singles([]), |tail| - 1, Singles(tail[|tail| - 1..]);
    SinglesDeliver([]);
    SinglesDeliver(tail[|tail| - 1..]);
  }

  /** A long tail without a bad header, or with one at its end, keeps more if less of it is drained. */
  lemma LongTail(tail: seq<byte>) returns (j1: nat, c1: seq<seq<byte>>, j2: nat, c2: seq<seq<byte>>)
    requires |tail| >= READ_SIZE && Splittable(tail)
    ensures CutsBehind(c1, tail, j1) && CutsBehind(c2, tail, j2) && Feed([], c1) != Feed([], c2)
  {
    hide Deliver, Feed, BadTail;
    j1, c1, j2, c2 := 0, Singles(tail), READ_SIZE - 1, Singles(tail[READ_SIZE - 1..]);
    assert tail[0..] == tail;
    SinglesDeliver(tail);
    DeliverKeeps(tail);
    FeedKeepsAtMost([], c2);
  }

  lemma {:induction false} TwoCuts(bs: seq<byte>) returns (c1: seq<seq<byte>>, c2: seq<seq<byte>>)
    requires !Splittable(bs)
    ensures Cuts(c1, bs) && Cuts(c2, bs) && Feed([], c1) != Feed([], c2)
    decreases |bs|, 0
  {
    hide Deliver, Feed;
    var p := UpToBad(bs);
    var tail := bs[|p|..];
    BadAtEnd(bs);
    hide UpToBad;
    assert p + tail == bs;
    var j1, d1, j2, d2 := TwoBehind(tail);
    c1, c2 := Behind(p, tail, j1, d1), Behind(p, tail, j2, d2);
    BehindCuts(p, tail, j1, d1);
    BehindCuts(p, tail, j2, d2);
    FeedBehind(p, tail, j1, d1);
    FeedBehind(p, tail, j2, d2);
    hide BadTail;
    ThenInjective(Deliver(p), Feed([], d1), Feed([], d2));
  }

  lemma ThenInjective(d: Delivery, e1: Delivery, e2: Delivery)
    requires e1 != e2
    ensures d.Then(e1) != d.Then(e2)
  {
    assert e1.msgs == (d.msgs + e1.msgs)[|d.msgs|..];
    assert e2.msgs == (d.msgs + e2.msgs)[|d.msgs|..];
  }

  /**
   * Reads of at most 4096 bytes give the same messages and the same leftover however they cut the stream, if and
   * only if the stream has no bad header or nothing follows the first one.
   */
  lemma BoundedIndependence(bs: seq<byte>)
    ensures CutsAgree(bs) <==> Splittable(bs)
  {
    if Splittable(bs) {
      forall a | Cuts(a, bs)
        ensures Feed([], a) == Deliver(bs)
      {
        assert [] + bs == bs;
        FeedIsDeliver([], a);
      }
    } else {
      var a, b := TwoCuts(bs);
    }
  }
}
