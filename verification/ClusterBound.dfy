// The bound on a cluster call's attempts is reached (src/RpcClusterChannel.cpp).

module ClusterBound {
  import opened Protocol
  import opened ClusterCall

  lemma BecomesOne(ss: seq<Strand>, i: nat, s: Strand)
    requires i < |ss|
    ensures Becomes(ss, i, [s]) == ss[i := s]
  {
  }

  lemma {:induction false} RunConcat(o: Options, c: Call, a: seq<Event>, b: seq<Event>)
    requires Possible(o, c, a) && Possible(o, Run(o, c, a), b)
    ensures Possible(o, c, a + b) && Run(o, c, a + b) == Run(o, Run(o, c, a), b)
    decreases |a|
  {
    hide Step, Enabled;
    if a == [] {
      assert a + b == b;
    } else {
      RunConcat(o, Step(o, c, a[0]), a[1..], b);
      assert (a + b)[1..] == a[1..] + b;
    }
  }

  lemma {:induction false} RunOne(o: Options, c: Call, e: Event)
    requires Enabled(o, c, e)
    ensures Possible(o, c, [e]) && Run(o, c, [e]) == Step(o, c, e)
  {
  }

  /** A failed attempt that may be retried goes round to the next attempt and sends again. */
  lemma RetryRound(o: Options, c: Call, i: nat, n: nat) returns (es: seq<Event>)
    requires o.idempotent && i < |c.strands| && c.strands[i] == OnChannel(n) && n < o.maxAttempts
    ensures Possible(o, c, es)
    ensures Run(o, c, es) == c.(strands := c.strands[i := OnChannel(n + 1)],
                                attempts := c.attempts + 1, sends := c.sends + 1, retries := c.retries + 1)
  {
    hide Becomes;
    var e1, e2, e3, e4 := ChannelDone(i, false), MaybeRetry(i, Unknown, true), Wake(i), Attempt(i, true, false);
    BecomesOne(c.strands, i, Ended(n, false));
    var c1 := Step(o, c, e1);
    BecomesOne(c1.strands, i, BackingOff(n));
    var c2 := Step(o, c1, e2);
    BecomesOne(c2.strands, i, Attempting(n + 1, false));
    var c3 := Step(o, c2, e3);
    BecomesOne(c3.strands, i, OnChannel(n + 1));
    var c4 := Step(o, c3, e4);
    assert c4.strands == c.strands[i := OnChannel(n + 1)];
    es := Chain4(o, c, e1, e2, e3, e4);
  }

  lemma Chain4(o: Options, c: Call, e1: Event, e2: Event, e3: Event, e4: Event) returns (es: seq<Event>)
    requires Enabled(o, c, e1) && Enabled(o, Step(o, c, e1), e2)
    requires Enabled(o, Step(o, Step(o, c, e1), e2), e3)
    requires Enabled(o, Step(o, Step(o, Step(o, c, e1), e2), e3), e4)
    ensures Possible(o, c, es)
    ensures Run(o, c, es) == Step(o, Step(o, Step(o, Step(o, c, e1), e2), e3), e4)
  {
    hide Step, Enabled;
    RunOne(o, c, e1);
    RunOne(o, Step(o, c, e1), e2);
    RunConcat(o, c, [e1], [e2]);
    RunOne(o, Step(o, Step(o, c, e1), e2), e3);
    RunConcat(o, c, [e1] + [e2], [e3]);
    RunOne(o, Step(o, Step(o, Step(o, c, e1), e2), e3), e4);
    RunConcat(o, c, [e1] + [e2] + [e3], [e4]);
    es := [e1] + [e2] + [e3] + [e4];
  }

  /** A strand whose every attempt fails uses up its chain, if the budget lets it. */
  lemma {:induction false} ExhaustChain(o: Options, c: Call, i: nat, n: nat) returns (es: seq<Event>)
    requires i < |c.strands| && c.strands[i] == OnChannel(n) && 1 <= n <= Limit(o)
    ensures Possible(o, c, es)
    ensures var more := Limit(o) - n;
            Run(o, c, es) == c.(strands := c.strands[i := OnChannel(Limit(o))], attempts := c.attempts + more,
                                sends := c.sends + more, retries := c.retries + more)
    decreases Limit(o) - n
  {
    if n == Limit(o) {
      es := [];
      assert c.strands == c.strands[i := OnChannel(n)];
    } else {
      hide Run, Possible, Step, Enabled;
      var round := RetryRound(o, c, i, n);
      var d := Run(o, c, round);
      var rest := ExhaustChain(o, d, i, n + 1);
      RunConcat(o, c, round, rest);
      es := round + rest;
      assert d.strands[i := OnChannel(Limit(o))] == c.strands[i := OnChannel(Limit(o))];
    }
  }

  /** For all options some run makes exactly `Bound` attempts and sends every one of them. */
  lemma BoundReached(o: Options) returns (es: seq<Event>)
    ensures Possible(o, Start, es)
    ensures Run(o, Start, es).attempts == Bound(o) == Run(o, Start, es).sends
  {
    var first := Attempt(0, true, Hedges(o));
    RunOne(o, Start, first);
    var c := Step(o, Start, first);
    assert c.strands == if Hedges(o) then [OnChannel(1), HedgeTimer] else [OnChannel(1)];
    var chain := ExhaustChain(o, c, 0, 1);
    var d := Run(o, c, chain);
    RunConcat(o, Start, [first], chain);
    es := [first] + chain;
    if Hedges(o) {
      var hedge := HedgeChain(o, d);
      RunConcat(o, Start, es, hedge);
      es := es + hedge;
    }
  }

  lemma HedgeChain(o: Options, d: Call) returns (es: seq<Event>)
    requires Hedges(o) && |d.strands| == 2 && d.strands[1] == HedgeTimer && !d.completed
    ensures Possible(o, d, es)
    ensures Run(o, d, es).attempts == d.attempts + Limit(o) && Run(o, d, es).sends == d.sends + Limit(o)
  {
    BecomesOne(d.strands, 1, Attempting(1, false));
    var d1 := Step(o, d, TimerFires(1));
    RunOne(o, d, TimerFires(1));
    BecomesOne(d1.strands, 1, OnChannel(1));
    var d2 := Step(o, d1, Attempt(1, true, false));
    RunOne(o, d1, Attempt(1, true, false));
    var chain := ExhaustChain(o, d2, 1, 1);
    RunConcat(o, d, [TimerFires(1)], [Attempt(1, true, false)]);
    RunConcat(o, d, [TimerFires(1)] + [Attempt(1, true, false)], chain);
    es := [TimerFires(1)] + [Attempt(1, true, false)] + chain;
  }
}
