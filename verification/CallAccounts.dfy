// Where the strands of a cluster call come from and go to (src/RpcClusterChannel.cpp, include/RetryPolicy.h).

module CallAccounts {
  import opened Protocol
  import opened ClusterCall

  /** The places a strand can be in; an ended attempt is at one of two, by how it ended. */
  datatype Place = AtAttempt | AtChannel | AtWon | AtLost | AtBackoff | AtTimer | AtFinish

  function PlaceOf(s: Strand): (p: Place) {
    match s
    case Attempting(_, _) => AtAttempt
    case OnChannel(_) => AtChannel
    case Ended(_, success) => if success then AtWon else AtLost
    case BackingOff(_) => AtBackoff
    case HedgeTimer => AtTimer
    case Finishing => AtFinish
  }

  function Number(p: Place, ss: seq<Strand>): (n: nat) {
    if ss == [] then 0 else (if PlaceOf(ss[0]) == p then 1 else 0) + Number(p, ss[1..])
  }

  // ------------------------------------------------------------------ what the events should do

  /**
   * The failure that is retried: a connection-class failure of an idempotent call with attempts left, for which the
   * budget gave a token. A deadline is final, and so is every status the server itself answers.
   */
  predicate WorthRetrying(o: Options, s: Strand, e: Event) {
    && s.Ended? && !s.success && s.n < o.maxAttempts && o.idempotent
    && e.MaybeRetry? && e.status == Unknown && e.token
  }

  /** Strands that an event brings to a place. */
  predicate Enters(p: Place, o: Options, c: Call, e: Event)
    requires Enabled(o, c, e)
  {
    match p
    case AtAttempt => e.Wake? || (e.TimerFires? && !c.completed)
    case AtChannel => e.Attempt? && e.sent
    case AtWon => e.ChannelDone? && e.success
    case AtLost => (e.Attempt? && !e.sent) || (e.ChannelDone? && !e.success)
    case AtBackoff => WorthRetrying(o, c.strands[e.i], e)
    case AtTimer => e.Attempt? && e.arm
    case AtFinish => e.MaybeRetry? && !WorthRetrying(o, c.strands[e.i], e)
  }

  /** Strands that an event takes from a place. */
  predicate Leaves(p: Place, o: Options, c: Call, e: Event)
    requires Enabled(o, c, e)
  {
    match p
    case AtAttempt => e.Attempt?
    case AtChannel => e.ChannelDone?
    case AtWon => e.MaybeRetry? && c.strands[e.i].success
    case AtLost => e.MaybeRetry? && !c.strands[e.i].success
    case AtBackoff => e.Wake?
    case AtTimer => e.TimerFires?
    case AtFinish => e.CallDone?
  }

  function Entered(p: Place, o: Options, c: Call, es: seq<Event>): (n: nat)
    requires Possible(o, c, es)
    decreases |es|
  {
    if es == [] then 0 else (if Enters(p, o, c, es[0]) then 1 else 0) + Entered(p, o, Step(o, c, es[0]), es[1..])
  }

  function Left(p: Place, o: Options, c: Call, es: seq<Event>): (n: nat)
    requires Possible(o, c, es)
    decreases |es|
  {
    if es == [] then 0 else (if Leaves(p, o, c, es[0]) then 1 else 0) + Left(p, o, Step(o, c, es[0]), es[1..])
  }

  // ------------------------------------------------------------------ what they do

  lemma {:induction false} NumberConcat(p: Place, a: seq<Strand>, b: seq<Strand>)
    ensures Number(p, a + b) == Number(p, a) + Number(p, b)
    decreases |a|
  {
    hide PlaceOf;
    if a == [] {
      assert a + b == b;
    } else {
      NumberConcat(p, a[1..], b);
      assert (a + b)[1..] == a[1..] + b;
    }
  }

  lemma {:induction false} NumberOne(p: Place, s: Strand)
    ensures Number(p, [s]) == if PlaceOf(s) == p then 1 else 0
  {
    hide PlaceOf;
    assert [s][1..] == [];
  }

  lemma {:induction false} NumberBecomes(p: Place, ss: seq<Strand>, i: nat, into: seq<Strand>)
    requires i < |ss|
    ensures Number(p, Becomes(ss, i, into)) == Number(p, ss) - Number(p, [ss[i]]) + Number(p, into)
  {
    hide Number, PlaceOf;
    NumberConcat(p, ss[..i] + into, ss[i + 1..]);
    NumberConcat(p, ss[..i], into);
    NumberConcat(p, ss[..i], [ss[i]]);
    NumberConcat(p, ss[..i] + [ss[i]], ss[i + 1..]);
    assert ss == ss[..i] + [ss[i]] + ss[i + 1..];
  }

  lemma {:induction false} NumberInto(p: Place, o: Options, c: Call, e: Event)
    requires Enabled(o, c, e)
    ensures Number(p, Into(o, c, e)) - Number(p, [c.strands[e.i]]) ==
            (if Enters(p, o, c, e) then 1 else 0) - if Leaves(p, o, c, e) then 1 else 0
  {
    var into := Into(o, c, e);
    NumberOne(p, c.strands[e.i]);
    if |into| == 2 {
      NumberConcat(p, [into[0]], [into[1]]);
      NumberOne(p, into[0]);
      NumberOne(p, into[1]);
      assert into == [into[0]] + [into[1]];
    } else if |into| == 1 {
      NumberOne(p, into[0]);
      assert into == [into[0]];
    }
    hide Number;
  }

  lemma {:induction false} StepFlows(p: Place, o: Options, c: Call, e: Event)
    requires Enabled(o, c, e)
    ensures Number(p, Step(o, c, e).strands) + (if Leaves(p, o, c, e) then 1 else 0) ==
            Number(p, c.strands) + if Enters(p, o, c, e) then 1 else 0
  {
    NumberInto(p, o, c, e);
    NumberBecomes(p, c.strands, e.i, Into(o, c, e));
    hide Number, Into, Becomes, Enters, Leaves;
  }

  /** In every run, at every place: the strands there are those that were there or came, less those that went. */
  lemma {:induction false} Flow(p: Place, o: Options, c: Call, es: seq<Event>)
    requires Possible(o, c, es)
    ensures Number(p, Run(o, c, es).strands) + Left(p, o, c, es) == Number(p, c.strands) + Entered(p, o, c, es)
    decreases |es|
  {
    hide Step, Enabled, Number, Enters, Leaves;
    if es != [] {
      StepFlows(p, o, c, es[0]);
      Flow(p, o, Step(o, c, es[0]), es[1..]);
    }
  }

  // ------------------------------------------------------------------ the counters

  /** Every counter counts what its name says. */
  lemma {:induction false} CountersCount(o: Options, c: Call, es: seq<Event>)
    requires Possible(o, c, es)
    ensures var c' := Run(o, c, es);
            && c'.attempts == c.attempts + Left(AtAttempt, o, c, es)
            && c'.sends == c.sends + Entered(AtChannel, o, c, es)
            && c'.retries == c.retries + Entered(AtBackoff, o, c, es)
            && c'.hedges + Left(AtBackoff, o, c, es) == c.hedges + Entered(AtAttempt, o, c, es)
            && (c'.completed <==> c.completed || Left(AtFinish, o, c, es) > 0)
            && c'.doneRuns == c.doneRuns + if c'.completed && !c.completed then 1 else 0
    decreases |es|
  {
    hide Into, Becomes;
    if es != [] {
      CountersCount(o, Step(o, c, es[0]), es[1..]);
    }
  }

  /**
   * Over every run of a call: its retries are exactly the connection-class failures of an idempotent call's attempts
   * below the maximum for which the budget had a token; each backs off and attempts again. Every other ended attempt
   * goes on to call `done`, and only those do; the first one to call it runs the callback.
   */
  lemma {:induction false} RetriesExactly(o: Options, es: seq<Event>)
    requires Possible(o, Start, es)
    ensures var c := Run(o, Start, es);
            && c.retries == Entered(AtBackoff, o, Start, es)
            && Number(AtBackoff, c.strands) + Left(AtBackoff, o, Start, es) == c.retries
            && Number(AtFinish, c.strands) + Left(AtFinish, o, Start, es) == Entered(AtFinish, o, Start, es)
            && Number(AtWon, c.strands) + Left(AtWon, o, Start, es) == Entered(AtWon, o, Start, es)
            && Number(AtAttempt, c.strands) + c.attempts == 1 + Left(AtBackoff, o, Start, es) + c.hedges
            && (c.doneRuns == 1 <==> Left(AtFinish, o, Start, es) > 0)
  {
    CountersCount(o, Start, es);
    Flow(AtBackoff, o, Start, es);
    Flow(AtFinish, o, Start, es);
    Flow(AtWon, o, Start, es);
    Flow(AtAttempt, o, Start, es);
    NothingElseAtStart();
    hide Number, Left, Entered, Run;
  }

  lemma {:induction false} NothingElseAtStart()
    ensures forall p: Place :: Number(p, Start.strands) == if p.AtAttempt? then 1 else 0
  {
    forall p: Place {
      NumberOne(p, Attempting(1, true));
    }
  }
}
