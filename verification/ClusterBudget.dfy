// Many cluster calls sharing one retry budget (src/RpcClusterChannel.cpp, include/RetryPolicy.h).

module ClusterBudget {
  // Strands of all calls are interleaved with each other in the middle of the budget's compare-and-swap loops.

  import opened Protocol
  import opened ClusterCall
  import opened RetryPolicy

  /**
   * How far an ended attempt has come with the budget: outside it, inside `tryConsume` or `refund` with the value
   * it last saw, or back from it.
   */
  datatype Phase = Outside | Consuming(seen: nat) | Granted | Refused | Refunding(seen: nat) | Refunded

  /** A call and, strand by strand, its dealings with the budget. */
  datatype Entry = Entry(options: Options, call: Call, phases: seq<Phase>)

  /**
   * The calls made so far; `won` counts the attempts that ended well, `added` the refunds that added a token and
   * `dropped` those that found the bucket full.
   */
  datatype Cluster = Cluster(max: nat, tokens: nat, calls: seq<Entry>, won: nat, added: nat, dropped: nat)

  function Fresh(max: nat): (k: Cluster) {
    Cluster(max, max, [], 0, 0, 0)
  }

  datatype Move =
    | Begin(options: Options)
    | On(at: nat, event: Event)
    | Load(at: nat, i: nat, status: Status)
    | Swap(at: nat, i: nat, spurious: bool)
    | Leave(at: nat, i: nat)

  /** The attempt failed in a way worth retrying, so the budget is asked. */
  predicate Asks(o: Options, s: Strand, status: Status) {
    s.Ended? && !s.success && ShouldRetry(status, o.idempotent, s.n, o.maxAttempts)
  }

  predicate Wins(s: Strand) {
    s.Ended? && s.success
  }

  /** What the strand must have heard from the budget before `maybeRetry` goes on. */
  predicate Ready(o: Options, s: Strand, p: Phase, e: Event)
    requires e.MaybeRetry?
  {
    if Wins(s) then p.Refunded?
    else if Asks(o, s, e.status) then p == if e.token then Granted else Refused
    else p.Outside?
  }

  predicate MaySwap(max: nat, p: Phase) {
    (p.Consuming? && p.seen > 0) || (p.Refunding? && p.seen < max)
  }

  /** The strand meant by a move of the budget's loops. */
  predicate Names(k: Cluster, at: nat, i: nat) {
    at < |k.calls| && i < |k.calls[at].call.strands| == |k.calls[at].phases|
  }

  predicate Allowed(k: Cluster, m: Move) {
    match m
    case Begin(_) => true
    case On(at, e) =>
      && Names(k, at, e.i) && ClusterCall.Enabled(k.calls[at].options, k.calls[at].call, e)
      && (e.MaybeRetry? ==>
            Ready(k.calls[at].options, k.calls[at].call.strands[e.i], k.calls[at].phases[e.i], e))
    case Load(at, i, status) =>
      && Names(k, at, i) && k.calls[at].phases[i].Outside?
      && var s := k.calls[at].call.strands[i]; Wins(s) || Asks(k.calls[at].options, s, status)
    case Swap(at, i, _) => Names(k, at, i) && MaySwap(k.max, k.calls[at].phases[i])
    case Leave(at, i) =>
      && Names(k, at, i) && !MaySwap(k.max, k.calls[at].phases[i])
      && (k.calls[at].phases[i].Consuming? || k.calls[at].phases[i].Refunding?)
  }

  function Outsiders(n: nat): (ps: seq<Phase>)
    ensures |ps| == n && forall i :: 0 <= i < n ==> ps[i] == Outside
  {
    if n == 0 then [] else [Outside] + Outsiders(n - 1)
  }

  function Spliced(ps: seq<Phase>, i: nat, n: nat): (r: seq<Phase>)
    requires i < |ps|
  {
    ps[..i] + Outsiders(n) + ps[i + 1..]
  }

  /** A call after one of its own events. */
  function Moved(entry: Entry, e: Event): (r: Entry)
    requires ClusterCall.Enabled(entry.options, entry.call, e) && |entry.call.strands| == |entry.phases|
  {
    entry.(call := ClusterCall.Step(entry.options, entry.call, e),
           phases := Spliced(entry.phases, e.i, |Into(entry.options, entry.call, e)|))
  }

  function WithPhase(k: Cluster, at: nat, i: nat, p: Phase): (k': Cluster)
    requires Names(k, at, i)
  {
    k.(calls := k.calls[at := k.calls[at].(phases := k.calls[at].phases[i := p])])
  }

  predicate Succeeds(k: Cluster, at: nat, i: nat, spurious: bool)
    requires Names(k, at, i) && MaySwap(k.max, k.calls[at].phases[i])
  {
    k.calls[at].phases[i].seen == k.tokens && !spurious
  }

  function Next(k: Cluster, m: Move): (k': Cluster)
    requires Allowed(k, m)
  {
    match m
    case Begin(options) => k.(calls := k.calls + [Entry(options, Start, [Outside])])
    case On(at, e) =>
      k.(calls := k.calls[at := Moved(k.calls[at], e)], won := if e.ChannelDone? && e.success then k.won + 1 else k.won)
    case Load(at, i, status) =>
      WithPhase(k, at, i, if Wins(k.calls[at].call.strands[i]) then Refunding(k.tokens) else Consuming(k.tokens))
    case Swap(at, i, spurious) =>
      var p := k.calls[at].phases[i];
      if !Succeeds(k, at, i, spurious) then
        WithPhase(k, at, i, if p.Consuming? then Consuming(k.tokens) else Refunding(k.tokens))
      else if p.Consuming? then WithPhase(k, at, i, Granted).(tokens := k.tokens - 1)
      else WithPhase(k, at, i, Refunded).(tokens := k.tokens + 1, added := k.added + 1)
    case Leave(at, i) =>
      if k.calls[at].phases[i].Consuming? then WithPhase(k, at, i, Refused)
      else WithPhase(k, at, i, Refunded).(dropped := k.dropped + 1)
  }

  predicate Feasible(k: Cluster, ms: seq<Move>)
    decreases |ms|
  {
    ms == [] || (Allowed(k, ms[0]) && Feasible(Next(k, ms[0]), ms[1..]))
  }

  function After(k: Cluster, ms: seq<Move>): (k': Cluster)
    requires Feasible(k, ms)
    decreases |ms|
  {
    if ms == [] then k else After(Next(k, ms[0]), ms[1..])
  }

  // ------------------------------------------------------------------ counting

  /** Tokens a strand holds, and refunds it has yet to settle. */
  datatype Tally = Holds | Unsettled

  function One(t: Tally, s: Strand, p: Phase): (n: nat) {
    match t
    case Holds => if p.Granted? then 1 else 0
    case Unsettled => if Wins(s) && !p.Refunded? then 1 else 0
  }

  function Count(t: Tally, ss: seq<Strand>, ps: seq<Phase>): (n: nat)
    requires |ss| == |ps|
  {
    if ss == [] then 0 else One(t, ss[0], ps[0]) + Count(t, ss[1..], ps[1..])
  }

  lemma {:induction false} CountConcat(t: Tally, ss: seq<Strand>, ps: seq<Phase>, ss': seq<Strand>, ps': seq<Phase>)
    requires |ss| == |ps| && |ss'| == |ps'|
    ensures Count(t, ss + ss', ps + ps') == Count(t, ss, ps) + Count(t, ss', ps')
  {
    hide One;
    if ss == [] {
      assert ss + ss' == ss' && ps + ps' == ps';
    } else {
      CountConcat(t, ss[1..], ps[1..], ss', ps');
      assert (ss + ss')[1..] == ss[1..] + ss' && (ps + ps')[1..] == ps[1..] + ps';
    }
  }

  /** Replacing a strand and its phase by others changes a count by the difference. */
  lemma {:induction false} CountReplaced(t: Tally, ss: seq<Strand>, ps: seq<Phase>, i: nat,
                                         into: seq<Strand>, intoPs: seq<Phase>)
    requires |ss| == |ps| && i < |ss| && |into| == |intoPs|
    ensures Count(t, ss[..i] + into + ss[i + 1..], ps[..i] + intoPs + ps[i + 1..]) ==
            Count(t, ss, ps) - One(t, ss[i], ps[i]) + Count(t, into, intoPs)
  {
    hide One;
    CountConcat(t, ss[..i] + into, ps[..i] + intoPs, ss[i + 1..], ps[i + 1..]);
    CountConcat(t, ss[..i], ps[..i], into, intoPs);
    CountConcat(t, ss[..i], ps[..i], ss[i..], ps[i..]);
    assert ss == ss[..i] + ss[i..] && ps == ps[..i] + ps[i..];
    assert ss[i..][1..] == ss[i + 1..] && ps[i..][1..] == ps[i + 1..];
  }

  lemma {:induction false} CountUpdated(t: Tally, ss: seq<Strand>, ps: seq<Phase>, i: nat, p: Phase)
    requires |ss| == |ps| && i < |ss|
    ensures Count(t, ss, ps[i := p]) == Count(t, ss, ps) - One(t, ss[i], ps[i]) + One(t, ss[i], p)
  {
    hide One;
    CountReplaced(t, ss, ps, i, [ss[i]], [p]);
    assert ss == ss[..i] + [ss[i]] + ss[i + 1..];
    assert ps[i := p] == ps[..i] + [p] + ps[i + 1..];
    assert [ss[i]][1..] == [] && [p][1..] == [];
  }

  datatype Measure = Tallied(t: Tally) | Retried | Attempted

  function Of(m: Measure, entry: Entry): (n: nat)
    requires |entry.call.strands| == |entry.phases|
  {
    match m
    case Tallied(t) => Count(t, entry.call.strands, entry.phases)
    case Retried => entry.call.retries
    case Attempted => entry.call.attempts
  }

  ghost predicate Aligned(calls: seq<Entry>) {
    forall i :: 0 <= i < |calls| ==> |calls[i].call.strands| == |calls[i].phases|
  }

  ghost function Sum(m: Measure, calls: seq<Entry>): (n: nat)
    requires Aligned(calls)
  {
    if calls == [] then 0 else Sum(m, calls[..|calls| - 1]) + Of(m, calls[|calls| - 1])
  }

  lemma {:induction false} SumUpdated(m: Measure, calls: seq<Entry>, i: nat, entry: Entry)
    requires Aligned(calls) && i < |calls| && |entry.call.strands| == |entry.phases|
    ensures Aligned(calls[i := entry])
    ensures Sum(m, calls[i := entry]) == Sum(m, calls) - Of(m, calls[i]) + Of(m, entry)
  {
    hide Of;
    var last := |calls| - 1;
    if i == last {
      assert calls[i := entry][..last] == calls[..last];
    } else {
      SumUpdated(m, calls[..last], i, entry);
      assert calls[i := entry][..last] == calls[..last][i := entry];
    }
  }

  lemma {:induction false} SumAppended(m: Measure, calls: seq<Entry>, entry: Entry)
    requires Aligned(calls) && |entry.call.strands| == |entry.phases|
    ensures Aligned(calls + [entry]) && Sum(m, calls + [entry]) == Sum(m, calls) + Of(m, entry)
  {
    hide Of;
    assert (calls + [entry])[..|calls|] == calls;
  }

  // ------------------------------------------------------------------ the invariant

  /** Only ended attempts deal with the budget: won ones to refund, others to ask. */
  predicate Fitting(s: Strand, p: Phase) {
    match p
    case Outside => true
    case Refunding(_) => Wins(s)
    case Refunded => Wins(s)
    case _ => s.Ended? && !s.success
  }

  ghost predicate EntryInv(entry: Entry) {
    && |entry.call.strands| == |entry.phases|
    && ClusterCall.Inv(entry.options, entry.call)
    && AllFitting(entry.call.strands, entry.phases)
  }

  ghost predicate AllEntries(calls: seq<Entry>) {
    forall i :: 0 <= i < |calls| ==> EntryInv(calls[i])
  }

  /** Every token is free, held, or spent on a retry; every attempt won has added a token, found no room, or is to. */
  ghost predicate Balanced(k: Cluster)
    requires Aligned(k.calls)
  {
    && k.tokens <= k.max
    && k.tokens + Sum(Retried, k.calls) + Sum(Tallied(Holds), k.calls) == k.max + k.added
    && k.added + k.dropped + Sum(Tallied(Unsettled), k.calls) == k.won
  }

  ghost predicate Inv(k: Cluster) {
    AllEntries(k.calls) && Aligned(k.calls) && Balanced(k)
  }

  // ------------------------------------------------------------------ a call's own events

  lemma {:induction false} CountNew(t: Tally, o: Options, c: Call, e: Event)
    requires ClusterCall.Enabled(o, c, e)
    ensures var into := Into(o, c, e);
            Count(t, into, Outsiders(|into|)) == if t.Unsettled? && e.ChannelDone? && e.success then 1 else 0
  {
    var into := Into(o, c, e);
    var ps := Outsiders(|into|);
    CountShort(t, into, ps);
    hide Count;
  }

  lemma {:induction false} CountShort(t: Tally, ss: seq<Strand>, ps: seq<Phase>)
    requires |ss| == |ps| <= 2
    ensures Count(t, ss, ps) ==
            (if |ss| > 0 then One(t, ss[0], ps[0]) else 0) + (if |ss| > 1 then One(t, ss[1], ps[1]) else 0)
  {
    hide One;
    if |ss| > 0 {
      var ss', ps' := ss[1..], ps[1..];
      assert |ss'| == 1 ==>
        ss'[1..] == [] && Count(t, ss', ps') == One(t, ss'[0], ps'[0]) + Count(t, ss'[1..], ps'[1..]);
    }
  }

  lemma MovedCounts(t: Tally, entry: Entry, e: Event)
    requires |entry.call.strands| == |entry.phases| && ClusterCall.Enabled(entry.options, entry.call, e)
    ensures |Moved(entry, e).call.strands| == |Moved(entry, e).phases|
    ensures Of(Tallied(t), Moved(entry, e)) ==
            Of(Tallied(t), entry) - One(t, entry.call.strands[e.i], entry.phases[e.i])
            + if t.Unsettled? && e.ChannelDone? && e.success then 1 else 0
  {
    var o, c, into := entry.options, entry.call, Into(entry.options, entry.call, e);
    StepStrands(o, c, e);
    CountReplaced(t, c.strands, entry.phases, e.i, into, Outsiders(|into|));
    CountNew(t, o, c, e);
    hide Count, One, Into, ClusterCall.Step, Outsiders;
  }

  lemma StepStrands(o: Options, c: Call, e: Event)
    requires ClusterCall.Enabled(o, c, e)
    ensures ClusterCall.Step(o, c, e).strands == c.strands[..e.i] + Into(o, c, e) + c.strands[e.i + 1..]
  {
    hide Into;
  }

  /** A call's retry count moves exactly when a strand that was granted a token goes on. */
  lemma RetriesAreGranted(entry: Entry, e: Event)
    requires |entry.call.strands| == |entry.phases| && ClusterCall.Enabled(entry.options, entry.call, e)
    requires e.MaybeRetry? ==> Ready(entry.options, entry.call.strands[e.i], entry.phases[e.i], e)
    requires Fitting(entry.call.strands[e.i], entry.phases[e.i])
    ensures Moved(entry, e).call.retries == entry.call.retries + One(Holds, entry.call.strands[e.i], entry.phases[e.i])
    ensures One(Unsettled, entry.call.strands[e.i], entry.phases[e.i]) == 0
  {
    hide Becomes, Into, Spliced;
  }

  lemma MovedKeepsEntry(entry: Entry, e: Event)
    requires EntryInv(entry) && ClusterCall.Enabled(entry.options, entry.call, e)
    ensures EntryInv(Moved(entry, e))
  {
    var o, c := entry.options, entry.call;
    ClusterCall.StepKeepsInv(o, c, e);
    StepStrands(o, c, e);
    hide ClusterCall.Inv, Into, ClusterCall.Step, ClusterCall.Enabled, Fitting, Outsiders;
    FittingReplaced(c.strands, entry.phases, e.i, Into(o, c, e));
  }

  ghost predicate AllFitting(ss: seq<Strand>, ps: seq<Phase>)
    requires |ss| == |ps|
  {
    forall i :: 0 <= i < |ps| ==> Fitting(ss[i], ps[i])
  }

  lemma {:induction false} FittingReplaced(ss: seq<Strand>, ps: seq<Phase>, i: nat, into: seq<Strand>)
    requires |ss| == |ps| && i < |ss| && AllFitting(ss, ps)
    ensures AllFitting(ss[..i] + into + ss[i + 1..], ps[..i] + Outsiders(|into|) + ps[i + 1..])
  {
    var ss', ps' := ss[..i] + into + ss[i + 1..], ps[..i] + Outsiders(|into|) + ps[i + 1..];
    hide Outsiders, Fitting;
    forall j | 0 <= j < |ps'|
      ensures Fitting(ss'[j], ps'[j])
    {
      if j < i {
        assert Fitting(ss[j], ps[j]);
      } else if j >= i + |into| {
        assert Fitting(ss[j - |into| + 1], ps[j - |into| + 1]);
      } else {
        assert ps'[j] == Outside;
        OutsideFits(ss'[j]);
      }
    }
  }

  lemma OutsideFits(s: Strand)
    ensures Fitting(s, Outside)
  {
  }

  // ------------------------------------------------------------------ every move

  lemma OnKeepsInv(k: Cluster, m: Move)
    requires Inv(k) && Allowed(k, m) && m.On?
    ensures Inv(Next(k, m))
  {
    hide Sum, Count, One, ClusterCall.Inv, ClusterCall.Step, Into, Spliced, Ready, Fitting;
    var entry, e := k.calls[m.at], m.event;
    var entry' := Moved(entry, e);
    assert EntryInv(entry);
    assert Fitting(entry.call.strands[e.i], entry.phases[e.i]);
    MovedKeepsEntry(entry, e);
    MovedCounts(Holds, entry, e);
    MovedCounts(Unsettled, entry, e);
    RetriesAreGranted(entry, e);
    SumUpdated(Retried, k.calls, m.at, entry');
    SumUpdated(Tallied(Holds), k.calls, m.at, entry');
    SumUpdated(Tallied(Unsettled), k.calls, m.at, entry');
    hide Moved, EntryInv, ClusterCall.Enabled;
  }

  /** What a move inside the budget's loops does to the strand's own counts. */
  lemma PhaseCounts(t: Tally, entry: Entry, i: nat, p: Phase)
    requires |entry.call.strands| == |entry.phases| && i < |entry.phases|
    ensures Of(Tallied(t), entry.(phases := entry.phases[i := p])) ==
            Of(Tallied(t), entry) - One(t, entry.call.strands[i], entry.phases[i]) + One(t, entry.call.strands[i], p)
  {
    CountUpdated(t, entry.call.strands, entry.phases, i, p);
    hide Count, One;
  }

  lemma PhaseSums(k: Cluster, at: nat, i: nat, p: Phase)
    requires AllEntries(k.calls) && Aligned(k.calls) && Names(k, at, i) && Fitting(k.calls[at].call.strands[i], p)
    ensures var k', s, was := WithPhase(k, at, i, p), k.calls[at].call.strands[i], k.calls[at].phases[i];
            && AllEntries(k'.calls) && Aligned(k'.calls)
            && Sum(Retried, k'.calls) == Sum(Retried, k.calls)
            && Sum(Tallied(Holds), k'.calls) == Sum(Tallied(Holds), k.calls) - One(Holds, s, was) + One(Holds, s, p)
            && Sum(Tallied(Unsettled), k'.calls) ==
                 Sum(Tallied(Unsettled), k.calls) - One(Unsettled, s, was) + One(Unsettled, s, p)
  {
    var entry := k.calls[at];
    var entry' := entry.(phases := entry.phases[i := p]);
    assert EntryInv(entry);
    assert EntryInv(entry');
    PhaseCounts(Holds, entry, i, p);
    PhaseCounts(Unsettled, entry, i, p);
    SumUpdated(Retried, k.calls, at, entry');
    SumUpdated(Tallied(Holds), k.calls, at, entry');
    SumUpdated(Tallied(Unsettled), k.calls, at, entry');
    hide Sum, One, EntryInv, Count;
  }

  /** The phase that a move inside the loops leads to. */
  function NextPhase(k: Cluster, m: Move): (p: Phase)
    requires Allowed(k, m) && !m.Begin? && !m.On?
  {
    var s, p := k.calls[m.at].call.strands[m.i], k.calls[m.at].phases[m.i];
    match m
    case Load(_, _, _) => if Wins(s) then Refunding(k.tokens) else Consuming(k.tokens)
    case Swap(at, i, spurious) =>
      if Succeeds(k, at, i, spurious) then if p.Consuming? then Granted else Refunded
      else if p.Consuming? then Consuming(k.tokens) else Refunding(k.tokens)
    case Leave(_, _) => if p.Consuming? then Refused else Refunded
  }

  /** A move inside the loops balances what it does to the tokens with what it does to its strand. */
  lemma LoopBalances(k: Cluster, m: Move)
    requires Allowed(k, m) && !m.Begin? && !m.On? && k.tokens <= k.max
    requires Fitting(k.calls[m.at].call.strands[m.i], k.calls[m.at].phases[m.i])
    ensures var s, was := k.calls[m.at].call.strands[m.i], k.calls[m.at].phases[m.i];
            var p, k' := NextPhase(k, m), Next(k, m);
            && Fitting(s, p) && k'.tokens <= k'.max == k.max && k'.won == k.won
            && k'.calls == WithPhase(k, m.at, m.i, p).calls
            && k'.tokens + One(Holds, s, p) - k'.added == k.tokens + One(Holds, s, was) - k.added
            && k'.added + k'.dropped + One(Unsettled, s, p) == k.added + k.dropped + One(Unsettled, s, was)
  {
  }

  lemma LoopKeepsInv(k: Cluster, m: Move)
    requires Inv(k) && Allowed(k, m) && !m.Begin? && !m.On?
    ensures Inv(Next(k, m))
  {
    assert EntryInv(k.calls[m.at]);
    assert Fitting(k.calls[m.at].call.strands[m.i], k.calls[m.at].phases[m.i]);
    hide Sum, AllEntries, Aligned, EntryInv, Fitting, One, Next, WithPhase, NextPhase, Allowed;
    LoopBalances(k, m);
    PhaseSums(k, m.at, m.i, NextPhase(k, m));
  }

  lemma NewEntry(o: Options)
    ensures var entry := Entry(o, Start, [Outside]);
            && EntryInv(entry) && Of(Retried, entry) == 0
            && Of(Tallied(Holds), entry) == 0 && Of(Tallied(Unsettled), entry) == 0
  {
    StartInv(o);
    CountShort(Holds, Start.strands, [Outside]);
    CountShort(Unsettled, Start.strands, [Outside]);
    hide Count, ClusterCall.Inv;
  }

  lemma BeginKeepsInv(k: Cluster, m: Move)
    requires Inv(k) && m.Begin?
    ensures Inv(Next(k, m))
  {
    hide Sum, Of, EntryInv, Aligned;
    var entry := Entry(m.options, Start, [Outside]);
    NewEntry(m.options);
    SumAppended(Retried, k.calls, entry);
    SumAppended(Tallied(Holds), k.calls, entry);
    SumAppended(Tallied(Unsettled), k.calls, entry);
  }

  lemma {:induction false} RunKeepsInv(k: Cluster, ms: seq<Move>)
    requires Inv(k) && Feasible(k, ms)
    ensures Inv(After(k, ms)) && After(k, ms).max == k.max
    decreases |ms|
  {
    if ms != [] {
      match ms[0] {
        case Begin(_) => BeginKeepsInv(k, ms[0]);
        case On(_, _) => OnKeepsInv(k, ms[0]);
        case _ => LoopKeepsInv(k, ms[0]);
      }
      hide Inv, Allowed;
      assert Next(k, ms[0]).max == k.max;
      hide Next;
      RunKeepsInv(Next(k, ms[0]), ms[1..]);
    }
  }

  lemma {:induction false} AttemptedBound(calls: seq<Entry>)
    requires AllEntries(calls) && Aligned(calls)
    ensures Sum(Attempted, calls) <= 2 * |calls| + Sum(Retried, calls)
  {
    if calls != [] {
      var last := calls[|calls| - 1];
      assert EntryInv(last);
      TotalsNonNegative(Owed, last.options, last.call.strands);
      TotalsNonNegative(Hedge, last.options, last.call.strands);
      AttemptedBound(calls[..|calls| - 1]);
    }
  }

  /**
   * Retry amplification is bounded: over all calls of a cluster channel, with every load and swap of the budget
   * interleaved at will, the retries never exceed the budget plus the attempts that ended well, and so the
   * attempts never exceed two per call (the first and its hedge) plus the budget plus the attempts that ended
   * well. Every token is free, held by a strand that was granted it, or spent on a retry; every attempt that ended
   * well has added a token, found the bucket full, or is still to settle.
   */
  lemma {:induction false} AmplificationBounded(max: nat, ms: seq<Move>)
    requires Feasible(Fresh(max), ms)
    ensures var k := After(Fresh(max), ms);
            && Aligned(k.calls) && k.tokens <= max
            && k.tokens + Sum(Retried, k.calls) + Sum(Tallied(Holds), k.calls) == max + k.added
            && k.added + k.dropped + Sum(Tallied(Unsettled), k.calls) == k.won
            && Sum(Retried, k.calls) <= max + k.won
            && Sum(Attempted, k.calls) <= 2 * |k.calls| + max + k.won
  {
    RunKeepsInv(Fresh(max), ms);
    AttemptedBound(After(Fresh(max), ms).calls);
  }

  // ------------------------------------------------------------------ who is turned away

  ghost predicate SawAtMostMax(k: Cluster) {
    k.tokens <= k.max && forall at :: 0 <= at < |k.calls| ==> EntrySaw(k.calls[at], k.max)
  }

  ghost predicate EntrySaw(entry: Entry, max: nat) {
    forall i :: 0 <= i < |entry.phases| ==> PhaseSaw(entry.phases[i], max)
  }

  predicate PhaseSaw(p: Phase, max: nat) {
    p.Consuming? || p.Refunding? ==> p.seen <= max
  }

  lemma NextSaw(k: Cluster, m: Move)
    requires Allowed(k, m) && SawAtMostMax(k)
    ensures SawAtMostMax(Next(k, m))
  {
    match m
    case Begin(_) => hide PhaseSaw; assert PhaseSaw(Outside, k.max) by { OutsideSaw(k.max); }
    case On(at, e) =>
      assert EntrySaw(k.calls[at], k.max);
      SplicedSaw(k.calls[at].phases, e.i, |Into(k.calls[at].options, k.calls[at].call, e)|, k.max);
      hide Spliced, Into, ClusterCall.Step;
    case _ =>
      assert EntrySaw(k.calls[m.at], k.max);
  }

  lemma OutsideSaw(max: nat)
    ensures PhaseSaw(Outside, max)
  {
  }

  lemma SplicedSaw(ps: seq<Phase>, i: nat, n: nat, max: nat)
    requires i < |ps| && forall j :: 0 <= j < |ps| ==> PhaseSaw(ps[j], max)
    ensures forall j :: 0 <= j < |Spliced(ps, i, n)| ==> PhaseSaw(Spliced(ps, i, n)[j], max)
  {
    hide PhaseSaw;
    OutsideSaw(max);
  }

  lemma {:induction false} RunSaw(k: Cluster, ms: seq<Move>)
    requires Feasible(k, ms) && SawAtMostMax(k)
    ensures SawAtMostMax(After(k, ms)) && After(k, ms).max == k.max
    decreases |ms|
  {
    hide SawAtMostMax, Allowed;
    if ms != [] {
      NextSaw(k, ms[0]);
      assert Next(k, ms[0]).max == k.max;
      hide Next;
      RunSaw(Next(k, ms[0]), ms[1..]);
    }
  }

  /** In every run a strand gives up on the budget exactly when it last saw it empty, or full for a refund. */
  lemma {:induction false} TurnedAwayExactly(max: nat, ms: seq<Move>, at: nat, i: nat)
    requires Feasible(Fresh(max), ms) && Names(After(Fresh(max), ms), at, i)
    ensures var k := After(Fresh(max), ms);
            Allowed(k, Leave(at, i)) <==>
            k.calls[at].phases[i] == Consuming(0) || k.calls[at].phases[i] == Refunding(max)
  {
    RunSaw(Fresh(max), ms);
    var k := After(Fresh(max), ms);
    assert EntrySaw(k.calls[at], k.max);
    assert PhaseSaw(k.calls[at].phases[i], k.max);
  }
}
