// The retry token bucket (include/RetryPolicy.h).

module RetryBudget {
  // The token bucket under any interleaving of its compare-and-swap loops.

  /** Where a thread is: outside, or inside `tryConsume` or `refund` holding the value it last saw. */
  datatype Thread = Outside | Consuming(seen: nat) | Refunding(seen: nat)

  /**
   * `consumed` counts granted retries, `refunds` calls of `refund`, `refunded` those that added a token and
   * `saturated` those that left without adding one.
   */
  datatype Budget = Budget(
    max: nat, tokens: nat, threads: map<nat, Thread>, consumed: nat, refunds: nat, refunded: nat, saturated: nat)

  function Fresh(max: nat): (b: Budget) {
    Budget(max, max, map[], 0, 0, 0, 0)
  }

  datatype Event = LoadToConsume(th: nat) | LoadToRefund(th: nat) | Swap(th: nat, spurious: bool) | Leave(th: nat)

  function At(b: Budget, th: nat): (t: Thread) {
    if th in b.threads then b.threads[th] else Outside
  }

  /** Whether the loop condition lets the thread try a swap. */
  predicate MaySwap(b: Budget, th: nat) {
    match At(b, th)
    case Outside => false
    case Consuming(seen) => seen > 0
    case Refunding(seen) => seen < b.max
  }

  predicate Enabled(b: Budget, e: Event) {
    match e
    case LoadToConsume(th) => At(b, th).Outside?
    case LoadToRefund(th) => At(b, th).Outside?
    case Swap(th, _) => MaySwap(b, th)
    case Leave(th) => !At(b, th).Outside? && !MaySwap(b, th)
  }

  /** A weak swap fails if the value moved on, and may fail for no reason; failing reloads the value. */
  function SwapStep(b: Budget, th: nat, spurious: bool): (b': Budget)
    requires MaySwap(b, th)
  {
    var t := At(b, th);
    if t.seen != b.tokens || spurious then
      b.(threads := b.threads[th := if t.Consuming? then Consuming(b.tokens) else Refunding(b.tokens)])
    else if t.Consuming? then
      b.(tokens := t.seen - 1, threads := b.threads[th := Outside], consumed := b.consumed + 1)
    else
      b.(tokens := t.seen + 1, threads := b.threads[th := Outside], refunded := b.refunded + 1)
  }

  function Step(b: Budget, e: Event): (b': Budget)
    requires Enabled(b, e)
  {
    match e
    case LoadToConsume(th) => b.(threads := b.threads[th := Consuming(b.tokens)])
    case LoadToRefund(th) => b.(threads := b.threads[th := Refunding(b.tokens)], refunds := b.refunds + 1)
    case Swap(th, spurious) => SwapStep(b, th, spurious)
    case Leave(th) =>
      b.(threads := b.threads[th := Outside],
         saturated := if At(b, th).Refunding? then b.saturated + 1 else b.saturated)
  }

  predicate Possible(b: Budget, es: seq<Event>)
    decreases |es|
  {
    es == [] || (Enabled(b, es[0]) && Possible(Step(b, es[0]), es[1..]))
  }

  function Run(b: Budget, es: seq<Event>): (b': Budget)
    requires Possible(b, es)
    decreases |es|
  {
    if es == [] then b else Run(Step(b, es[0]), es[1..])
  }

  /** The threads inside `refund`. */
  function Refunders(threads: map<nat, Thread>): (s: set<nat>) {
    set th | th in threads && threads[th].Refunding?
  }

  ghost predicate Tallies(b: Budget) {
    && b.tokens <= b.max
    && b.tokens + b.consumed == b.max + b.refunded
    && b.refunded + b.saturated + |Refunders(b.threads)| == b.refunds
  }

  ghost predicate SawAtMostMax(b: Budget) {
    forall th :: th in b.threads && !b.threads[th].Outside? ==> b.threads[th].seen <= b.max
  }

  ghost predicate Inv(b: Budget) {
    Tallies(b) && SawAtMostMax(b)
  }

  lemma RefundersOf(threads: map<nat, Thread>, th: nat, t: Thread)
    ensures th in Refunders(threads) <==> th in threads && threads[th].Refunding?
    ensures Refunders(threads[th := t]) == if t.Refunding? then Refunders(threads) + {th} else Refunders(threads) - {th}
  {
    var threads' := threads[th := t];
    forall k: nat
      ensures k in Refunders(threads') <==> if k == th then t.Refunding? else k in Refunders(threads)
    {
      assert k in Refunders(threads') <==> k in threads' && threads'[k].Refunding?;
    }
    if t.Refunding? {
      assert Refunders(threads') == Refunders(threads) + {th};
    } else {
      assert Refunders(threads') == Refunders(threads) - {th};
    }
  }

  lemma RefundersAfter(threads: map<nat, Thread>, th: nat, t: Thread)
    ensures |Refunders(threads[th := t])| == |Refunders(threads)| + (if t.Refunding? then 1 else 0)
              - (if th in threads && threads[th].Refunding? then 1 else 0)
  {
    hide Refunders;
    RefundersOf(threads, th, t);
    SizesAround(Refunders(threads), th);
  }

  lemma SizesAround(s: set<nat>, x: nat)
    ensures |s + {x}| == |s| + if x in s then 0 else 1
    ensures |s - {x}| == |s| - if x in s then 1 else 0
  {
    if x in s {
      assert s + {x} == s;
    } else {
      assert s - {x} == s;
    }
  }

  lemma StepKeepsTallies(b: Budget, e: Event)
    requires Tallies(b) && Enabled(b, e)
    ensures Tallies(Step(b, e)) && Step(b, e).max == b.max
  {
    RefundersAfter(b.threads, e.th, At(Step(b, e), e.th));
    hide Refunders;
  }

  lemma StepKeepsInv(b: Budget, e: Event)
    requires Inv(b) && Enabled(b, e)
    ensures Inv(Step(b, e)) && Step(b, e).max == b.max
  {
    StepKeepsTallies(b, e);
    hide Refunders;
  }

  /**
   * Whatever the interleaving, the tokens stay between 0 and the budget; every token is accounted for by a
   * granted retry or an effective refund, and every refund by a token added, a full bucket, or a thread still
   * in its loop.
   */
  lemma {:induction false} Conservation(b: Budget, es: seq<Event>)
    requires Inv(b) && Possible(b, es)
    ensures var b' := Run(b, es);
            && Inv(b') && b'.max == b.max
            && b'.tokens <= b.max
            && b'.tokens == b.max + b'.refunded - b'.consumed
            && b'.refunds == b'.refunded + b'.saturated + |Refunders(b'.threads)|
    decreases |es|
  {
    if es != [] {
      StepKeepsInv(b, es[0]);
      Conservation(Step(b, es[0]), es[1..]);
    }
  }

  /** A refund is only dropped by a thread that last saw a full bucket, a retry only by one that saw an empty one. */
  lemma OnlyDroppedAtTheEdge(b: Budget, th: nat)
    requires Inv(b) && Enabled(b, Leave(th))
    ensures At(b, th).Refunding? ==> At(b, th).seen == b.max
    ensures At(b, th).Consuming? ==> At(b, th).seen == 0
  {
  }

  /** The retries granted never exceed the budget plus the successful attempts, each of which refunds once. */
  lemma {:induction false} RetriesBounded(max: nat, es: seq<Event>)
    requires Possible(Fresh(max), es)
    ensures var b := Run(Fresh(max), es); b.tokens <= max && b.consumed <= max + b.refunds
  {
    Conservation(Fresh(max), es);
  }
}
