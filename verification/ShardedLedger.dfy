/**
 * The 32-shard enricher with eviction, shard by shard: each shard runs like an enricher of its own
 * on the steps that concern it, so what holds of every single run holds of the sharded one. The
 * shards are evicted one at a time, in any order and with anything in between.
 */
module ShardedLedger {
  import opened KernelEvents
  import opened Enricher
  import opened EnricherLedger
  import opened EnricherConservation
  import opened SpanRetention

  datatype ShardStep = AddsSpan(span: Span) | TakesEvent(event: Event, now: Time) | EvictsShard(shard: nat, now: Time)

  /** The shard a step concerns; an index beyond the last shard concerns none. */
  function ShardAt(step: ShardStep): (s: nat) {
    match step
    case AddsSpan(span) => PidShard(span.pid)
    case TakesEvent(ev, _) => ShardOf(ev)
    case EvictsShard(s, _) => s
  }

  /** What the step is to that shard. */
  function StepOf(step: ShardStep): (r: Step) {
    match step
    case AddsSpan(span) => SpanStep(span)
    case TakesEvent(ev, now) => EventStep(ev, now)
    case EvictsShard(_, now) => EvictStep(now)
  }

  /** The steps that shard `s` sees. */
  function Share(steps: seq<ShardStep>, s: nat): (share: seq<Step>) {
    if steps == [] then []
    else
      var before, last := Share(steps[..|steps| - 1], s), steps[|steps| - 1];
      if ShardAt(last) == s then before + [StepOf(last)] else before
  }

  function ShardsAfter(shards: seq<Tables>, step: ShardStep): (shards': seq<Tables>)
    requires |shards| == NUM_SHARDS
    ensures |shards'| == NUM_SHARDS
  {
    match step
    case AddsSpan(span) => ShardedAdd(shards, span)
    case TakesEvent(ev, now) => ShardedProcess(shards, ev, now).0
    case EvictsShard(s, now) => if s < NUM_SHARDS then shards[s := EvictStale(shards[s], now)] else shards
  }

  /** All shards after any run of spans, events and evictions. */
  function RunShards(steps: seq<ShardStep>): (shards: seq<Tables>)
    ensures |shards| == NUM_SHARDS
  {
    if steps == [] then seq(NUM_SHARDS, _ => EMPTY)
    else ShardsAfter(RunShards(steps[..|steps| - 1]), steps[|steps| - 1])
  }

  /** What one step emits. */
  function Emits(shards: seq<Tables>, step: ShardStep): (out: seq<Event>)
    requires |shards| == NUM_SHARDS
  {
    if step.TakesEvent? then ShardedProcess(shards, step.event, step.now).1 else []
  }

  /** What one step gives the enricher. */
  function Gives(step: ShardStep): (given: seq<Inflight>) {
    if step.TakesEvent? then [Inflight(step.event, step.now)] else []
  }

  /** Everything the sharded enricher emits over a run, in order. */
  function ShardedOutput(steps: seq<ShardStep>): (out: seq<Event>) {
    if steps == [] then []
    else ShardedOutput(steps[..|steps| - 1]) + Emits(RunShards(steps[..|steps| - 1]), steps[|steps| - 1])
  }

  /** Everything given to it, in order. */
  function ShardedArrivals(steps: seq<ShardStep>): (given: seq<Inflight>) {
    if steps == [] then [] else ShardedArrivals(steps[..|steps| - 1]) + Gives(steps[|steps| - 1])
  }

  lemma ShareGrows(before: seq<ShardStep>, last: ShardStep, s: nat)
    ensures Share(before + [last], s) == Share(before, s) + if ShardAt(last) == s then [StepOf(last)] else []
  {
    assert (before + [last])[..|before|] == before;
  }

  /** A run of one enricher, extended by one step. */
  lemma RunGrows(before: seq<Step>, last: Step)
    ensures RunTables(before + [last]) == TablesAfter(RunTables(before), last)
    ensures RunArrivals(before + [last])
         == RunArrivals(before) + if last.EventStep? then [Inflight(last.event, last.now)] else []
    ensures RunOutput(before + [last]) == RunOutput(before)
            + if last.EventStep? then ProcessWhole(RunTables(before), last.event, last.now).1 else []
  {
    assert (before + [last])[..|before|] == before;
  }

  /** Each shard holds what an enricher of its own would hold after its share of the steps. */
  lemma {:induction false} ShardIsItsOwnEnricher(steps: seq<ShardStep>, s: nat)
    requires s < NUM_SHARDS
    ensures RunShards(steps)[s] == RunTables(Share(steps, s))
  {
    if steps != [] {
      var before, last := steps[..|steps| - 1], steps[|steps| - 1];
      ShardIsItsOwnEnricher(before, s);
      RunGrows(Share(before, s), StepOf(last));
    }
  }

  // ---------------------------------------------------------------- nothing falls between the shards

  /** All elements of several sequences together. */
  function Pool<T>(parts: seq<seq<T>>): (all: multiset<T>) {
    if parts == [] then multiset{} else Pool(parts[..|parts| - 1]) + multiset(parts[|parts| - 1])
  }

  lemma {:induction false} PoolGrows<T>(parts: seq<seq<T>>, s: nat, more: seq<T>)
    requires s < |parts|
    ensures Pool(parts[s := parts[s] + more]) == Pool(parts) + multiset(more)
  {
    var n := |parts| - 1;
    var parts' := parts[s := parts[s] + more];
    if s == n {
      assert parts'[..n] == parts[..n];
    } else {
      assert parts'[..n] == parts[..n][s := parts[..n][s] + more];
      PoolGrows(parts[..n], s, more);
    }
  }

  lemma {:induction false} PoolOfNothing<T>(parts: seq<seq<T>>)
    requires forall s :: 0 <= s < |parts| ==> parts[s] == []
    ensures Pool(parts) == multiset{}
  {
    if parts != [] {
      PoolOfNothing(parts[..|parts| - 1]);
    }
  }

  function SharedArrivals(steps: seq<ShardStep>): (parts: seq<seq<Inflight>>)
    ensures |parts| == NUM_SHARDS
  {
    seq(NUM_SHARDS, s requires 0 <= s < NUM_SHARDS => RunArrivals(Share(steps, s)))
  }

  function SharedOutput(steps: seq<ShardStep>): (parts: seq<seq<Event>>)
    ensures |parts| == NUM_SHARDS
  {
    seq(NUM_SHARDS, s requires 0 <= s < NUM_SHARDS => RunOutput(Share(steps, s)))
  }

  function Extended<T>(part: seq<T>, concerned: bool, more: seq<T>): (part': seq<T>) {
    if concerned then part + more else part
  }

  /** One step adds what it gives and emits to the shard it concerns. */
  lemma ShareStep(before: seq<ShardStep>, last: ShardStep, s: nat)
    requires s < NUM_SHARDS
    ensures SharedArrivals(before + [last])[s]
         == Extended(SharedArrivals(before)[s], ShardAt(last) == s, Gives(last))
    ensures SharedOutput(before + [last])[s]
         == Extended(SharedOutput(before)[s], ShardAt(last) == s, Emits(RunShards(before), last))
  {
    ShareGrows(before, last, s);
    RunGrows(Share(before, s), StepOf(last));
    ShardIsItsOwnEnricher(before, s);
  }

  lemma PoolsGrow(before: seq<ShardStep>, last: ShardStep)
    ensures Pool(SharedArrivals(before + [last])) == Pool(SharedArrivals(before)) + multiset(Gives(last))
    ensures Pool(SharedOutput(before + [last])) == Pool(SharedOutput(before)) + multiset(Emits(RunShards(before), last))
  {
    var s := ShardAt(last);
    forall i | 0 <= i < NUM_SHARDS
      ensures SharedArrivals(before + [last])[i] == Extended(SharedArrivals(before)[i], s == i, Gives(last))
      ensures SharedOutput(before + [last])[i]
           == Extended(SharedOutput(before)[i], s == i, Emits(RunShards(before), last))
    {
      ShareStep(before, last, i);
    }
    if s < NUM_SHARDS {
      Grown(SharedArrivals(before), SharedArrivals(before + [last]), s, Gives(last));
      Grown(SharedOutput(before), SharedOutput(before + [last]), s, Emits(RunShards(before), last));
    } else {
      assert SharedArrivals(before + [last]) == SharedArrivals(before);
      assert SharedOutput(before + [last]) == SharedOutput(before);
    }
  }

  lemma Grown<T>(parts: seq<seq<T>>, parts': seq<seq<T>>, s: nat, more: seq<T>)
    requires |parts'| == |parts| && s < |parts|
    requires forall i :: 0 <= i < |parts| ==> parts'[i] == Extended(parts[i], s == i, more)
    ensures Pool(parts') == Pool(parts) + multiset(more)
  {
    assert parts' == parts[s := parts[s] + more];
    PoolGrows(parts, s, more);
  }

  /** The shards together take in exactly the events given and emit exactly what is emitted. */
  lemma {:induction false} SharesAreAll(steps: seq<ShardStep>)
    ensures Pool(SharedArrivals(steps)) == multiset(ShardedArrivals(steps))
    ensures Pool(SharedOutput(steps)) == multiset(ShardedOutput(steps))
  {
    if steps == [] {
      PoolOfNothing(SharedArrivals(steps));
      PoolOfNothing(SharedOutput(steps));
    } else {
      var before, last := steps[..|steps| - 1], steps[|steps| - 1];
      assert steps == before + [last];
      SharesAreAll(before);
      PoolsGrow(before, last);
    }
  }

  // ---------------------------------------------------------------- what carries over

  /**
   * Conservation in the sharded enricher, with eviction: every shard keeps balanced books of its
   * share, and the shares together are all the events given and all the events emitted.
   */
  lemma ShardedConservation(steps: seq<ShardStep>, s: nat) returns (l: Ledger)
    requires s < NUM_SHARDS
    ensures Balanced(l) && Follows(l, Share(steps, s)) && l.tables == RunShards(steps)[s]
    ensures |SharedArrivals(steps)[s]| ==
            |RunShards(steps)[s].syscalls| + |RunShards(steps)[s].blocks|
            + |SingleOutputs(l.emitted)| + 2 * |PairOutputs(l.emitted)|
            + |OverwrittenEvents(l.fates)| + |EvictedEvents(l.fates)|
    ensures Pool(SharedArrivals(steps)) == multiset(ShardedArrivals(steps))
    ensures Pool(SharedOutput(steps)) == multiset(ShardedOutput(steps))
  {
    SharesAreAll(steps);
    ShardIsItsOwnEnricher(steps, s);
    l := Conservation(Share(steps, s));
  }

  lemma {:induction false} ShareSees(steps: seq<ShardStep>, key: PairKey)
    ensures Seen(SharedArrivals(steps)[PidShard(key.pid)], key) == Seen(ShardedArrivals(steps), key)
  {
    if steps != [] {
      var before, last, s := steps[..|steps| - 1], steps[|steps| - 1], PidShard(key.pid);
      assert steps == before + [last];
      ShareSees(before, key);
      ShareStep(before, last, s);
      SeesGiven(ShardedArrivals(before), last, key);
      SeesGiven(SharedArrivals(before)[s], last, key);
    }
  }

  /** Only the shard of its process counts a half of a thread. */
  lemma SeesGiven(arrived: seq<Inflight>, last: ShardStep, key: PairKey)
    ensures ShardAt(last) != PidShard(key.pid) ==> Seen(arrived + Gives(last), key) == Seen(arrived, key)
    ensures Seen(arrived + Gives(last), key) == Seen(arrived, key) + Seen(Gives(last), key)
  {
    if last.TakesEvent? {
      SeenSnoc(arrived, Inflight(last.event, last.now), key);
      SeenSnoc([], Inflight(last.event, last.now), key);
      assert [] + Gives(last) == Gives(last);
    } else {
      assert arrived + Gives(last) == arrived;
    }
  }

  /** No eviction of this shard. */
  predicate NeverEvicted(steps: seq<ShardStep>, s: nat) {
    forall k :: 0 <= k < |steps| && steps[k].EvictsShard? ==> steps[k].shard != s
  }

  lemma {:induction false} ShareHasNoEviction(steps: seq<ShardStep>, s: nat)
    requires NeverEvicted(steps, s)
    ensures NoEviction(Share(steps, s))
  {
    if steps != [] {
      ShareHasNoEviction(steps[..|steps| - 1], s);
    }
  }

  /** Without eviction, a thread has a syscall in flight in its shard exactly after an odd number of halves. */
  lemma ShardedOddMeansInFlight(steps: seq<ShardStep>, key: PairKey)
    requires NeverEvicted(steps, PidShard(key.pid))
    ensures key in RunShards(steps)[PidShard(key.pid)].syscalls <==> Seen(ShardedArrivals(steps), key) % 2 == 1
  {
    var s := PidShard(key.pid);
    ShareHasNoEviction(steps, s);
    ShardIsItsOwnEnricher(steps, s);
    OddMeansInFlight(Share(steps, s), key);
    ShareSees(steps, key);
  }

  lemma {:induction false} ShareEndsAlike(steps: seq<ShardStep>, key: BlockKey)
    ensures LastIsIssue(SharedArrivals(steps)[BlockShard(key)], key) == LastIsIssue(ShardedArrivals(steps), key)
  {
    if steps != [] {
      var before, last, s := steps[..|steps| - 1], steps[|steps| - 1], BlockShard(key);
      assert steps == before + [last];
      ShareEndsAlike(before, key);
      ShareStep(before, last, s);
      EndsGiven(ShardedArrivals(before), SharedArrivals(before)[s], last, key);
    }
  }

  /** Lists that end alike still do after a step; outside its shard a step does not concern the key. */
  lemma EndsGiven(all: seq<Inflight>, part: seq<Inflight>, last: ShardStep, key: BlockKey)
    requires LastIsIssue(part, key) == LastIsIssue(all, key)
    ensures LastIsIssue(Extended(part, ShardAt(last) == BlockShard(key), Gives(last)), key)
         == LastIsIssue(all + Gives(last), key)
  {
    if last.TakesEvent? {
      LastIsIssueSnoc(all, Inflight(last.event, last.now), key);
      LastIsIssueSnoc(part, Inflight(last.event, last.now), key);
    } else {
      assert all + Gives(last) == all && part + Gives(last) == part;
    }
  }

  /** Without eviction, a block key is in flight in its shard exactly when its last half is an issue. */
  lemma ShardedLastIssueMeansInFlight(steps: seq<ShardStep>, key: BlockKey)
    requires NeverEvicted(steps, BlockShard(key))
    ensures key in RunShards(steps)[BlockShard(key)].blocks <==> LastIsIssue(ShardedArrivals(steps), key)
  {
    var s := BlockShard(key);
    ShareHasNoEviction(steps, s);
    ShardIsItsOwnEnricher(steps, s);
    LastIssueMeansInFlight(Share(steps, s), key);
    ShareEndsAlike(steps, key);
  }

  // ---------------------------------------------------------------- retained spans

  /** The spans of one process that were added over a run. */
  function AddedSpans(steps: seq<ShardStep>, pid: uint32): (spans: seq<Span>) {
    if steps == [] then []
    else ArrivalsAfter(AddedSpans(steps[..|steps| - 1], pid), StepOf(steps[|steps| - 1]), pid)
  }

  lemma {:induction false} ShareHasSpans(steps: seq<ShardStep>, pid: uint32)
    ensures Arrivals(Share(steps, PidShard(pid)), pid) == AddedSpans(steps, pid)
  {
    if steps != [] {
      var before, last := steps[..|steps| - 1], steps[|steps| - 1];
      var share := Share(before, PidShard(pid));
      ShareHasSpans(before, pid);
      assert (share + [StepOf(last)])[..|share|] == share;
    }
  }

  /** The spans that the shard of a process holds for it. */
  function HeldSpans(steps: seq<ShardStep>, pid: uint32): (spans: seq<Span>) {
    SpansOf(RunShards(steps)[PidShard(pid)], pid)
  }

  /** The spans held for the process after `n` steps are the newest added. */
  ghost predicate ShardHoldsNewest(steps: seq<ShardStep>, pid: uint32, n: nat)
    requires n <= |steps|
  {
    IsSuffix(HeldSpans(steps[..n], pid), AddedSpans(steps[..n], pid))
  }

  /** Step `n`, if it evicts the shard of the process and is due, finds its expired spans first. */
  ghost predicate ShardFindsExpiredFirst(steps: seq<ShardStep>, pid: uint32, n: nat)
    requires n < |steps|
  {
    ShardAt(steps[n]) == PidShard(pid) ==>
      FindsExpiredFirst(RunShards(steps[..n])[PidShard(pid)], StepOf(steps[n]), pid)
  }

  lemma ShardHoldsNewestStep(steps: seq<ShardStep>, pid: uint32, n: nat)
    requires n < |steps| && ShardHoldsNewest(steps, pid, n)
    ensures ShardHoldsNewest(steps, pid, n + 1) <==> ShardFindsExpiredFirst(steps, pid, n)
  {
    var before, s := steps[..n], PidShard(pid);
    assert steps[..n + 1][..n] == before;
    ShardIsItsOwnEnricher(before, s);
    KeptAtMost(Share(before, s), pid);
    if ShardAt(steps[n]) == s {
      OwnStep(RunShards(before), steps[n]);
      StepKeepsSuffixIff(RunShards(before)[s], AddedSpans(before, pid), StepOf(steps[n]), pid);
    }
  }

  lemma OwnStep(shards: seq<Tables>, step: ShardStep)
    requires |shards| == NUM_SHARDS && ShardAt(step) < NUM_SHARDS
    ensures ShardsAfter(shards, step)[ShardAt(step)] == TablesAfter(shards[ShardAt(step)], StepOf(step))
  {
  }

  /**
   * Throughout a run of the sharded enricher the spans held for a process are its newest exactly
   * when every due eviction of its shard finds the expired ones first.
   */
  lemma ShardHoldsNewestIff(steps: seq<ShardStep>, pid: uint32)
    ensures (forall n :: 0 <= n <= |steps| ==> ShardHoldsNewest(steps, pid, n))
            <==> forall n :: 0 <= n < |steps| ==> ShardFindsExpiredFirst(steps, pid, n)
  {
    if forall n :: 0 <= n <= |steps| ==> ShardHoldsNewest(steps, pid, n) {
      forall n | 0 <= n < |steps|
        ensures ShardFindsExpiredFirst(steps, pid, n)
      {
        assert ShardHoldsNewest(steps, pid, n) && ShardHoldsNewest(steps, pid, n + 1);
        ShardHoldsNewestStep(steps, pid, n);
      }
    }
    if forall n :: 0 <= n < |steps| ==> ShardFindsExpiredFirst(steps, pid, n) {
      forall n | 0 <= n <= |steps|
        ensures ShardHoldsNewest(steps, pid, n)
      {
        ShardHoldsNewestUpTo(steps, pid, n);
      }
    }
  }

  lemma {:induction false} ShardHoldsNewestUpTo(steps: seq<ShardStep>, pid: uint32, n: nat)
    requires n <= |steps|
    requires forall m :: 0 <= m < |steps| ==> ShardFindsExpiredFirst(steps, pid, m)
    ensures ShardHoldsNewest(steps, pid, n)
  {
    if n > 0 {
      ShardHoldsNewestUpTo(steps, pid, n - 1);
      ShardHoldsNewestStep(steps, pid, n - 1);
    }
  }

  /** In particular: the bound always, the newest spans without eviction or in stamp order, and their exact number. */
  lemma ShardedKeptSpans(steps: seq<ShardStep>, pid: uint32)
    ensures var spans, added := HeldSpans(steps, pid), AddedSpans(steps, pid);
            && |spans| <= MAX_SPANS
            && (InOrder(added) || NeverEvicted(steps, PidShard(pid)) ==> IsSuffix(spans, added))
            && (NeverEvicted(steps, PidShard(pid)) ==> |spans| == Kept(|added|))
  {
    var s := PidShard(pid);
    ShareHasSpans(steps, pid);
    ShardIsItsOwnEnricher(steps, s);
    KeptAtMost(Share(steps, s), pid);
    if NeverEvicted(steps, s) {
      ShareHasNoEviction(steps, s);
      KeptNumber(Share(steps, s), pid);
    }
    if InOrder(AddedSpans(steps, pid)) || NeverEvicted(steps, s) {
      KeptSpans(Share(steps, s), pid);
    }
  }

  // ---------------------------------------------------------------- a run that leaves a gap

  /** A step of a single enricher, taken by the first shard. */
  function OnFirstShard(step: Step): (r: ShardStep) {
    match step
    case SpanStep(span) => AddsSpan(span)
    case EventStep(ev, now) => TakesEvent(ev, now)
    case EvictStep(now) => EvictsShard(0, now)
  }

  function AllOnFirstShard(steps: seq<Step>): (r: seq<ShardStep>)
    ensures |r| == |steps|
  {
    seq(|steps|, i requires 0 <= i < |steps| => OnFirstShard(steps[i]))
  }

  lemma {:induction false} ShareOfFirstShard(steps: seq<Step>)
    requires forall k :: 0 <= k < |steps| ==> ShardAt(OnFirstShard(steps[k])) == 0
    ensures Share(AllOnFirstShard(steps), 0) == steps
  {
    if steps != [] {
      var n := |steps| - 1;
      assert AllOnFirstShard(steps)[..n] == AllOnFirstShard(steps[..n]);
      ShareOfFirstShard(steps[..n]);
      assert steps == steps[..n] + [steps[n]];
    }
  }

  /** The condition is real in the sharded enricher too: its first shard keeps the older span and not the newer. */
  lemma ShardEvictionLeavesGap()
    ensures var steps := AllOnFirstShard(GapSteps());
            && HeldSpans(steps, 0) == [SpanOf(0, SPAN_TTL)]
            && AddedSpans(steps, 0) == [SpanOf(0, SPAN_TTL), SpanOf(0, 0)]
            && !IsSuffix(HeldSpans(steps, 0), AddedSpans(steps, 0))
  {
    var steps := AllOnFirstShard(GapSteps());
    assert forall k :: 0 <= k < |GapSteps()| ==> ShardAt(OnFirstShard(GapSteps()[k])) == 0;
    ShareOfFirstShard(GapSteps());
    ShardIsItsOwnEnricher(steps, 0);
    ShareHasSpans(steps, 0);
    EvictionLeavesGap();
  }
}
