/** Conservation of events over every run of the enricher, counted from its ledger, and syscall parity. */
module EnricherConservation {
  import opened KernelEvents
  import opened Sequences
  import opened Enricher
  import opened EnricherLedger

  lemma {:induction false} InjectiveMapCard<A, B>(m: map<A, B>)
    requires forall x, y :: x in m && y in m && m[x] == m[y] ==> x == y
    ensures |m.Values| == |m.Keys|
    decreases m.Keys
  {
    if m.Keys != {} {
      var x :| x in m;
      var rest := m - {x};
      InjectiveMapCard(rest);
      assert m.Keys == rest.Keys + {x};
      assert m.Values == rest.Values + {m[x]};
    }
  }

  lemma DisjointCard<T>(a: set<T>, b: set<T>)
    requires a !! b
    ensures |a + b| == |a| + |b|
  {
  }

  /** The arrival numbers of the held events that belong to one table. */
  ghost function HeldOf<K>(keyOf: Event -> Option<K>, arrived: seq<Inflight>, fates: seq<Fate>): (s: set<nat>)
    requires |fates| == |arrived|
  {
    set k: nat | k < |fates| && fates[k].Held? && keyOf(arrived[k].event).Some?
  }

  ghost function HeldEvents(fates: seq<Fate>): (s: set<nat>) { set k: nat | k < |fates| && fates[k].Held? }

  ghost function PassedEvents(fates: seq<Fate>): (s: set<nat>) { set k: nat | k < |fates| && fates[k].PassedThrough? }

  ghost function PairedEvents(fates: seq<Fate>): (s: set<nat>) { set k: nat | k < |fates| && fates[k].Paired? }

  ghost function OverwrittenEvents(fates: seq<Fate>): (s: set<nat>) {
    set k: nat | k < |fates| && fates[k].Overwritten?
  }

  ghost function EvictedEvents(fates: seq<Fate>): (s: set<nat>) { set k: nat | k < |fates| && fates[k].Evicted? }

  /** A table holds as many entries as there are held events of its kind. */
  lemma TableCard<K(!new)>(keyOf: Event -> Option<K>, arrived: seq<Inflight>, fates: seq<Fate>,
                           table: map<K, Inflight>, at: map<K, nat>)
    requires TableHeld(keyOf, arrived, fates, table, at)
    ensures |HeldOf(keyOf, arrived, fates)| == |table|
  {
    InjectiveMapCard(at);
    assert at.Values == HeldOf(keyOf, arrived, fates);
    assert |table| == |table.Keys| == |at.Keys|;
  }

  lemma HeldSplit(arrived: seq<Inflight>, sweeps: seq<Sweep>, fates: seq<Fate>)
    requires FatesExplained(arrived, sweeps, fates)
    ensures HeldEvents(fates) == HeldOf(SyscallKeyOf, arrived, fates) + HeldOf(BlockKeyOf, arrived, fates)
    ensures HeldOf(SyscallKeyOf, arrived, fates) !! HeldOf(BlockKeyOf, arrived, fates)
  {
    forall k: nat | k in HeldEvents(fates)
      ensures MayWait(arrived[k].event)
    {
      assert Explained(arrived, sweeps, fates, k);
    }
  }

  lemma HeldCard(l: Ledger)
    requires Balanced(l)
    ensures |HeldEvents(l.fates)| == |l.tables.syscalls| + |l.tables.blocks|
  {
    TableCard(SyscallKeyOf, l.arrived, l.fates, l.tables.syscalls, l.syscallAt);
    TableCard(BlockKeyOf, l.arrived, l.fates, l.tables.blocks, l.blockAt);
    HeldSplit(l.arrived, l.sweeps, l.fates);
    DisjointCard(HeldOf(SyscallKeyOf, l.arrived, l.fates), HeldOf(BlockKeyOf, l.arrived, l.fates));
  }

  ghost function SingleOutputs(emitted: seq<Emission>): (s: set<nat>) {
    set e: nat | e < |emitted| && emitted[e].second.None?
  }

  ghost function PairOutputs(emitted: seq<Emission>): (s: set<nat>) {
    set e: nat | e < |emitted| && emitted[e].second.Some?
  }

  lemma PassedCard(arrived: seq<Inflight>, fates: seq<Fate>, emitted: seq<Emission>)
    requires OutputsMatch(arrived, fates, emitted)
    ensures |PassedEvents(fates)| == |SingleOutputs(emitted)|
  {
    var firsts := map e | e in SingleOutputs(emitted) :: emitted[e].first;
    forall e | e in SingleOutputs(emitted) ensures EmissionMade(arrived, fates, emitted, e) {}
    InjectiveMapCard(firsts);
    assert firsts.Keys == SingleOutputs(emitted);
    forall k: nat
      ensures k in firsts.Values <==> k in PassedEvents(fates)
    {
      if k < |fates| && fates[k].PassedThrough? {
        assert FateEmitted(fates, emitted, k);
        assert fates[k].emission in firsts;
      }
    }
    assert firsts.Values == PassedEvents(fates);
  }

  /** The first halves of all pairs, and the second halves, by output position. */
  lemma PairHalves(arrived: seq<Inflight>, fates: seq<Fate>, emitted: seq<Emission>)
    returns (firsts: map<nat, nat>, seconds: map<nat, nat>)
    requires OutputsMatch(arrived, fates, emitted)
    ensures firsts.Keys == PairOutputs(emitted) && seconds.Keys == PairOutputs(emitted)
    ensures forall e :: e in firsts ==> emitted[e].first == firsts[e] && emitted[e].second == Some(seconds[e])
    ensures forall e :: e in firsts ==>
              && firsts[e] < seconds[e] < |fates|
              && fates[firsts[e]] == Paired(seconds[e], e) && fates[seconds[e]] == Paired(firsts[e], e)
  {
    firsts := map e | e in PairOutputs(emitted) :: emitted[e].first;
    seconds := map e | e in PairOutputs(emitted) :: emitted[e].second.value;
    forall e | e in PairOutputs(emitted) ensures EmissionMade(arrived, fates, emitted, e) {}
  }

  lemma PairedCard(arrived: seq<Inflight>, fates: seq<Fate>, emitted: seq<Emission>)
    requires OutputsMatch(arrived, fates, emitted)
    ensures |PairedEvents(fates)| == 2 * |PairOutputs(emitted)|
  {
    var firsts, seconds := PairHalves(arrived, fates, emitted);
    InjectiveMapCard(firsts);
    InjectiveMapCard(seconds);
    HalvesDisjoint(fates, firsts, seconds);
    DisjointCard(firsts.Values, seconds.Values);
    PairedAreHalves(arrived, fates, emitted, firsts, seconds);
  }

  lemma HalvesDisjoint(fates: seq<Fate>, firsts: map<nat, nat>, seconds: map<nat, nat>)
    requires firsts.Keys == seconds.Keys
    requires forall e :: e in firsts ==>
               && firsts[e] < seconds[e] < |fates|
               && fates[firsts[e]] == Paired(seconds[e], e) && fates[seconds[e]] == Paired(firsts[e], e)
    ensures firsts.Values !! seconds.Values
  {
    forall e, f | e in firsts && f in seconds
      ensures firsts[e] != seconds[f]
    {
      assert fates[firsts[e]] == Paired(seconds[e], e) && fates[seconds[f]] == Paired(firsts[f], f);
    }
  }

  lemma PairedAreHalves(arrived: seq<Inflight>, fates: seq<Fate>, emitted: seq<Emission>,
                        firsts: map<nat, nat>, seconds: map<nat, nat>)
    requires OutputsMatch(arrived, fates, emitted)
    requires firsts.Keys == PairOutputs(emitted) && seconds.Keys == PairOutputs(emitted)
    requires forall e :: e in firsts ==> emitted[e].first == firsts[e] && emitted[e].second == Some(seconds[e])
    requires forall e :: e in firsts ==>
               && firsts[e] < seconds[e] < |fates| && fates[firsts[e]].Paired? && fates[seconds[e]].Paired?
    ensures firsts.Values + seconds.Values == PairedEvents(fates)
  {
    forall k: nat | k in PairedEvents(fates)
      ensures k in firsts.Values || k in seconds.Values
    {
      assert FateEmitted(fates, emitted, k);
      assert fates[k].emission in firsts && fates[k].emission in seconds;
    }
  }

  lemma FatesPartition(fates: seq<Fate>)
    ensures |fates| == |HeldEvents(fates)| + |PassedEvents(fates)| + |PairedEvents(fates)|
                       + |OverwrittenEvents(fates)| + |EvictedEvents(fates)|
  {
    var held, passed, paired := HeldEvents(fates), PassedEvents(fates), PairedEvents(fates);
    var overwritten, evicted := OverwrittenEvents(fates), EvictedEvents(fates);
    DisjointCard(held, passed);
    DisjointCard(held + passed, paired);
    DisjointCard(held + passed + paired, overwritten);
    DisjointCard(held + passed + paired + overwritten, evicted);
    assert held + passed + paired + overwritten + evicted == Below(|fates|);
  }

  lemma OutputsPartition(emitted: seq<Emission>)
    ensures |emitted| == |SingleOutputs(emitted)| + |PairOutputs(emitted)|
  {
    DisjointCard(SingleOutputs(emitted), PairOutputs(emitted));
    assert SingleOutputs(emitted) + PairOutputs(emitted) == Below(|emitted|);
  }

  /** The arrivals of a balanced ledger, counted by what became of them. */
  lemma BalancedCount(l: Ledger)
    requires Balanced(l)
    ensures |l.arrived| ==
            |l.tables.syscalls| + |l.tables.blocks| + |SingleOutputs(l.emitted)| + 2 * |PairOutputs(l.emitted)|
            + |OverwrittenEvents(l.fates)| + |EvictedEvents(l.fates)|
  {
    FatesPartition(l.fates);
    HeldCard(l);
    PassedCard(l.arrived, l.fates, l.emitted);
    PairedCard(l.arrived, l.fates, l.emitted);
  }

  lemma NothingEvicted(l: Ledger)
    requires Balanced(l) && l.sweeps == []
    ensures EvictedEvents(l.fates) == {}
  {
    forall k | 0 <= k < |l.fates|
      ensures !l.fates[k].Evicted?
    {
      assert Explained(l.arrived, l.sweeps, l.fates, k);
    }
  }

  /** No system call is lost without an eviction that took it as stale. */
  lemma SyscallsAreKept(steps: seq<Step>, k: nat) returns (l: Ledger)
    requires k < |RunArrivals(steps)| && IsHalfSyscall(RunArrivals(steps)[k].event)
    ensures Balanced(l) && Follows(l, steps) && |l.fates| == |RunArrivals(steps)|
    ensures || l.fates[k].Held? || l.fates[k].Paired?
            || (l.fates[k].Evicted? && l.fates[k].sweep < |RunSweeps(steps)|
                && SweepTakes(RunSweeps(steps)[l.fates[k].sweep], RunArrivals(steps)[k]))
  {
    l := RunBalanced(steps);
    assert Explained(l.arrived, l.sweeps, l.fates, k);
  }

  /**
   * Conservation over every run: the events given are those still in the tables, those passed
   * through, two for every emitted pair, the block issues that were issued again, and those an
   * eviction of the run found stale.
   */
  lemma Conservation(steps: seq<Step>) returns (l: Ledger)
    ensures Balanced(l) && Follows(l, steps)
    ensures |RunArrivals(steps)| ==
            |RunTables(steps).syscalls| + |RunTables(steps).blocks|
            + |SingleOutputs(l.emitted)| + 2 * |PairOutputs(l.emitted)|
            + |OverwrittenEvents(l.fates)| + |EvictedEvents(l.fates)|
    ensures |RunOutput(steps)| == |SingleOutputs(l.emitted)| + |PairOutputs(l.emitted)|
    ensures NoEviction(steps) ==> EvictedEvents(l.fates) == {}
  {
    l := RunBalanced(steps);
    BalancedCount(l);
    OutputsPartition(l.emitted);
    if NoEviction(steps) {
      NoEvictionNoSweeps(steps);
      NothingEvicted(l);
    }
  }

  /**
   * Over every run, what is emitted: an event that passed through, or a pair of two arrivals of one
   * cgroup, process and thread, or of one sector, size and operation, with no other such in between.
   */
  lemma EmittedFrom(steps: seq<Step>, e: nat) returns (first: nat, second: Option<nat>)
    requires e < |RunOutput(steps)|
    ensures var arrived, out := RunArrivals(steps), RunOutput(steps)[e];
            && first < |arrived|
            && (second.None? ==> !MayWait(arrived[first].event) && SameButTrace(out, arrived[first].event))
            && (second.Some? ==>
                  && Next(arrived, first, second.value)
                  && Halves(arrived[first].event, arrived[second.value].event)
                  && Joins(out, arrived[first].event, arrived[second.value].event))
  {
    var l := RunBalanced(steps);
    assert EmissionMade(l.arrived, l.fates, l.emitted, e);
    first, second := l.emitted[e].first, l.emitted[e].second;
    assert Explained(l.arrived, l.sweeps, l.fates, first);
  }

  // ---------------------------------------------------------------- syscall parity

  /** A read or write of this cgroup, process and thread. */
  predicate IsOfThread(ev: Event, key: PairKey) {
    IsHalfSyscall(ev) && ev.cgroupId == key.cgroupId && ev.pid == key.pid && ev.tid == key.tid
  }

  /** How many of them arrived. */
  function Seen(arrived: seq<Inflight>, key: PairKey): (count: nat) {
    if arrived == [] then 0
    else Seen(arrived[..|arrived| - 1], key) + if IsOfThread(arrived[|arrived| - 1].event, key) then 1 else 0
  }

  lemma SeenSnoc(arrived: seq<Inflight>, arrival: Inflight, key: PairKey)
    ensures Seen(arrived + [arrival], key)
         == Seen(arrived, key) + if IsOfThread(arrival.event, key) then 1 else 0
  {
    assert (arrived + [arrival])[..|arrived|] == arrived;
  }

  /** Without eviction a thread has a syscall in flight exactly when it has shown an odd number of halves. */
  lemma {:induction false} OddMeansInFlight(steps: seq<Step>, key: PairKey)
    requires NoEviction(steps)
    ensures key in RunTables(steps).syscalls <==> Seen(RunArrivals(steps), key) % 2 == 1
  {
    if steps != [] {
      var before, last := steps[..|steps| - 1], steps[|steps| - 1];
      OddMeansInFlight(before, key);
      match last
      case SpanStep(span) =>
      case EventStep(ev, now) => OddStep(RunTables(before), RunArrivals(before), ev, now, key);
      case EvictStep(_) =>
        assert false;
    }
  }

  lemma OddStep(t: Tables, arrived: seq<Inflight>, ev: Event, now: Time, key: PairKey)
    requires key in t.syscalls <==> Seen(arrived, key) % 2 == 1
    ensures key in ProcessWhole(t, ev, now).0.syscalls <==> Seen(arrived + [Inflight(ev, now)], key) % 2 == 1
  {
    SyscallToggles(t, ev, now, key);
    SeenSnoc(arrived, Inflight(ev, now), key);
  }

  lemma SyscallToggles(t: Tables, ev: Event, now: Time, key: PairKey)
    ensures key in ProcessWhole(t, ev, now).0.syscalls <==>
            (if IsOfThread(ev, key) then key !in t.syscalls else key in t.syscalls)
  {
    TraceKeepsIdentity(SpansOf(t, ev.pid), ev);
  }

  // ---------------------------------------------------------------- block issues in flight

  predicate IsBlockHalf(ev: Event, key: BlockKey) {
    && IsHalfBlock(ev) && ev.payload.blockSector == Some(key.sector) && ev.payload.blockBytes == Some(key.bytes)
    && ev.payload.blockOp == key.op
  }

  /** The last issue or completion of this key, if any, is an issue. */
  predicate LastIsIssue(arrived: seq<Inflight>, key: BlockKey) {
    if arrived == [] then false
    else
      var last := arrived[|arrived| - 1].event;
      if IsBlockHalf(last, key) then IsIssue(last) else LastIsIssue(arrived[..|arrived| - 1], key)
  }

  lemma LastIsIssueSnoc(arrived: seq<Inflight>, arrival: Inflight, key: BlockKey)
    ensures LastIsIssue(arrived + [arrival], key)
         == if IsBlockHalf(arrival.event, key) then IsIssue(arrival.event) else LastIsIssue(arrived, key)
  {
    assert (arrived + [arrival])[..|arrived|] == arrived;
  }

  /** Without eviction a block key is in flight exactly when its last half is an issue. */
  lemma {:induction false} LastIssueMeansInFlight(steps: seq<Step>, key: BlockKey)
    requires NoEviction(steps)
    ensures key in RunTables(steps).blocks <==> LastIsIssue(RunArrivals(steps), key)
  {
    if steps != [] {
      var before, last := steps[..|steps| - 1], steps[|steps| - 1];
      LastIssueMeansInFlight(before, key);
      match last
      case SpanStep(span) =>
      case EventStep(ev, now) =>
        BlockEntryAfter(RunTables(before), ev, now, key);
        LastIsIssueSnoc(RunArrivals(before), Inflight(ev, now), key);
      case EvictStep(_) =>
        assert false;
    }
  }

  lemma BlockEntryAfter(t: Tables, ev: Event, now: Time, key: BlockKey)
    ensures key in ProcessWhole(t, ev, now).0.blocks
            <==> if IsBlockHalf(ev, key) then IsIssue(ev) else key in t.blocks
  {
    TraceKeepsIdentity(SpansOf(t, ev.pid), ev);
  }
}
