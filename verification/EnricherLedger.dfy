/** Bookkeeping over every run of the enricher: what became of each event, and why. */
module EnricherLedger {
  import opened KernelEvents
  import opened Sequences
  import opened Enricher

  /**
   * `emission` is the position in the output where the event, or its pair, was emitted; `successor`
   * is the arrival that took its place; `sweep` is the eviction that removed it.
   */
  datatype Fate =
    | Held
    | PassedThrough(emission: nat)
    | Paired(partner: nat, emission: nat)
    | Overwritten(successor: nat)
    | Evicted(sweep: nat)

  /** One output event and the one or two inputs it was made from. */
  datatype Emission = Emission(first: nat, second: Option<nat>, event: Event)

  /** One eviction: the tables it found, the clock it read, and how many events had arrived before it. */
  datatype Sweep = Sweep(tables: Tables, now: Time, seen: nat)

  /**
   * The tables of an enricher next to everything that arrived, as it arrived and when, and the
   * arrival numbers of the events they hold.
   */
  datatype Ledger = Ledger(
    tables: Tables, arrived: seq<Inflight>, sweeps: seq<Sweep>, fates: seq<Fate>, emitted: seq<Emission>,
    syscallAt: map<PairKey, nat>, blockAt: map<BlockKey, nat>)

  const EMPTY_LEDGER := Ledger(EMPTY, [], [], [], [], map[], map[])

  // ---------------------------------------------------------------- the books balance

  function SyscallKeyOf(ev: Event): (key: Option<PairKey>) {
    if IsSyscall(ev) then Some(SyscallKey(ev)) else None
  }

  function BlockKeyOf(ev: Event): (key: Option<BlockKey>) {
    if ev.eventType.BlockIo? then MakeBlockKey(ev) else None
  }

  // What follows is said of the fields of events alone, not of the keys the tables use.

  predicate IsHalfSyscall(ev: Event) { ev.eventType in {SysRead, SysWrite} }

  /** One half of a block operation that carries everything needed to match it. */
  predicate IsHalfBlock(ev: Event) {
    && ev.eventType == BlockIo && ev.payload.blockPhase in {Issue, Complete}
    && ev.payload.blockSector.Some? && ev.payload.blockSector.value != 0xFFFF_FFFF_FFFF_FFFF
    && ev.payload.blockBytes.Some? && ev.payload.blockBytes.value != 0
    && ev.payload.blockOp != ""
  }

  predicate IsIssue(ev: Event) { IsHalfBlock(ev) && ev.payload.blockPhase == Issue }

  predicate SameThread(a: Event, b: Event) { a.cgroupId == b.cgroupId && a.pid == b.pid && a.tid == b.tid }

  predicate SameBlock(a: Event, b: Event) {
    && a.payload.blockSector == b.payload.blockSector && a.payload.blockBytes == b.payload.blockBytes
    && a.payload.blockOp == b.payload.blockOp
  }

  /** Only system calls and keyed block issues wait for another half. */
  predicate MayWait(ev: Event) { IsHalfSyscall(ev) || IsIssue(ev) }

  /** The later event completes or replaces the earlier one, if that still waits. */
  predicate Touches(a: Event, b: Event) {
    || (IsHalfSyscall(a) && IsHalfSyscall(b) && SameThread(a, b))
    || (IsHalfBlock(a) && IsHalfBlock(b) && SameBlock(a, b))
  }

  /** Two halves of one operation: two system calls of a thread, or an issue and its completion. */
  predicate Halves(a: Event, b: Event) {
    Touches(a, b) && (IsHalfSyscall(a) || (IsIssue(a) && !IsIssue(b)))
  }

  /** The keys of the tables say the same. */
  lemma KeysMeanFields(a: Event, b: Event)
    ensures IsSyscall(a) <==> IsHalfSyscall(a)
    ensures IsKeyedBlock(a) && !a.payload.blockPhase.OtherPhase? <==> IsHalfBlock(a)
    ensures SyscallKey(a) == SyscallKey(b) <==> SameThread(a, b)
    ensures IsKeyedBlock(a) && IsKeyedBlock(b) ==> (MakeBlockKey(a) == MakeBlockKey(b) <==> SameBlock(a, b))
  {
  }

  /** The entry is the arrival, but for what the trace lookup changed. */
  predicate IsEntryOf(entry: Inflight, arrival: Inflight) {
    SameButTrace(entry.event, arrival.event) && entry.arrivedAt == arrival.arrivedAt
  }

  /**
   * A pairing table holds, under each key, an arrived event of that key that is still held; and
   * every held event with a key for this table is in it.
   */
  ghost predicate TableHeld<K(!new)>(
    keyOf: Event -> Option<K>, arrived: seq<Inflight>, fates: seq<Fate>, table: map<K, Inflight>, at: map<K, nat>)
  {
    && |fates| == |arrived| && at.Keys == table.Keys
    && (forall key :: key in at ==>
          && at[key] < |arrived| && fates[at[key]].Held? && keyOf(arrived[at[key]].event) == Some(key)
          && IsEntryOf(table[key], arrived[at[key]]))
    && forall k :: 0 <= k < |fates| && fates[k].Held? && keyOf(arrived[k].event).Some? ==>
         keyOf(arrived[k].event).value in at && at[keyOf(arrived[k].event).value] == k
  }

  predicate EvictionDue(t: Tables) {
    |t.syscalls| >= EVICT_THRESHOLD || |t.blocks| >= EVICT_THRESHOLD || |t.spans| >= EVICT_THRESHOLD
  }

  predicate HasEntry<K>(table: map<K, Inflight>, key: Option<K>, arrival: Inflight) {
    key.Some? && key.value in table && IsEntryOf(table[key.value], arrival)
  }

  /** The eviction was due, found the arrival in its table, and the arrival was older than allowed. */
  predicate SweepTakes(sweep: Sweep, arrival: Inflight) {
    && EvictionDue(sweep.tables) && arrival.arrivedAt < sweep.now - INFLIGHT_TTL
    && (|| HasEntry(sweep.tables.syscalls, SyscallKeyOf(arrival.event), arrival)
        || HasEntry(sweep.tables.blocks, BlockKeyOf(arrival.event), arrival))
  }

  /** Nothing between arrival `k` and arrival `end` touches it. */
  ghost predicate Untouched(arrived: seq<Inflight>, k: nat, end: nat)
    requires k < |arrived| && end <= |arrived|
  {
    forall j :: k < j < end ==> !Touches(arrived[k].event, arrived[j].event)
  }

  /** Arrival `m` is the first to touch arrival `k`. */
  ghost predicate Next(arrived: seq<Inflight>, k: nat, m: nat) {
    k < m < |arrived| && Touches(arrived[k].event, arrived[m].event) && Untouched(arrived, k, m)
  }

  /** Arrival `k` was evicted before arrival `end`. */
  ghost predicate EvictedBefore(sweeps: seq<Sweep>, fates: seq<Fate>, k: nat, end: nat)
    requires k < |fates|
  {
    fates[k].Evicted? && fates[k].sweep < |sweeps| && sweeps[fates[k].sweep].seen <= end
  }

  /**
   * Why arrival `k` may have its fate.
   * Held: it may wait, and nothing has touched it since.
   * Passed through: it may not wait, and if it is a completion, the issue that it would have
   * completed, if there was one, had been evicted.
   * Paired: it and its partner are two halves, the later one the first to touch the earlier.
   * Overwritten: it is an issue, and the first to touch it is another issue.
   * Evicted: it was stale at the eviction it names, and nothing had touched it until then.
   */
  ghost predicate Explained(arrived: seq<Inflight>, sweeps: seq<Sweep>, fates: seq<Fate>, k: nat)
    requires k < |fates| == |arrived|
  {
    var ev := arrived[k].event;
    match fates[k]
    case Held => MayWait(ev) && Untouched(arrived, k, |arrived|)
    case PassedThrough(_) =>
      && !MayWait(ev)
      && forall i :: 0 <= i < k && IsIssue(arrived[i].event) && Next(arrived, i, k) ==>
           EvictedBefore(sweeps, fates, i, k)
    case Paired(m, _) =>
      || (Next(arrived, k, m) && Halves(ev, arrived[m].event))
      || (Next(arrived, m, k) && Halves(arrived[m].event, ev))
    case Overwritten(m) => IsIssue(ev) && Next(arrived, k, m) && IsIssue(arrived[m].event)
    case Evicted(s) =>
      && s < |sweeps| && k < sweeps[s].seen <= |arrived|
      && SweepTakes(sweeps[s], arrived[k]) && Untouched(arrived, k, sweeps[s].seen)
  }

  ghost predicate FatesExplained(arrived: seq<Inflight>, sweeps: seq<Sweep>, fates: seq<Fate>) {
    |fates| == |arrived| && forall k :: 0 <= k < |fates| ==> Explained(arrived, sweeps, fates, k)
  }

  /** `pair` joins two halves: it is the earlier one, lasting until the later one, with the later result. */
  ghost predicate Joins(pair: Event, a: Event, b: Event) {
    var (early, late) := if b.timestampNs > a.timestampNs then (a, b) else (b, a);
    && pair.durationNs == late.timestampNs - early.timestampNs
    && pair.returnValue == late.returnValue
    && SameButTrace(pair, early.(durationNs := pair.durationNs, returnValue := pair.returnValue))
  }

  /** The fate of event `k` names an output that was made from it. */
  ghost predicate FateEmitted(fates: seq<Fate>, emitted: seq<Emission>, k: nat)
    requires k < |fates|
  {
    match fates[k]
    case PassedThrough(e) => e < |emitted| && emitted[e].first == k && emitted[e].second.None?
    case Paired(m, e) =>
      && e < |emitted| && emitted[e].second.Some?
      && (|| (emitted[e].first == k && emitted[e].second.value == m)
          || (emitted[e].first == m && emitted[e].second.value == k))
    case _ => true
  }

  /** Output `e` was made from one event, or from two whose fates name each other and it. */
  ghost predicate EmissionMade(arrived: seq<Inflight>, fates: seq<Fate>, emitted: seq<Emission>, e: nat)
    requires |fates| == |arrived| && e < |emitted|
  {
    var em := emitted[e];
    match em.second
    case None =>
      em.first < |fates| && fates[em.first] == PassedThrough(e) && SameButTrace(em.event, arrived[em.first].event)
    case Some(m) =>
      && em.first < m < |fates| && fates[em.first] == Paired(m, e) && fates[m] == Paired(em.first, e)
      && Joins(em.event, arrived[em.first].event, arrived[m].event)
  }

  ghost predicate OutputsMatch(arrived: seq<Inflight>, fates: seq<Fate>, emitted: seq<Emission>) {
    && |fates| == |arrived|
    && (forall k :: 0 <= k < |fates| ==> FateEmitted(fates, emitted, k))
    && forall e :: 0 <= e < |emitted| ==> EmissionMade(arrived, fates, emitted, e)
  }

  /**
   * Every event that arrived is exactly one of: held in a table, passed through, half of one
   * emitted pair, an overwritten block issue, or evicted as stale; and every output is accounted for.
   */
  ghost predicate Balanced(l: Ledger) {
    && TableHeld(SyscallKeyOf, l.arrived, l.fates, l.tables.syscalls, l.syscallAt)
    && TableHeld(BlockKeyOf, l.arrived, l.fates, l.tables.blocks, l.blockAt)
    && FatesExplained(l.arrived, l.sweeps, l.fates)
    && OutputsMatch(l.arrived, l.fates, l.emitted)
  }

  // ---------------------------------------------------------------- steps

  /** What an arriving event does to the books. */
  datatype Deed =
    | Holds
    | Completes(partner: nat)
    | Replaces(earlier: nat)
    | Passes

  function DeedOf(l: Ledger, ev: Event): (d: Deed) {
    if IsSyscall(ev) then
      if SyscallKey(ev) in l.syscallAt then Completes(l.syscallAt[SyscallKey(ev)]) else Holds
    else if !IsKeyedBlock(ev) || ev.payload.blockPhase.OtherPhase? then Passes
    else
      var key := MakeBlockKey(ev).value;
      if ev.payload.blockPhase.Issue? then
        if key in l.blockAt then Replaces(l.blockAt[key]) else Holds
      else if key in l.blockAt then Completes(l.blockAt[key])
      else Passes
  }

  function FatesAfter(fates: seq<Fate>, d: Deed, e: nat): (fates': seq<Fate>)
    requires d.Completes? ==> d.partner < |fates|
    requires d.Replaces? ==> d.earlier < |fates|
  {
    match d
    case Holds => fates + [Held]
    case Completes(m) => fates[m := Paired(|fates|, e)] + [Paired(m, e)]
    case Replaces(m) => fates[m := Overwritten(|fates|)] + [Held]
    case Passes => fates + [PassedThrough(e)]
  }

  function EmittedAfter(emitted: seq<Emission>, d: Deed, n: nat, out: seq<Event>): (emitted': seq<Emission>)
    requires d.Completes? || d.Passes? ==> |out| == 1
  {
    match d
    case Completes(m) => emitted + [Emission(m, Some(n), out[0])]
    case Passes => emitted + [Emission(n, None, out[0])]
    case _ => emitted
  }

  /** A position list after the deed of an event with this key, if it has one. */
  function AtAfter<K>(at: map<K, nat>, key: Option<K>, d: Deed, n: nat): (at': map<K, nat>) {
    if key.None? || d.Passes? then at
    else if d.Completes? then at - {key.value}
    else at[key.value := n]
  }

  lemma DeedInRange(l: Ledger, ev: Event)
    requires Balanced(l)
    ensures DeedOf(l, ev).Completes? ==> DeedOf(l, ev).partner < |l.fates|
    ensures DeedOf(l, ev).Replaces? ==> DeedOf(l, ev).earlier < |l.fates|
  {
  }

  ghost predicate KeysAgree(l: Ledger) {
    l.syscallAt.Keys == l.tables.syscalls.Keys && l.blockAt.Keys == l.tables.blocks.Keys
  }

  /** What the deed of an event does to the table of its kind. */
  ghost predicate TableStep<K(!new)>(key: Option<K>, table: map<K, Inflight>, at: map<K, nat>, d: Deed, entry: Inflight,
                                     table': map<K, Inflight>)
  {
    match key
    case None => table' == table
    case Some(k) =>
      match d
      case Holds => k !in at && table' == table[k := entry]
      case Completes(m) => k in at && at[k] == m && table' == table - {k}
      case Replaces(m) => k in at && at[k] == m && table' == table[k := entry]
      case Passes => table' == table
  }

  lemma PairSteps(l: Ledger, ev: Event, shown: Event, now: Time)
    requires KeysAgree(l) && SameButTrace(shown, ev)
    ensures var t' := Pair(l.tables, shown, now).0;
            var d, entry := DeedOf(l, ev), Inflight(shown, now);
            && TableStep(SyscallKeyOf(ev), l.tables.syscalls, l.syscallAt, d, entry, t'.syscalls)
            && TableStep(BlockKeyOf(ev), l.tables.blocks, l.blockAt, d, entry, t'.blocks)
  {
  }

  /** Trace lookup does not change what an event does, and it emits when it completes or passes. */
  lemma PairShown(l: Ledger, ev: Event, shown: Event, now: Time)
    requires KeysAgree(l) && SameButTrace(shown, ev)
    ensures var d, r := DeedOf(l, ev), Pair(l.tables, shown, now);
            && |r.1| == (if d.Completes? || d.Passes? then 1 else 0)
            && (d.Passes? ==> r.1 == [shown] && r.0 == l.tables)
  {
  }

  /** An event arrives; `shown` is the event after trace lookup, wherever that looked. */
  function Arrive(l: Ledger, ev: Event, shown: Event, now: Time): (l': Ledger)
    requires Balanced(l) && SameButTrace(shown, ev)
  {
    DeedInRange(l, ev);
    PairShown(l, ev, shown, now);
    var (t', out) := Pair(l.tables, shown, now);
    var d, n, e := DeedOf(l, ev), |l.arrived|, |l.emitted|;
    Ledger(t', l.arrived + [Inflight(ev, now)], l.sweeps, FatesAfter(l.fates, d, e), EmittedAfter(l.emitted, d, n, out),
           AtAfter(l.syscallAt, SyscallKeyOf(ev), d, n), AtAfter(l.blockAt, BlockKeyOf(ev), d, n))
  }

  /** The keys an eviction removes from a table. */
  function StaleKeys<K>(t: Tables, table: map<K, Inflight>, now: Time): (keys: set<K>) {
    if !EvictionDue(t) then {} else set key | key in table && table[key].arrivedAt < now - INFLIGHT_TTL
  }

  /** An eviction: when it is due, the stale among the held events are evicted. */
  function Evict(l: Ledger, now: Time): (l': Ledger)
    requires |l.fates| == |l.arrived|
  {
    l.(tables := EvictStale(l.tables, now), sweeps := l.sweeps + [Sweep(l.tables, now, |l.arrived|)],
       syscallAt := l.syscallAt - StaleKeys(l.tables, l.tables.syscalls, now),
       blockAt := l.blockAt - StaleKeys(l.tables, l.tables.blocks, now),
       fates := EvictFates(l, now))
  }

  function EvictFates(l: Ledger, now: Time): (fates': seq<Fate>)
    requires |l.fates| == |l.arrived|
    ensures |fates'| == |l.fates|
  {
    seq(|l.fates|, k requires 0 <= k < |l.fates| =>
      if l.fates[k].Held? && EvictionDue(l.tables) && l.arrived[k].arrivedAt < now - INFLIGHT_TTL
      then Evicted(|l.sweeps|) else l.fates[k])
  }

  // ---------------------------------------------------------------- every step keeps the balance

  lemma OutputsHold(arrived: seq<Inflight>, fates: seq<Fate>, emitted: seq<Emission>, arrival: Inflight)
    requires OutputsMatch(arrived, fates, emitted)
    ensures OutputsMatch(arrived + [arrival], fates + [Held], emitted)
  {
    var arrived', fates' := arrived + [arrival], fates + [Held];
    forall k | 0 <= k < |fates'| ensures FateEmitted(fates', emitted, k) {
      if k < |fates| { assert FateEmitted(fates, emitted, k); }
    }
    forall e | 0 <= e < |emitted| ensures EmissionMade(arrived', fates', emitted, e) {
      assert EmissionMade(arrived, fates, emitted, e);
    }
  }

  /** Changing a held event to a fate without output disturbs no output. */
  lemma OutputsLose(arrived: seq<Inflight>, fates: seq<Fate>, emitted: seq<Emission>, fates': seq<Fate>)
    requires OutputsMatch(arrived, fates, emitted) && |fates'| == |fates|
    requires forall k :: 0 <= k < |fates| ==>
               fates'[k] == fates[k] || (fates[k].Held? && (fates'[k].Overwritten? || fates'[k].Evicted?))
    ensures OutputsMatch(arrived, fates', emitted)
  {
    forall k | 0 <= k < |fates'| ensures FateEmitted(fates', emitted, k) {
      assert FateEmitted(fates, emitted, k);
    }
    forall e | 0 <= e < |emitted| ensures EmissionMade(arrived, fates', emitted, e) {
      assert EmissionMade(arrived, fates, emitted, e);
    }
  }

  lemma OutputsPass(arrived: seq<Inflight>, fates: seq<Fate>, emitted: seq<Emission>, arrival: Inflight, out: Event)
    requires OutputsMatch(arrived, fates, emitted) && SameButTrace(out, arrival.event)
    ensures OutputsMatch(arrived + [arrival], fates + [PassedThrough(|emitted|)],
                         emitted + [Emission(|arrived|, None, out)])
  {
    var arrived', fates' := arrived + [arrival], fates + [PassedThrough(|emitted|)];
    var emitted' := emitted + [Emission(|arrived|, None, out)];
    forall k | 0 <= k < |fates'| ensures FateEmitted(fates', emitted', k) {
      if k < |fates| { assert FateEmitted(fates, emitted, k); }
    }
    forall e | 0 <= e < |emitted'| ensures EmissionMade(arrived', fates', emitted', e) {
      if e < |emitted| { assert EmissionMade(arrived, fates, emitted, e); }
    }
  }

  lemma OutputsPair(arrived: seq<Inflight>, fates: seq<Fate>, emitted: seq<Emission>, m: nat, arrival: Inflight,
                    out: Event)
    requires OutputsMatch(arrived, fates, emitted) && m < |fates| && fates[m].Held?
    requires Joins(out, arrived[m].event, arrival.event)
    ensures OutputsMatch(arrived + [arrival],
                         fates[m := Paired(|arrived|, |emitted|)] + [Paired(m, |emitted|)],
                         emitted + [Emission(m, Some(|arrived|), out)])
  {
    var arrived' := arrived + [arrival];
    var fates' := fates[m := Paired(|arrived|, |emitted|)] + [Paired(m, |emitted|)];
    var emitted' := emitted + [Emission(m, Some(|arrived|), out)];
    forall k | 0 <= k < |fates'| ensures FateEmitted(fates', emitted', k) {
      if k < |fates| { assert FateEmitted(fates, emitted, k); }
    }
    forall e | 0 <= e < |emitted'| ensures EmissionMade(arrived', fates', emitted', e) {
      if e < |emitted| { assert EmissionMade(arrived, fates, emitted, e); }
    }
  }

  lemma JoinsPair(a: Event, b: Event, a': Event, b': Event)
    requires SameButTrace(a, a') && SameButTrace(b, b')
    ensures Joins(CompletePair(a, b), a', b')
  {
  }

  /** No fate below becomes `Held`, and only fate `m` changes. */
  ghost predicate ChangedAt(fates: seq<Fate>, fates': seq<Fate>, m: int) {
    |fates| <= |fates'| && forall k :: 0 <= k < |fates| ==> fates'[k] == fates[k] || (k == m && !fates'[k].Held?)
  }

  /** A table nobody touched: the arriving event and the one changed belong elsewhere, or are not held. */
  lemma TableUntouched<K(!new)>(keyOf: Event -> Option<K>, arrived: seq<Inflight>, fates: seq<Fate>,
                                table: map<K, Inflight>, at: map<K, nat>, arrival: Inflight, fates': seq<Fate>, m: int)
    requires TableHeld(keyOf, arrived, fates, table, at) && |fates'| == |arrived| + 1
    requires ChangedAt(fates, fates', m) && (0 <= m < |arrived| ==> keyOf(arrived[m].event).None?)
    requires fates'[|arrived|].Held? ==> keyOf(arrival.event).None?
    ensures TableHeld(keyOf, arrived + [arrival], fates', table, at)
  {
  }

  /** The held event of a key leaves the table as its other half arrives. */
  lemma TableRemoves<K(!new)>(keyOf: Event -> Option<K>, arrived: seq<Inflight>, fates: seq<Fate>,
                              table: map<K, Inflight>, at: map<K, nat>, key: K, arrival: Inflight, fates': seq<Fate>)
    requires TableHeld(keyOf, arrived, fates, table, at) && key in at && |fates'| == |arrived| + 1
    requires ChangedAt(fates, fates', at[key]) && !fates'[at[key]].Held? && !fates'[|arrived|].Held?
    ensures TableHeld(keyOf, arrived + [arrival], fates', table - {key}, at - {key})
  {
  }

  /** The arriving event enters the table, in place of an earlier one of its key if there is one. */
  lemma TableAdds<K(!new)>(keyOf: Event -> Option<K>, arrived: seq<Inflight>, fates: seq<Fate>, table: map<K, Inflight>,
                           at: map<K, nat>, key: K, arrival: Inflight, entry: Inflight, fates': seq<Fate>)
    requires TableHeld(keyOf, arrived, fates, table, at) && |fates'| == |arrived| + 1 && fates'[|arrived|].Held?
    requires keyOf(arrival.event) == Some(key) && IsEntryOf(entry, arrival)
    requires ChangedAt(fates, fates', if key in at then at[key] else -1)
    requires key in at ==> !fates'[at[key]].Held?
    ensures TableHeld(keyOf, arrived + [arrival], fates', table[key := entry], at[key := |arrived|])
  {
  }

  /** The pairing tables after an event, by deed. */
  lemma TableAfter<K(!new)>(keyOf: Event -> Option<K>, arrived: seq<Inflight>, fates: seq<Fate>,
                            table: map<K, Inflight>, at: map<K, nat>, d: Deed, arrival: Inflight, entry: Inflight,
                            e: nat, table': map<K, Inflight>)
    requires TableHeld(keyOf, arrived, fates, table, at) && IsEntryOf(entry, arrival)
    requires d.Completes? ==> d.partner < |fates|
    requires d.Replaces? ==> d.earlier < |fates|
    requires TableStep(keyOf(arrival.event), table, at, d, entry, table')
    requires keyOf(arrival.event).None? ==>
               && (d.Completes? ==> keyOf(arrived[d.partner].event).None?)
               && (d.Replaces? ==> keyOf(arrived[d.earlier].event).None?)
    ensures TableHeld(keyOf, arrived + [arrival], FatesAfter(fates, d, e), table',
                      AtAfter(at, keyOf(arrival.event), d, |arrived|))
  {
    var fates', key := FatesAfter(fates, d, e), keyOf(arrival.event);
    var m := match d case Completes(m) => m case Replaces(m) => m case _ => -1;
    if key.None? || d.Passes? {
      TableUntouched(keyOf, arrived, fates, table, at, arrival, fates', m);
    } else if d.Completes? {
      TableRemoves(keyOf, arrived, fates, table, at, key.value, arrival, fates');
    } else {
      TableAdds(keyOf, arrived, fates, table, at, key.value, arrival, entry, fates');
    }
  }

  lemma EntryHeld<K(!new)>(keyOf: Event -> Option<K>, arrived: seq<Inflight>, fates: seq<Fate>,
                           table: map<K, Inflight>, at: map<K, nat>, key: K)
    requires TableHeld(keyOf, arrived, fates, table, at)
    ensures key in at ==>
              && key in table && at[key] < |fates| == |arrived| && fates[at[key]].Held?
              && keyOf(arrived[at[key]].event) == Some(key) && IsEntryOf(table[key], arrived[at[key]])
  {
  }

  /** The event that a deed touches is held, in the same table. */
  lemma DeedTouchesHeld(l: Ledger, ev: Event)
    requires Balanced(l)
    ensures var d := DeedOf(l, ev);
            && (d.Completes? ==> d.partner < |l.fates| && l.fates[d.partner].Held?
                                 && SyscallKeyOf(l.arrived[d.partner].event) == SyscallKeyOf(ev)
                                 && BlockKeyOf(l.arrived[d.partner].event) == BlockKeyOf(ev))
            && (d.Replaces? ==> d.earlier < |l.fates| && l.fates[d.earlier].Held? && SyscallKeyOf(ev).None?
                                && SyscallKeyOf(l.arrived[d.earlier].event).None?
                                && BlockKeyOf(l.arrived[d.earlier].event) == BlockKeyOf(ev))
  {
    if IsSyscall(ev) {
      EntryHeld(SyscallKeyOf, l.arrived, l.fates, l.tables.syscalls, l.syscallAt, SyscallKey(ev));
    } else if IsKeyedBlock(ev) {
      EntryHeld(BlockKeyOf, l.arrived, l.fates, l.tables.blocks, l.blockAt, MakeBlockKey(ev).value);
    }
  }

  /** What kind of event does which deed, and to which kind of event. */
  lemma DeedKinds(l: Ledger, ev: Event)
    requires Balanced(l)
    ensures var d := DeedOf(l, ev);
            && (d.Holds? ==> MayWait(ev)) && (d.Passes? ==> !MayWait(ev))
            && (d.Completes? ==> d.partner < |l.fates| && l.fates[d.partner].Held?
                                 && Halves(l.arrived[d.partner].event, ev) && Touches(l.arrived[d.partner].event, ev))
            && (d.Replaces? ==> d.earlier < |l.fates| && l.fates[d.earlier].Held?
                                && IsIssue(ev) && IsIssue(l.arrived[d.earlier].event)
                                && Touches(l.arrived[d.earlier].event, ev))
  {
    DeedTouchesHeld(l, ev);
    var d := DeedOf(l, ev);
    if d.Completes? {
      HeldMayWait(l, d.partner);
      CompletedKinds(l, ev, l.arrived[d.partner].event);
    } else if d.Replaces? {
      HeldMayWait(l, d.earlier);
      ReplacedKinds(l, ev, l.arrived[d.earlier].event);
    }
  }

  lemma CompletedKinds(l: Ledger, ev: Event, earlier: Event)
    requires DeedOf(l, ev).Completes? && MayWait(earlier)
    requires SyscallKeyOf(earlier) == SyscallKeyOf(ev) && BlockKeyOf(earlier) == BlockKeyOf(ev)
    ensures Halves(earlier, ev) && Touches(earlier, ev)
  {
  }

  lemma ReplacedKinds(l: Ledger, ev: Event, earlier: Event)
    requires DeedOf(l, ev).Replaces? && MayWait(earlier)
    requires SyscallKeyOf(earlier).None? && BlockKeyOf(earlier) == BlockKeyOf(ev)
    ensures IsIssue(ev) && IsIssue(earlier) && Touches(earlier, ev)
  {
  }

  lemma HeldMayWait(l: Ledger, k: nat)
    requires FatesExplained(l.arrived, l.sweeps, l.fates) && k < |l.fates| && l.fates[k].Held?
    ensures MayWait(l.arrived[k].event)
  {
    assert Explained(l.arrived, l.sweeps, l.fates, k);
  }

  /** A fate stays explained while nothing touches a held event and evicted events stay so. */
  lemma ExplainedLater(arrived: seq<Inflight>, sweeps: seq<Sweep>, fates: seq<Fate>, k: nat,
                       more: seq<Inflight>, sweep: seq<Sweep>, fates': seq<Fate>)
    requires k < |fates| == |arrived| && |fates'| == |arrived + more| && Explained(arrived, sweeps, fates, k)
    requires fates'[k] == fates[k] && forall i :: 0 <= i < |fates| && fates[i].Evicted? ==> fates'[i] == fates[i]
    requires fates[k].Held? ==> forall j :: 0 <= j < |more| ==> !Touches(arrived[k].event, more[j].event)
    ensures Explained(arrived + more, sweeps + sweep, fates', k)
  {
    var arrived' := arrived + more;
    assert forall i :: 0 <= i < |arrived| ==> arrived'[i] == arrived[i];
    forall i: nat, m: nat | Next(arrived', i, m) && m < |arrived|
      ensures Next(arrived, i, m)
    {
      StillUntouched(arrived, more, i, m);
    }
    forall i: nat, m: nat | Next(arrived, i, m)
      ensures Next(arrived', i, m)
    {
      StillUntouched(arrived, more, i, m);
    }
    if fates[k].Evicted? {
      StillUntouched(arrived, more, k, sweeps[fates[k].sweep].seen);
    }
  }

  lemma StillUntouched(arrived: seq<Inflight>, more: seq<Inflight>, k: nat, end: nat)
    requires k < |arrived| && end <= |arrived|
    ensures Untouched(arrived + more, k, end) <==> Untouched(arrived, k, end)
  {
    assert forall j :: 0 <= j < |arrived| ==> (arrived + more)[j] == arrived[j];
  }

  /** An event that touches a held one does so by completing or replacing it. */
  lemma TouchingDeed(l: Ledger, ev: Event, k: nat)
    requires Balanced(l) && k < |l.fates| && l.fates[k].Held? && Touches(l.arrived[k].event, ev)
    ensures DeedOf(l, ev) == Completes(k) || DeedOf(l, ev) == Replaces(k)
  {
    HeldMayWait(l, k);
    if IsSyscall(ev) {
      HeldAt(SyscallKeyOf, l.arrived, l.fates, l.tables.syscalls, l.syscallAt, k);
    } else {
      HeldAt(BlockKeyOf, l.arrived, l.fates, l.tables.blocks, l.blockAt, k);
    }
  }

  lemma HeldAt<K(!new)>(keyOf: Event -> Option<K>, arrived: seq<Inflight>, fates: seq<Fate>,
                        table: map<K, Inflight>, at: map<K, nat>, k: nat)
    requires TableHeld(keyOf, arrived, fates, table, at) && k < |fates| && fates[k].Held?
    requires keyOf(arrived[k].event).Some?
    ensures keyOf(arrived[k].event).value in at && at[keyOf(arrived[k].event).value] == k
  {
  }

  /** A completion that passes would have found its issue, had that not been evicted. */
  lemma PassedIssueEvicted(l: Ledger, ev: Event, i: nat)
    requires Balanced(l) && DeedOf(l, ev).Passes? && i < |l.arrived|
    requires IsIssue(l.arrived[i].event) && Touches(l.arrived[i].event, ev) && Untouched(l.arrived, i, |l.arrived|)
    ensures EvictedBefore(l.sweeps, l.fates, i, |l.arrived|)
  {
    assert Explained(l.arrived, l.sweeps, l.fates, i);
    assert !l.fates[i].Held? by {
      if l.fates[i].Held? {
        TouchingDeed(l, ev, i);
      }
    }
  }

  lemma ExplainedAfter(l: Ledger, ev: Event, now: Time)
    requires Balanced(l)
    requires DeedOf(l, ev).Completes? ==> DeedOf(l, ev).partner < |l.fates|
    requires DeedOf(l, ev).Replaces? ==> DeedOf(l, ev).earlier < |l.fates|
    ensures FatesExplained(l.arrived + [Inflight(ev, now)], l.sweeps, FatesAfter(l.fates, DeedOf(l, ev), |l.emitted|))
  {
    var arrived' := l.arrived + [Inflight(ev, now)];
    var fates' := FatesAfter(l.fates, DeedOf(l, ev), |l.emitted|);
    forall k | 0 <= k < |fates'|
      ensures Explained(arrived', l.sweeps, fates', k)
    {
      if k == |l.fates| {
        NewcomerExplained(l, ev, now);
      } else if fates'[k] == l.fates[k] {
        OthersExplained(l, ev, now, k);
      } else {
        TouchedExplained(l, ev, now, k);
      }
    }
  }

  /** The fate of the arriving event. */
  lemma NewcomerExplained(l: Ledger, ev: Event, now: Time)
    requires Balanced(l)
    requires DeedOf(l, ev).Completes? ==> DeedOf(l, ev).partner < |l.fates|
    requires DeedOf(l, ev).Replaces? ==> DeedOf(l, ev).earlier < |l.fates|
    ensures Explained(l.arrived + [Inflight(ev, now)], l.sweeps, FatesAfter(l.fates, DeedOf(l, ev), |l.emitted|),
                      |l.fates|)
  {
    var d, n, arrived' := DeedOf(l, ev), |l.fates|, l.arrived + [Inflight(ev, now)];
    DeedKinds(l, ev);
    if d.Completes? {
      HeldThenNext(l, d.partner, ev, now);
    } else if d.Passes? {
      forall i | 0 <= i < n && IsIssue(arrived'[i].event) && Next(arrived', i, n)
        ensures EvictedBefore(l.sweeps, FatesAfter(l.fates, d, |l.emitted|), i, n)
      {
        StillUntouched(l.arrived, [Inflight(ev, now)], i, n);
        PassedIssueEvicted(l, ev, i);
      }
    }
  }

  /** A held event is touched first by the event that touches it now. */
  lemma HeldThenNext(l: Ledger, k: nat, ev: Event, now: Time)
    requires Balanced(l) && k < |l.fates| && l.fates[k].Held? && Touches(l.arrived[k].event, ev)
    ensures Next(l.arrived + [Inflight(ev, now)], k, |l.arrived|)
  {
    assert Explained(l.arrived, l.sweeps, l.fates, k);
    StillUntouched(l.arrived, [Inflight(ev, now)], k, |l.arrived|);
  }

  /** The fate of the event that is completed or replaced. */
  lemma TouchedExplained(l: Ledger, ev: Event, now: Time, k: nat)
    requires Balanced(l) && k < |l.fates|
    requires DeedOf(l, ev) == Completes(k) || DeedOf(l, ev) == Replaces(k)
    ensures Explained(l.arrived + [Inflight(ev, now)], l.sweeps, FatesAfter(l.fates, DeedOf(l, ev), |l.emitted|), k)
  {
    DeedKinds(l, ev);
    HeldThenNext(l, k, ev, now);
    var arrived', fates' := l.arrived + [Inflight(ev, now)], FatesAfter(l.fates, DeedOf(l, ev), |l.emitted|);
    assert arrived'[k] == l.arrived[k] && arrived'[|l.arrived|] == Inflight(ev, now);
    assert fates'[k] == if DeedOf(l, ev).Completes? then Paired(|l.fates|, |l.emitted|) else Overwritten(|l.fates|);
  }

  lemma OnlyHeldChange(l: Ledger, ev: Event)
    requires Balanced(l)
    ensures var d := DeedOf(l, ev);
            && (d.Completes? ==> d.partner < |l.fates|) && (d.Replaces? ==> d.earlier < |l.fates|)
            && forall i :: 0 <= i < |l.fates| && !l.fates[i].Held? ==>
                 FatesAfter(l.fates, d, |l.emitted|)[i] == l.fates[i]
  {
    DeedTouchesHeld(l, ev);
  }

  lemma StillHeldUntouched(l: Ledger, ev: Event, k: nat)
    requires Balanced(l) && k < |l.fates| && l.fates[k].Held?
    requires DeedOf(l, ev) != Completes(k) && DeedOf(l, ev) != Replaces(k)
    ensures !Touches(l.arrived[k].event, ev)
  {
    if Touches(l.arrived[k].event, ev) {
      TouchingDeed(l, ev, k);
    }
  }

  /** The fates of all other events. */
  lemma OthersExplained(l: Ledger, ev: Event, now: Time, k: nat)
    requires Balanced(l) && k < |l.fates|
    requires DeedOf(l, ev).Completes? ==> DeedOf(l, ev).partner < |l.fates|
    requires DeedOf(l, ev).Replaces? ==> DeedOf(l, ev).earlier < |l.fates|
    requires FatesAfter(l.fates, DeedOf(l, ev), |l.emitted|)[k] == l.fates[k]
    ensures Explained(l.arrived + [Inflight(ev, now)], l.sweeps, FatesAfter(l.fates, DeedOf(l, ev), |l.emitted|), k)
  {
    var fates' := FatesAfter(l.fates, DeedOf(l, ev), |l.emitted|);
    OnlyHeldChange(l, ev);
    if l.fates[k].Held? {
      StillHeldUntouched(l, ev, k);
    }
    assert l.sweeps + [] == l.sweeps;
    ExplainedLater(l.arrived, l.sweeps, l.fates, k, [Inflight(ev, now)], [], fates');
  }

  /** What the deed does to the tables, read off the pairing step. */
  lemma SyscallTableAfter(l: Ledger, ev: Event, shown: Event, now: Time)
    requires Balanced(l) && SameButTrace(shown, ev)
    ensures var l' := Arrive(l, ev, shown, now);
            TableHeld(SyscallKeyOf, l'.arrived, l'.fates, l'.tables.syscalls, l'.syscallAt)
  {
    DeedTouchesHeld(l, ev);
    PairSteps(l, ev, shown, now);
    TableAfter(SyscallKeyOf, l.arrived, l.fates, l.tables.syscalls, l.syscallAt, DeedOf(l, ev), Inflight(ev, now),
               Inflight(shown, now), |l.emitted|, Pair(l.tables, shown, now).0.syscalls);
  }

  lemma BlockTableAfter(l: Ledger, ev: Event, shown: Event, now: Time)
    requires Balanced(l) && SameButTrace(shown, ev)
    ensures var l' := Arrive(l, ev, shown, now);
            TableHeld(BlockKeyOf, l'.arrived, l'.fates, l'.tables.blocks, l'.blockAt)
  {
    DeedTouchesHeld(l, ev);
    PairSteps(l, ev, shown, now);
    TableAfter(BlockKeyOf, l.arrived, l.fates, l.tables.blocks, l.blockAt, DeedOf(l, ev), Inflight(ev, now),
               Inflight(shown, now), |l.emitted|, Pair(l.tables, shown, now).0.blocks);
  }

  lemma CompletionJoins(l: Ledger, ev: Event, shown: Event, now: Time)
    requires Balanced(l) && SameButTrace(shown, ev) && DeedOf(l, ev).Completes?
    ensures DeedOf(l, ev).partner < |l.arrived| && |Pair(l.tables, shown, now).1| == 1
    ensures Joins(Pair(l.tables, shown, now).1[0], l.arrived[DeedOf(l, ev).partner].event, ev)
  {
    PairShown(l, ev, shown, now);
    var m := DeedOf(l, ev).partner;
    if IsSyscall(ev) {
      EntryHeld(SyscallKeyOf, l.arrived, l.fates, l.tables.syscalls, l.syscallAt, SyscallKey(ev));
      JoinsPair(l.tables.syscalls[SyscallKey(ev)].event, shown, l.arrived[m].event, ev);
    } else {
      EntryHeld(BlockKeyOf, l.arrived, l.fates, l.tables.blocks, l.blockAt, MakeBlockKey(ev).value);
      JoinsPair(l.tables.blocks[MakeBlockKey(ev).value].event, shown, l.arrived[m].event, ev);
    }
  }

  lemma OutputsAfter(l: Ledger, ev: Event, shown: Event, now: Time)
    requires Balanced(l) && SameButTrace(shown, ev)
    ensures var l' := Arrive(l, ev, shown, now); OutputsMatch(l'.arrived, l'.fates, l'.emitted)
  {
    DeedTouchesHeld(l, ev);
    DeedKinds(l, ev);
    PairShown(l, ev, shown, now);
    var arrival := Inflight(ev, now);
    match DeedOf(l, ev)
    case Holds => OutputsHold(l.arrived, l.fates, l.emitted, arrival);
    case Completes(m) =>
      CompletionJoins(l, ev, shown, now);
      OutputsPair(l.arrived, l.fates, l.emitted, m, arrival, Pair(l.tables, shown, now).1[0]);
    case Replaces(m) =>
      OutputsLose(l.arrived, l.fates, l.emitted, l.fates[m := Overwritten(|l.fates|)]);
      OutputsHold(l.arrived, l.fates[m := Overwritten(|l.fates|)], l.emitted, arrival);
    case Passes => OutputsPass(l.arrived, l.fates, l.emitted, arrival, shown);
  }

  /** Whatever arrives, the books balance. */
  lemma ArriveBalanced(l: Ledger, ev: Event, shown: Event, now: Time)
    requires Balanced(l) && SameButTrace(shown, ev)
    ensures Balanced(Arrive(l, ev, shown, now))
  {
    DeedInRange(l, ev);
    SyscallTableAfter(l, ev, shown, now);
    BlockTableAfter(l, ev, shown, now);
    ExplainedAfter(l, ev, now);
    OutputsAfter(l, ev, shown, now);
  }

  /** A table loses some keys, and the held events of those keys are held no longer. */
  lemma TableDrops<K(!new)>(keyOf: Event -> Option<K>, arrived: seq<Inflight>, fates: seq<Fate>,
                            table: map<K, Inflight>, at: map<K, nat>, keys: set<K>, fates': seq<Fate>)
    requires TableHeld(keyOf, arrived, fates, table, at) && |fates'| == |fates|
    requires forall k :: 0 <= k < |fates| && fates'[k].Held? ==> fates[k].Held?
    requires forall k :: 0 <= k < |fates| && fates[k].Held? && keyOf(arrived[k].event).Some? ==>
               (fates'[k].Held? <==> keyOf(arrived[k].event).value !in keys)
    ensures TableHeld(keyOf, arrived, fates', table - keys, at - keys)
  {
  }

  /** A held event of a table is stale exactly when its key is. */
  lemma TableSwept<K(!new)>(keyOf: Event -> Option<K>, l: Ledger, table: map<K, Inflight>, at: map<K, nat>, now: Time)
    requires TableHeld(keyOf, l.arrived, l.fates, table, at)
    ensures TableHeld(keyOf, l.arrived, EvictFates(l, now),
                      table - StaleKeys(l.tables, table, now), at - StaleKeys(l.tables, table, now))
  {
    var keys, fates' := StaleKeys(l.tables, table, now), EvictFates(l, now);
    forall k | 0 <= k < |l.fates| && l.fates[k].Held? && keyOf(l.arrived[k].event).Some?
      ensures fates'[k].Held? <==> keyOf(l.arrived[k].event).value !in keys
    {
      EntryHeld(keyOf, l.arrived, l.fates, table, at, keyOf(l.arrived[k].event).value);
    }
    TableDrops(keyOf, l.arrived, l.fates, table, at, keys, fates');
  }

  lemma RecentIsNotStale<K>(t: Tables, table: map<K, Inflight>, now: Time)
    ensures (if EvictionDue(t) then Recent(table, now) else table) == table - StaleKeys(t, table, now)
  {
  }

  /** Everything an eviction takes from the books was held in its tables, and stale. */
  lemma SweepExplained(l: Ledger, now: Time)
    requires Balanced(l)
    ensures FatesExplained(l.arrived, Evict(l, now).sweeps, EvictFates(l, now))
  {
    var sweep, fates' := Sweep(l.tables, now, |l.arrived|), EvictFates(l, now);
    assert l.arrived + [] == l.arrived;
    forall k | 0 <= k < |fates'|
      ensures Explained(l.arrived, l.sweeps + [sweep], fates', k)
    {
      assert Explained(l.arrived, l.sweeps, l.fates, k);
      if fates'[k] == l.fates[k] {
        ExplainedLater(l.arrived, l.sweeps, l.fates, k, [], [sweep], fates');
      } else {
        HeldHasEntry(l, k);
      }
    }
  }

  lemma HeldHasEntry(l: Ledger, k: nat)
    requires Balanced(l) && k < |l.fates| && l.fates[k].Held?
    ensures || HasEntry(l.tables.syscalls, SyscallKeyOf(l.arrived[k].event), l.arrived[k])
            || HasEntry(l.tables.blocks, BlockKeyOf(l.arrived[k].event), l.arrived[k])
  {
    var ev := l.arrived[k].event;
    HeldMayWait(l, k);
    if IsSyscall(ev) {
      EntryHeld(SyscallKeyOf, l.arrived, l.fates, l.tables.syscalls, l.syscallAt, SyscallKey(ev));
    } else {
      EntryHeld(BlockKeyOf, l.arrived, l.fates, l.tables.blocks, l.blockAt, MakeBlockKey(ev).value);
    }
  }

  /** Every eviction keeps the books. */
  lemma EvictBalanced(l: Ledger, now: Time)
    requires Balanced(l)
    ensures Balanced(Evict(l, now))
  {
    var fates' := EvictFates(l, now);
    OutputsLose(l.arrived, l.fates, l.emitted, fates');
    SweepExplained(l, now);
    TableSwept(SyscallKeyOf, l, l.tables.syscalls, l.syscallAt, now);
    TableSwept(BlockKeyOf, l, l.tables.blocks, l.blockAt, now);
    RecentIsNotStale(l.tables, l.tables.syscalls, now);
    RecentIsNotStale(l.tables, l.tables.blocks, now);
  }

  // ---------------------------------------------------------------- runs

  datatype Step = SpanStep(span: Span) | EventStep(event: Event, now: Time) | EvictStep(now: Time)

  predicate NoEviction(steps: seq<Step>) {
    forall k :: 0 <= k < |steps| ==> !steps[k].EvictStep?
  }

  function TablesAfter(t: Tables, step: Step): (t': Tables) {
    match step
    case SpanStep(span) => AddSpan(t, span)
    case EventStep(ev, now) => ProcessWhole(t, ev, now).0
    case EvictStep(now) => EvictStale(t, now)
  }

  /** The tables after any run of spans, events and evictions. */
  function RunTables(steps: seq<Step>): (t: Tables) {
    if steps == [] then EMPTY else TablesAfter(RunTables(steps[..|steps| - 1]), steps[|steps| - 1])
  }

  /** Everything emitted over a run, in order. */
  function RunOutput(steps: seq<Step>): (out: seq<Event>) {
    if steps == [] then []
    else
      var before := steps[..|steps| - 1];
      match steps[|steps| - 1]
      case EventStep(ev, now) => RunOutput(before) + ProcessWhole(RunTables(before), ev, now).1
      case _ => RunOutput(before)
  }

  /** The events given over a run, each with the time it arrived. */
  function RunArrivals(steps: seq<Step>): (arrived: seq<Inflight>) {
    if steps == [] then []
    else
      var before := RunArrivals(steps[..|steps| - 1]);
      match steps[|steps| - 1]
      case EventStep(ev, now) => before + [Inflight(ev, now)]
      case _ => before
  }

  /** The evictions of a run, each with the tables and the number of arrivals it found. */
  function RunSweeps(steps: seq<Step>): (sweeps: seq<Sweep>) {
    if steps == [] then []
    else
      var before := steps[..|steps| - 1];
      match steps[|steps| - 1]
      case EvictStep(now) => RunSweeps(before) + [Sweep(RunTables(before), now, |RunArrivals(before)|)]
      case _ => RunSweeps(before)
  }

  function EmittedEvents(emitted: seq<Emission>): (events: seq<Event>) {
    Map((em: Emission) => em.event, emitted)
  }

  /** The ledger follows the run exactly: its tables, arrivals, evictions and outputs. */
  ghost predicate Follows(l: Ledger, steps: seq<Step>) {
    && l.tables == RunTables(steps) && l.arrived == RunArrivals(steps) && l.sweeps == RunSweeps(steps)
    && EmittedEvents(l.emitted) == RunOutput(steps)
  }

  lemma ArriveEmits(l: Ledger, ev: Event, shown: Event, now: Time)
    requires Balanced(l) && SameButTrace(shown, ev)
    ensures EmittedEvents(Arrive(l, ev, shown, now).emitted)
         == EmittedEvents(l.emitted) + Pair(l.tables, shown, now).1
  {
    PairShown(l, ev, shown, now);
    var out := Pair(l.tables, shown, now).1;
    match DeedOf(l, ev)
    case Completes(m) => EmittedAppend(l.emitted, Emission(m, Some(|l.arrived|), out[0]));
    case Passes => EmittedAppend(l.emitted, Emission(|l.arrived|, None, out[0]));
    case _ =>
  }

  lemma EmittedAppend(emitted: seq<Emission>, em: Emission)
    ensures EmittedEvents(emitted + [em]) == EmittedEvents(emitted) + [em.event]
  {
  }

  /**
   * The books of a whole run balance after every run of spans, events and evictions. An eviction
   * they name is one of the run, so without eviction nothing is evicted.
   */
  lemma {:induction false} RunBalanced(steps: seq<Step>) returns (l: Ledger)
    ensures Balanced(l) && Follows(l, steps)
  {
    if steps == [] {
      l := EMPTY_LEDGER;
    } else {
      var before := RunBalanced(steps[..|steps| - 1]);
      match steps[|steps| - 1]
      case SpanStep(span) =>
        l := before.(tables := AddSpan(before.tables, span));
      case EventStep(ev, now) =>
        TraceKeepsIdentity(SpansOf(before.tables, ev.pid), ev);
        ArriveBalanced(before, ev, EnrichTrace(before.tables, ev), now);
        ArriveEmits(before, ev, EnrichTrace(before.tables, ev), now);
        l := Arrive(before, ev, EnrichTrace(before.tables, ev), now);
      case EvictStep(now) =>
        EvictBalanced(before, now);
        l := Evict(before, now);
    }
  }

  lemma {:induction false} NoEvictionNoSweeps(steps: seq<Step>)
    requires NoEviction(steps)
    ensures RunSweeps(steps) == []
  {
    if steps != [] {
      NoEvictionNoSweeps(steps[..|steps| - 1]);
    }
  }
}
