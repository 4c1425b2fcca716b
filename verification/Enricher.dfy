/** The event enricher: pairing of half events, trace lookup, and its 32 shards. */
module Enricher {
  import opened KernelEvents
  import opened Sequences

  const NUM_SHARDS := 32
  const EVICT_THRESHOLD := 100
  const MAX_SPANS := 1000
  const SPAN_CUT := 100
  const INFLIGHT_TTL := 5_000_000_000
  const SPAN_TTL := 30_000_000_000

  /** A point of the enricher's own clock, in nanoseconds. */
  type Time = nat

  datatype Span = Span(
    traceId: string, spanId: string, serviceName: string, transactionId: string,
    pid: uint32, startNs: uint64, endNs: uint64, arrivedAt: Time)

  datatype PairKey = PairKey(cgroupId: uint64, pid: uint32, tid: uint32)
  datatype BlockKey = BlockKey(sector: uint64, bytes: uint64, op: string)
  datatype Inflight = Inflight(event: Event, arrivedAt: Time)

  /** The tables of one shard, or of an enricher that is not sharded. */
  datatype Tables = Tables(
    syscalls: map<PairKey, Inflight>, blocks: map<BlockKey, Inflight>, spans: map<uint32, seq<Span>>)

  const EMPTY := Tables(map[], map[], map[])

  // ---------------------------------------------------------------- computing on values

  function SyscallKey(ev: Event): (key: PairKey) { PairKey(ev.cgroupId, ev.pid, ev.tid) }

  predicate IsSyscall(ev: Event) { ev.eventType.SysRead? || ev.eventType.SysWrite? }

  function MakeBlockKey(ev: Event): (key: Option<BlockKey>) {
    var p := ev.payload;
    if p.blockSector.None? || p.blockBytes.None? || p.blockOp == "" then None
    else if p.blockBytes.value == 0 || p.blockSector.value == TWO_64 - 1 then None
    else Some(BlockKey(p.blockSector.value, p.blockBytes.value, p.blockOp))
  }

  predicate IsKeyedBlock(ev: Event) { ev.eventType.BlockIo? && MakeBlockKey(ev).Some? }

  /** The earlier half, with the time to the later one and the later one's return value. */
  function CompletePair(a: Event, b: Event): (r: Event) {
    if b.timestampNs > a.timestampNs then
      a.(durationNs := b.timestampNs - a.timestampNs, returnValue := b.returnValue)
    else
      b.(durationNs := a.timestampNs - b.timestampNs, returnValue := a.returnValue)
  }

  predicate Covers(span: Span, ev: Event) { span.startNs <= ev.timestampNs <= span.endNs }

  function WithTrace(ev: Event, span: Span): (r: Event) {
    ev.(traceId := span.traceId, spanId := span.spanId,
        serviceName := span.serviceName, transactionId := span.transactionId)
  }

  /** The first span in the list that covers the event decides its trace fields. */
  function TraceFrom(spans: seq<Span>, ev: Event): (r: Event) {
    if spans == [] then ev
    else if Covers(spans[0], ev) then WithTrace(ev, spans[0])
    else TraceFrom(spans[1..], ev)
  }

  function SpansOf(t: Tables, pid: uint32): (spans: seq<Span>) {
    if pid in t.spans then t.spans[pid] else []
  }

  function EnrichTrace(t: Tables, ev: Event): (r: Event) { TraceFrom(SpansOf(t, ev.pid), ev) }

  // ---------------------------------------------------------------- steps on one set of tables

  function AddSpan(t: Tables, span: Span): (t': Tables) {
    var spans := SpansOf(t, span.pid) + [span];
    t.(spans := t.spans[span.pid := if |spans| > MAX_SPANS then spans[SPAN_CUT..] else spans])
  }

  function PairSyscall(t: Tables, ev: Event, now: Time): (r: (Tables, seq<Event>)) {
    var key := SyscallKey(ev);
    if key !in t.syscalls then (t.(syscalls := t.syscalls[key := Inflight(ev, now)]), [])
    else (t.(syscalls := t.syscalls - {key}), [CompletePair(t.syscalls[key].event, ev)])
  }

  function PairBlock(t: Tables, key: BlockKey, ev: Event, now: Time): (r: (Tables, seq<Event>)) {
    match ev.payload.blockPhase
    case Issue => (t.(blocks := t.blocks[key := Inflight(ev, now)]), [])
    case Complete =>
      if key !in t.blocks then (t, [ev])
      else (t.(blocks := t.blocks - {key}), [CompletePair(t.blocks[key].event, ev)])
    case OtherPhase(_) => (t, [ev])
  }

  /** Pairing of an event whose trace fields are already set. */
  function Pair(t: Tables, ev: Event, now: Time): (r: (Tables, seq<Event>)) {
    if IsSyscall(ev) then PairSyscall(t, ev, now)
    else if IsKeyedBlock(ev) then PairBlock(t, MakeBlockKey(ev).value, ev, now)
    else (t, [ev])
  }

  /** An enricher with a single set of tables. */
  function ProcessWhole(t: Tables, ev: Event, now: Time): (r: (Tables, seq<Event>)) {
    Pair(t, EnrichTrace(t, ev), now)
  }

  function EvictStale(t: Tables, now: Time): (t': Tables) {
    if |t.syscalls| < EVICT_THRESHOLD && |t.blocks| < EVICT_THRESHOLD && |t.spans| < EVICT_THRESHOLD then t
    else
      Tables(
        Recent(t.syscalls, now),
        Recent(t.blocks, now),
        ActiveOnly(t.spans, now))
  }

  function Recent<K>(table: map<K, Inflight>, now: Time): (recent: map<K, Inflight>) {
    map key | key in table && table[key].arrivedAt >= now - INFLIGHT_TTL :: table[key]
  }

  function ActiveOnly(spans: map<uint32, seq<Span>>, now: Time): (active: map<uint32, seq<Span>>) {
    map pid | pid in spans && ActiveSpans(spans[pid], now) != [] :: ActiveSpans(spans[pid], now)
  }

  function ActiveSpans(spans: seq<Span>, now: Time): (active: seq<Span>) {
    Filter(spans, (span: Span) => span.arrivedAt > now - SPAN_TTL)
  }

  // ---------------------------------------------------------------- 32 shards

  function PidShard(pid: uint32): (s: nat)
    ensures s < NUM_SHARDS
  {
    pid % NUM_SHARDS
  }

  function BlockShard(key: BlockKey): (s: nat)
    ensures s < NUM_SHARDS
  {
    Xor(key.sector, key.bytes, 5)
  }

  /** Exclusive or of the lowest `bits` bits: the xor of the numbers modulo two to the `bits`. */
  function Xor(a: nat, b: nat, bits: nat): (r: nat)
    ensures r < Pow2(bits)
  {
    if bits == 0 then 0
    else 2 * Xor(a / 2, b / 2, bits - 1) + (if a % 2 == b % 2 then 0 else 1)
  }

  /** Bit `k` of a number. */
  function Bit(a: nat, k: nat): (bit: nat) { if k == 0 then a % 2 else Bit(a / 2, k - 1) }

  /** Each of the lowest bits of the result is set exactly when the two inputs differ there. */
  lemma {:induction false} XorIsBitwise(a: nat, b: nat, bits: nat, k: nat)
    requires k < bits
    ensures Bit(Xor(a, b, bits), k) == if Bit(a, k) == Bit(b, k) then 0 else 1
  {
    assert Xor(a, b, bits) / 2 == Xor(a / 2, b / 2, bits - 1);
    if k > 0 {
      XorIsBitwise(a / 2, b / 2, bits - 1, k - 1);
    }
  }

  function Pow2(n: nat): (r: nat) { if n == 0 then 1 else 2 * Pow2(n - 1) }

  /** The shard whose tables an event is looked up and paired in. */
  function ShardOf(ev: Event): (s: nat)
    ensures s < NUM_SHARDS
  {
    if IsKeyedBlock(ev) then BlockShard(MakeBlockKey(ev).value) else PidShard(ev.pid)
  }

  class ShardedEnricher {
    const shards: array<Tables>

    ghost predicate Valid()
      reads this
    {
      shards.Length == NUM_SHARDS
    }

    constructor ()
      ensures Valid() && fresh(shards)
      ensures forall i :: 0 <= i < NUM_SHARDS ==> shards[i] == EMPTY
    {
      shards := new Tables[NUM_SHARDS](_ => EMPTY);
    }

    method Add(span: Span)
      requires Valid()
      modifies shards
      ensures shards[..] == ShardedAdd(old(shards[..]), span)
    {
      var s := PidShard(span.pid);
      var spans := SpansOf(shards[s], span.pid) + [span];
      if |spans| > MAX_SPANS {
        spans := spans[SPAN_CUT..];
      }
      shards[s] := shards[s].(spans := shards[s].spans[span.pid := spans]);
    }

    method Process(event: Event, now: Time) returns (out: seq<Event>)
      requires Valid()
      modifies shards
      ensures (shards[..], out) == ShardedProcess(old(shards[..]), event, now)
    {
      var s := ShardOf(event);
      var ev := EnrichTrace(shards[s], event);
      TraceKeepsIdentity(SpansOf(shards[s], event.pid), event);
      if IsSyscall(ev) {
        var key := SyscallKey(ev);
        if key !in shards[s].syscalls {
          shards[s] := shards[s].(syscalls := shards[s].syscalls[key := Inflight(ev, now)]);
          out := [];
        } else {
          var existing := shards[s].syscalls[key];
          shards[s] := shards[s].(syscalls := shards[s].syscalls - {key});
          out := [CompletePair(existing.event, ev)];
        }
      } else if IsKeyedBlock(ev) {
        var (tables, paired) := PairBlock(shards[s], MakeBlockKey(ev).value, ev, now);
        shards[s] := tables;
        out := paired;
      } else {
        out := [ev];
      }
      assert shards[..] == old(shards[..])[s := shards[s]];
    }

    /** Each shard is locked and reads the clock on its own, so other calls may come between two of these. */
    method EvictShard(s: nat, now: Time)
      requires Valid() && s < NUM_SHARDS
      modifies shards
      ensures shards[..] == old(shards[..][s := EvictStale(shards[s], now)])
    {
      var t := shards[s];
      if |t.syscalls| < EVICT_THRESHOLD && |t.blocks| < EVICT_THRESHOLD && |t.spans| < EVICT_THRESHOLD {
        return;
      }
      var syscalls := DropStale(t.syscalls, now);
      var blocks := DropStale(t.blocks, now);
      var spans := DropExpired(t.spans, now);
      shards[s] := Tables(syscalls, blocks, spans);
    }
  }

  /** The deletion loops of an eviction; the order in which a map is visited does not matter. */
  method DropStale<K>(table: map<K, Inflight>, now: Time) returns (recent: map<K, Inflight>)
    ensures recent == Recent(table, now)
  {
    recent := table;
    var keys := table.Keys;
    while keys != {}
      invariant keys <= table.Keys
      invariant forall key ::
                  key in recent <==> key in table && (key in keys || table[key].arrivedAt >= now - INFLIGHT_TTL)
      invariant forall key :: key in recent ==> recent[key] == table[key]
    {
      var key :| key in keys;
      if table[key].arrivedAt < now - INFLIGHT_TTL {
        recent := recent - {key};
      }
      keys := keys - {key};
    }
  }

  method DropExpired(spans: map<uint32, seq<Span>>, now: Time) returns (active: map<uint32, seq<Span>>)
    ensures active == ActiveOnly(spans, now)
  {
    active := spans;
    var pids := spans.Keys;
    while pids != {}
      invariant pids <= spans.Keys
      invariant forall pid ::
                  pid in active <==> pid in spans && (pid in pids || ActiveSpans(spans[pid], now) != [])
      invariant forall pid :: pid in active ==>
                  active[pid] == if pid in pids then spans[pid] else ActiveSpans(spans[pid], now)
    {
      var pid :| pid in pids;
      var kept := ActiveSpans(spans[pid], now);
      if |kept| == 0 {
        active := active - {pid};
      } else {
        active := active[pid := kept];
      }
      pids := pids - {pid};
    }
  }

  function ShardedAdd(shards: seq<Tables>, span: Span): (shards': seq<Tables>)
    requires |shards| == NUM_SHARDS
    ensures |shards'| == NUM_SHARDS
  {
    var s := PidShard(span.pid);
    shards[s := AddSpan(shards[s], span)]
  }

  function ShardedProcess(shards: seq<Tables>, ev: Event, now: Time): (r: (seq<Tables>, seq<Event>))
    requires |shards| == NUM_SHARDS
    ensures |r.0| == NUM_SHARDS
  {
    var s := ShardOf(ev);
    var (t, out) := Pair(shards[s], EnrichTrace(shards[s], ev), now);
    (shards[s := t], out)
  }

  // ---------------------------------------------------------------- trace lookup

  /** Equal but for the four trace fields. */
  predicate SameButTrace(a: Event, b: Event) {
    a == b.(traceId := a.traceId, spanId := a.spanId, serviceName := a.serviceName, transactionId := a.transactionId)
  }

  lemma {:induction false} TraceKeepsIdentity(spans: seq<Span>, ev: Event)
    ensures SameButTrace(TraceFrom(spans, ev), ev)
  {
    if spans != [] && !Covers(spans[0], ev) {
      TraceKeepsIdentity(spans[1..], ev);
    }
  }

  /** The span was open at the time of the event. */
  predicate IsOpenAt(span: Span, ev: Event) { span.startNs <= ev.timestampNs && ev.timestampNs <= span.endNs }

  /** The event with the four trace fields of the span. */
  predicate HasTraceOf(shown: Event, ev: Event, span: Span) {
    && SameButTrace(shown, ev)
    && shown.traceId == span.traceId && shown.spanId == span.spanId
    && shown.serviceName == span.serviceName && shown.transactionId == span.transactionId
  }

  /** The oldest span in the list that was open at the time of the event wins. */
  lemma {:induction false} TraceFromOldest(spans: seq<Span>, ev: Event, k: nat)
    requires k < |spans| && IsOpenAt(spans[k], ev) && forall m :: 0 <= m < k ==> !IsOpenAt(spans[m], ev)
    ensures HasTraceOf(TraceFrom(spans, ev), ev, spans[k])
  {
    if k > 0 {
      TraceFromOldest(spans[1..], ev, k - 1);
    }
  }

  /** Without such a span the event keeps its fields. */
  lemma {:induction false} TraceFromNone(spans: seq<Span>, ev: Event)
    requires forall k :: 0 <= k < |spans| ==> !IsOpenAt(spans[k], ev)
    ensures TraceFrom(spans, ev) == ev
  {
    if spans != [] {
      TraceFromNone(spans[1..], ev);
    }
  }

  predicate SameTrace(a: Event, b: Event) {
    && a.traceId == b.traceId && a.spanId == b.spanId
    && a.serviceName == b.serviceName && a.transactionId == b.transactionId
  }

  /** The half that waits under the key of this event, if the event completes it. */
  function WaitingFor(t: Tables, ev: Event): (held: Option<Event>) {
    if IsSyscall(ev) then
      if SyscallKey(ev) in t.syscalls then Some(t.syscalls[SyscallKey(ev)].event) else None
    else if IsKeyedBlock(ev) && ev.payload.blockPhase.Complete? && MakeBlockKey(ev).value in t.blocks then
      Some(t.blocks[MakeBlockKey(ev).value].event)
    else None
  }

  /**
   * Where the trace fields of an output come from: the event is looked up on arrival, and a pair has
   * the fields of its earlier half, as that was when it arrived.
   */
  lemma OutputTrace(t: Tables, ev: Event, now: Time)
    ensures var shown, held, out := TraceFrom(SpansOf(t, ev.pid), ev), WaitingFor(t, ev), ProcessWhole(t, ev, now).1;
            && |out| <= 1
            && (held.None? && out != [] ==> out == [shown])
            && (held.Some? ==>
                  out != [] && SameTrace(out[0], if ev.timestampNs > held.value.timestampNs then held.value else shown))
  {
    TraceKeepsIdentity(SpansOf(t, ev.pid), ev);
  }

  /** A half that waits does so as the lookup left it, stamped with its arrival. */
  lemma WaitsAsShown(t: Tables, ev: Event, now: Time)
    ensures var shown, t' := TraceFrom(SpansOf(t, ev.pid), ev), ProcessWhole(t, ev, now).0;
            && t'.spans == t.spans
            && (ProcessWhole(t, ev, now).1 == [] ==>
                  || (SyscallKey(ev) in t'.syscalls && t'.syscalls[SyscallKey(ev)] == Inflight(shown, now))
                  || (&& MakeBlockKey(ev).Some? && MakeBlockKey(ev).value in t'.blocks
                      && t'.blocks[MakeBlockKey(ev).value] == Inflight(shown, now)))
  {
    TraceKeepsIdentity(SpansOf(t, ev.pid), ev);
  }

  // ---------------------------------------------------------------- eviction, entry by entry

  predicate IsLarge(t: Tables) { |t.syscalls| >= 100 || |t.blocks| >= 100 || |t.spans| >= 100 }

  /**
   * An eviction of a small enricher changes nothing. Otherwise it leaves exactly the halves that
   * arrived in the last five seconds and the spans added in the last thirty, as they were.
   */
  lemma EvictionMeaning(t: Tables, now: Time)
    ensures !IsLarge(t) ==> EvictStale(t, now) == t
    ensures IsLarge(t) ==>
              var t' := EvictStale(t, now);
              && (forall key :: key in t'.syscalls <==>
                    key in t.syscalls && t.syscalls[key].arrivedAt >= now - 5_000_000_000)
              && (forall key :: key in t'.blocks <==> key in t.blocks && t.blocks[key].arrivedAt >= now - 5_000_000_000)
              && (forall key :: key in t'.syscalls ==> t'.syscalls[key] == t.syscalls[key])
              && (forall key :: key in t'.blocks ==> t'.blocks[key] == t.blocks[key])
    ensures IsLarge(t) ==>
              forall pid :: pid in EvictStale(t, now).spans <==> SpansOf(EvictStale(t, now), pid) != []
    ensures IsLarge(t) ==>
              forall pid, span :: span in SpansOf(EvictStale(t, now), pid) <==>
                span in SpansOf(t, pid) && span.arrivedAt > now - 30_000_000_000
  {
    if IsLarge(t) {
      forall pid, span
        ensures span in SpansOf(EvictStale(t, now), pid) <==>
                span in SpansOf(t, pid) && span.arrivedAt > now - 30_000_000_000
      {
        if pid in t.spans {
          assert span in ActiveSpans(t.spans[pid], now) <==>
                 span in t.spans[pid] && span.arrivedAt > now - 30_000_000_000;
        }
      }
    }
  }

  // ---------------------------------------------------------------- shards, bit by bit

  lemma {:induction false} SameBits(a: nat, b: nat, bits: nat)
    requires a < Pow2(bits) && b < Pow2(bits)
    requires forall k :: 0 <= k < bits ==> Bit(a, k) == Bit(b, k)
    ensures a == b
  {
    if bits > 0 {
      assert Bit(a, 0) == Bit(b, 0);
      forall k | 0 <= k < bits - 1
        ensures Bit(a / 2, k) == Bit(b / 2, k)
      {
        assert Bit(a, k + 1) == Bit(b, k + 1);
      }
      SameBits(a / 2, b / 2, bits - 1);
    }
  }

  lemma HalfPlus(r: nat, x: nat)
    ensures (r + 2 * x) / 2 == r / 2 + x && (r + 2 * x) % 2 == r % 2
  {
  }

  /** What is added above the lowest bits leaves them alone. */
  lemma {:induction false} LowBits(r: nat, q: nat, bits: nat, k: nat)
    requires k < bits
    ensures Bit(r + Pow2(bits) * q, k) == Bit(r, k)
  {
    var x := Pow2(bits - 1) * q;
    assert Pow2(bits) * q == 2 * x;
    HalfPlus(r, x);
    if k > 0 {
      LowBits(r / 2, q, bits - 1, k - 1);
    }
  }

  /** The bit of the process id is set exactly when those of sector and size differ. */
  predicate BitsAgree(pid: uint32, sector: uint64, bytes: uint64, k: nat) {
    Bit(pid, k) == if Bit(sector, k) == Bit(bytes, k) then 0 else 1
  }

  lemma ShardBit(pid: uint32, key: BlockKey, k: nat)
    requires k < 5
    ensures BitsAgree(pid, key.sector, key.bytes, k) <==> Bit(PidShard(pid), k) == Bit(BlockShard(key), k)
  {
    assert Pow2(5) == 32;
    LowBits(pid % 32, pid / 32, 5, k);
    XorIsBitwise(key.sector, key.bytes, 5, k);
  }

  /** A process has the shard of its low five bits, a block the shard of the bits in which sector and size differ. */
  lemma ShardBits(pid: uint32, key: BlockKey)
    ensures PidShard(pid) == BlockShard(key) <==>
            forall k :: 0 <= k < 5 ==> BitsAgree(pid, key.sector, key.bytes, k)
  {
    forall k | 0 <= k < 5
      ensures BitsAgree(pid, key.sector, key.bytes, k) <==> Bit(PidShard(pid), k) == Bit(BlockShard(key), k)
    {
      ShardBit(pid, key, k);
    }
    assert Pow2(5) == 32;
    if forall k :: 0 <= k < 5 ==> BitsAgree(pid, key.sector, key.bytes, k) {
      SameBits(PidShard(pid), BlockShard(key), 5);
    }
  }
}
