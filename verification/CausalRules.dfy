/** When one kernel event is said to cause another: the pure rules of the inference engine. */
module CausalRules {
  import opened KernelEvents

  const CAUSAL_THRESHOLD_NS: uint64 := 50_000_000

  datatype CauseKind =
    | TcpRtt | ReadToWrite | WriteToRead | DiskToSyscall | MemoryPressure
    | CpuContention | Sequential | SchedDelay

  /** `crossThread` stands for the CROSS_THREAD_ prefix. */
  datatype Cause = Cause(kind: CauseKind, crossThread: bool)

  datatype Edge = Edge(
    fromId: string, toId: string, cause: Cause, latencyNs: uint64,
    transactionId: string, serviceName: string)

  predicate IsBlocking(t: EventType) { t.SysRead? || t.SysWrite? }

  predicate IsCrossProcCandidate(t: EventType) { t.SchedSwitch? || t.PageFault? }

  function PairCause(from: EventType, to: EventType, crossThread: bool): (c: Option<Cause>) {
    if from.TcpSend? && to.TcpRecv? then Some(Cause(TcpRtt, crossThread))
    else if from.SysRead? && to.SysWrite? then Some(Cause(ReadToWrite, crossThread))
    else if from.SysWrite? && to.SysRead? then Some(Cause(WriteToRead, crossThread))
    else if from.BlockIo? && IsBlocking(to) then Some(Cause(DiskToSyscall, crossThread))
    else if from.PageFault? && IsBlocking(to) then Some(Cause(MemoryPressure, crossThread))
    else if from.SchedSwitch? && IsBlocking(to) then Some(Cause(CpuContention, crossThread))
    else if from == to && !crossThread then Some(Cause(Sequential, false))
    else None
  }

  /** Two events of one window; on equal or reversed timestamps the later arrival is the cause. */
  function TryCreateEdge(first: Event, second: Event, crossThread: bool): (r: Option<Edge>) {
    var (a, b) := if second.timestampNs <= first.timestampNs then (second, first) else (first, second);
    if b.timestampNs - a.timestampNs > CAUSAL_THRESHOLD_NS then None
    else
      match PairCause(a.eventType, b.eventType, crossThread)
      case None => None
      case Some(cause) =>
        Some(Edge(a.eventId, b.eventId, cause, b.timestampNs - a.timestampNs, a.transactionId, a.serviceName))
  }

  function CrossProcCause(prior: Event, ev: Event): (c: Option<Cause>) {
    match prior.eventType
    case BlockIo => if IsBlocking(ev.eventType) then Some(Cause(DiskToSyscall, false)) else None
    case SchedSwitch =>
      if prior.schedNextPid != ev.pid || prior.cpu != ev.cpu then None else Some(Cause(SchedDelay, false))
    case PageFault => Some(Cause(MemoryPressure, false))
    case _ => None
  }

  /** The end of an event; the addition wraps as unsigned 64-bit arithmetic does. */
  function EndNs(ev: Event): (end: uint64) {
    (ev.timestampNs + ev.durationNs) % TWO_64
  }

  function OverlappingLatencyNs(aStart: uint64, aEnd: uint64, bStart: uint64, bEnd: uint64): (r: Option<uint64>) {
    if aEnd < bStart || bEnd < aStart then None
    else if aStart > bStart then Some(aStart - bStart)
    else Some(bStart - aStart)
  }

  function AdjacentLatencyNs(aStart: uint64, aEnd: uint64, bStart: uint64, bEnd: uint64): (r: Option<uint64>)
    requires OverlappingLatencyNs(aStart, aEnd, bStart, bEnd).None?
  {
    // The default case of the switch is dead: one of the two comparisons holds on every call.
    var latency := if aEnd < bStart then bStart - aEnd else aStart - bEnd;
    if latency > CAUSAL_THRESHOLD_NS then None else Some(latency)
  }

  function IntervalLatencyNs(a: Event, b: Event): (r: Option<uint64>) {
    var overlap := OverlappingLatencyNs(a.timestampNs, EndNs(a), b.timestampNs, EndNs(b));
    if overlap.Some? then overlap
    else AdjacentLatencyNs(a.timestampNs, EndNs(a), b.timestampNs, EndNs(b))
  }

  function CrossProcLatencyNs(prior: Event, ev: Event): (r: Option<uint64>) {
    if prior.eventType.BlockIo? then IntervalLatencyNs(prior, ev)
    else if ev.timestampNs <= prior.timestampNs then None
    else if ev.timestampNs - prior.timestampNs > CAUSAL_THRESHOLD_NS then None
    else Some(ev.timestampNs - prior.timestampNs)
  }

  function TryCreateCrossProcEdge(prior: Event, ev: Event): (r: Option<Edge>) {
    if prior.pid == ev.pid && !prior.eventType.BlockIo? then None
    else
      match CrossProcCause(prior, ev)
      case None => None
      case Some(cause) =>
        match CrossProcLatencyNs(prior, ev)
        case None => None
        case Some(latency) =>
          Some(Edge(prior.eventId, ev.eventId, cause, latency, prior.transactionId, prior.serviceName))
  }

  // ---------------------------------------------------------------- what an edge says

  /** The edge leads from `source` to `target`, on behalf of the source. */
  predicate LeadsTo(e: Edge, source: Event, target: Event) {
    && e.fromId == source.eventId && e.toId == target.eventId
    && e.transactionId == source.transactionId && e.serviceName == source.serviceName
  }

  /** What each cause says of two events of one window. */
  predicate PairExplains(c: Cause, from: EventType, to: EventType, crossThread: bool) {
    && c.crossThread == crossThread
    && match c.kind
       case TcpRtt => from == TcpSend && to == TcpRecv
       case ReadToWrite => from == SysRead && to == SysWrite
       case WriteToRead => from == SysWrite && to == SysRead
       case DiskToSyscall => from == BlockIo && to in {SysRead, SysWrite}
       case MemoryPressure => from == PageFault && to in {SysRead, SysWrite}
       case CpuContention => from == SchedSwitch && to in {SysRead, SysWrite}
       case Sequential => from == to && !crossThread
       case SchedDelay => false
  }

  /** The table read backwards: a pair has a cause exactly when that cause explains it. */
  lemma PairCauseMeaning(from: EventType, to: EventType, crossThread: bool, c: Cause)
    ensures PairCause(from, to, crossThread) == Some(c) <==> PairExplains(c, from, to, crossThread)
  {
  }

  /** An edge inside a window runs forward in time, and on a tie from the later arrival to the earlier. */
  lemma WindowEdgeMeaning(first: Event, second: Event, crossThread: bool, e: Edge)
    ensures TryCreateEdge(first, second, crossThread) == Some(e) <==>
            && e.latencyNs <= 50_000_000
            && (|| (&& first.timestampNs < second.timestampNs && first.timestampNs + e.latencyNs == second.timestampNs
                    && LeadsTo(e, first, second)
                    && PairExplains(e.cause, first.eventType, second.eventType, crossThread))
                || (&& second.timestampNs <= first.timestampNs && second.timestampNs + e.latencyNs == first.timestampNs
                    && LeadsTo(e, second, first)
                    && PairExplains(e.cause, second.eventType, first.eventType, crossThread)))
  {
    PairCauseMeaning(first.eventType, second.eventType, crossThread, e.cause);
    PairCauseMeaning(second.eventType, first.eventType, crossThread, e.cause);
  }

  /** What each cause says of an event and an earlier one that is remembered across windows. */
  predicate CrossExplains(c: Cause, prior: Event, ev: Event) {
    && !c.crossThread
    && match c.kind
       case DiskToSyscall => prior.eventType == BlockIo && ev.eventType in {SysRead, SysWrite}
       case SchedDelay => prior.eventType == SchedSwitch && prior.schedNextPid == ev.pid && prior.cpu == ev.cpu
       case MemoryPressure => prior.eventType == PageFault
       case _ => false
  }

  /** Other than from block I/O, an edge between processes runs strictly forward in time. */
  lemma CrossProcEdgeMeaning(prior: Event, ev: Event, e: Edge)
    requires !prior.eventType.BlockIo?
    ensures TryCreateCrossProcEdge(prior, ev) == Some(e) <==> LeadsTo(e, prior, ev) && ForwardEdge(prior, ev, e)
  {
  }

  /** Another process, strictly later, within the threshold, for a cause. */
  predicate ForwardEdge(prior: Event, ev: Event, e: Edge) {
    && prior.pid != ev.pid && prior.timestampNs < ev.timestampNs
    && prior.timestampNs + e.latencyNs == ev.timestampNs && e.latencyNs <= 50_000_000
    && CrossExplains(e.cause, prior, ev)
  }

  // ---------------------------------------------------------------- interval latency

  predicate NoWrap(ev: Event) { ev.timestampNs + ev.durationNs < TWO_64 }

  /** Some instant of `a` and some instant of `b` are at most `gap` nanoseconds apart. */
  ghost predicate WithinGap(a: Event, b: Event, gap: nat) {
    exists s: int, t: int :: During(a, s) && During(b, t) && t - gap <= s <= t + gap
  }

  /** The instant lies in the closed interval from the start of the event to its end. */
  predicate During(ev: Event, instant: int) {
    ev.timestampNs <= instant <= ev.timestampNs + ev.durationNs
  }

  lemma WithinGapIsEndpointDistance(a: Event, b: Event, gap: nat)
    ensures WithinGap(a, b, gap) <==>
            && b.timestampNs - (a.timestampNs + a.durationNs) <= gap
            && a.timestampNs - (b.timestampNs + b.durationNs) <= gap
  {
    var aEnd, bEnd := a.timestampNs + a.durationNs, b.timestampNs + b.durationNs;
    if b.timestampNs - aEnd <= gap && a.timestampNs - bEnd <= gap {
      var s := if aEnd < b.timestampNs then aEnd
               else if bEnd < a.timestampNs then a.timestampNs
               else if a.timestampNs < b.timestampNs then b.timestampNs else a.timestampNs;
      var t := if aEnd < b.timestampNs then b.timestampNs else if bEnd < a.timestampNs then bEnd else s;
      assert During(a, s) && During(b, t) && t - gap <= s <= t + gap;
    }
  }

  /**
   * Block-to-syscall latency: accepted exactly when the closed intervals come within the
   * threshold of each other, the same from either side, and equal to the distance of the starts
   * when they meet and to the gap between them otherwise.
   */
  lemma IntervalLatencyMeaning(a: Event, b: Event)
    requires NoWrap(a) && NoWrap(b)
    ensures IntervalLatencyNs(a, b).Some? <==> WithinGap(a, b, CAUSAL_THRESHOLD_NS)
    ensures IntervalLatencyNs(a, b) == IntervalLatencyNs(b, a)
    ensures WithinGap(a, b, 0) ==>
              && IntervalLatencyNs(a, b).Some?
              && var start := a.timestampNs - b.timestampNs;
                 IntervalLatencyNs(a, b).value == if start < 0 then -start else start
    ensures IntervalLatencyNs(a, b).Some? && !WithinGap(a, b, 0) ==>
              && WithinGap(a, b, IntervalLatencyNs(a, b).value)
              && !WithinGap(a, b, IntervalLatencyNs(a, b).value - 1)
  {
    WithinGapIsEndpointDistance(a, b, CAUSAL_THRESHOLD_NS);
    WithinGapIsEndpointDistance(a, b, 0);
    if IntervalLatencyNs(a, b).Some? && !WithinGap(a, b, 0) {
      LatencyIsLeastGap(a, b);
    }
  }

  lemma LatencyIsLeastGap(a: Event, b: Event)
    requires NoWrap(a) && NoWrap(b) && IntervalLatencyNs(a, b).Some? && !WithinGap(a, b, 0)
    ensures IntervalLatencyNs(a, b).value > 0 && WithinGap(a, b, IntervalLatencyNs(a, b).value)
    ensures !WithinGap(a, b, IntervalLatencyNs(a, b).value - 1)
  {
    var latency := IntervalLatencyNs(a, b).value;
    WithinGapIsEndpointDistance(a, b, 0);
    WithinGapIsEndpointDistance(a, b, latency);
    WithinGapIsEndpointDistance(a, b, latency - 1);
  }

  /**
   * A wrapped end is misleading when it lies before the other start, so that a false gap is
   * measured, and that gap is judged differently from the true distance.
   */
  predicate WrapMisleads(a: Event, b: Event) {
    || (&& !NoWrap(a) && EndNs(a) < b.timestampNs
        && (b.timestampNs - EndNs(a) <= CAUSAL_THRESHOLD_NS)
           != (!NoWrap(b) || a.timestampNs - EndNs(b) <= CAUSAL_THRESHOLD_NS))
    || (&& !NoWrap(b) && EndNs(b) < a.timestampNs && b.timestampNs <= EndNs(a)
        && a.timestampNs - EndNs(b) > CAUSAL_THRESHOLD_NS)
  }

  /** Over all events, wrapped or not: the acceptance rule is met exactly when no wrapped end misleads. */
  lemma AcceptanceMetIff(a: Event, b: Event)
    ensures (IntervalLatencyNs(a, b).Some? <==> WithinGap(a, b, CAUSAL_THRESHOLD_NS)) <==> !WrapMisleads(a, b)
  {
    WithinGapIsEndpointDistance(a, b, CAUSAL_THRESHOLD_NS);
    WrappedEnd(a);
    WrappedEnd(b);
  }

  lemma WrappedEnd(ev: Event)
    ensures EndNs(ev) == ev.timestampNs + ev.durationNs - if NoWrap(ev) then 0 else TWO_64
  {
  }

  /** Without the no-wrap condition the acceptance rule fails: two events that start together. */
  lemma WrappedIntervalIsRefused(a: Event, b: Event)
    requires a.timestampNs == b.timestampNs == TWO_64 - 1
    requires a.durationNs == 10 && b.durationNs == 0
    ensures WithinGap(a, b, 0) && IntervalLatencyNs(a, b).None?
  {
    assert During(a, TWO_64 - 1) && During(b, TWO_64 - 1);
    assert EndNs(a) == 9 && EndNs(b) == TWO_64 - 1;
  }

  // ---------------------------------------------------------------- edges from block I/O

  /** How far two intervals are apart: the distance of their starts when they meet, else the gap between them. */
  ghost predicate IsDistance(a: Event, b: Event, distance: nat) {
    if WithinGap(a, b, 0) then
      distance == if a.timestampNs < b.timestampNs then b.timestampNs - a.timestampNs else a.timestampNs - b.timestampNs
    else
      distance > 0 && WithinGap(a, b, distance) && !WithinGap(a, b, distance - 1)
  }

  /** A block I/O event and a read or write whose intervals come within the threshold. */
  ghost predicate BlockEdge(prior: Event, ev: Event, e: Edge) {
    && WithinGap(prior, ev, 50_000_000) && IsDistance(prior, ev, e.latencyNs)
    && CrossExplains(e.cause, prior, ev)
  }

  lemma DistanceIsUnique(a: Event, b: Event, d1: nat, d2: nat)
    requires IsDistance(a, b, d1) && IsDistance(a, b, d2)
    ensures d1 == d2
  {
    WithinGapIsEndpointDistance(a, b, 0);
    if !WithinGap(a, b, 0) {
      WithinGapIsEndpointDistance(a, b, d1);
      WithinGapIsEndpointDistance(a, b, d1 - 1);
      WithinGapIsEndpointDistance(a, b, d2);
      WithinGapIsEndpointDistance(a, b, d2 - 1);
    }
  }

  lemma LatencyIsDistance(a: Event, b: Event)
    requires NoWrap(a) && NoWrap(b) && IntervalLatencyNs(a, b).Some?
    ensures IsDistance(a, b, IntervalLatencyNs(a, b).value)
  {
    IntervalLatencyMeaning(a, b);
    if !WithinGap(a, b, 0) {
      WithinGapIsEndpointDistance(a, b, 0);
    }
  }

  /**
   * Which edges a block I/O event makes: exactly those to reads and writes whose interval comes
   * within 50 ms of its own, in whatever order the two started and in whatever process.
   */
  lemma BlockEdgeMeaning(prior: Event, ev: Event, e: Edge)
    requires prior.eventType.BlockIo? && NoWrap(prior) && NoWrap(ev)
    ensures TryCreateCrossProcEdge(prior, ev) == Some(e) <==> LeadsTo(e, prior, ev) && BlockEdge(prior, ev, e)
    ensures TryCreateCrossProcEdge(prior, ev).Some? <==>
            ev.eventType in {SysRead, SysWrite} && WithinGap(prior, ev, 50_000_000)
  {
    IntervalLatencyMeaning(prior, ev);
    if IntervalLatencyNs(prior, ev).Some? {
      LatencyIsDistance(prior, ev);
      if IsDistance(prior, ev, e.latencyNs) {
        DistanceIsUnique(prior, ev, e.latencyNs, IntervalLatencyNs(prior, ev).value);
      }
    }
  }

  /** What makes a cross-process edge, on the fields of the two events. */
  ghost predicate CrossEdge(prior: Event, ev: Event, e: Edge) {
    LeadsTo(e, prior, ev) && if prior.eventType.BlockIo? then BlockEdge(prior, ev, e) else ForwardEdge(prior, ev, e)
  }

  lemma CrossEdgeMeaning(prior: Event, ev: Event, e: Edge)
    requires NoWrap(prior) && NoWrap(ev)
    ensures TryCreateCrossProcEdge(prior, ev) == Some(e) <==> CrossEdge(prior, ev, e)
  {
    if prior.eventType.BlockIo? {
      BlockEdgeMeaning(prior, ev, e);
    } else {
      CrossProcEdgeMeaning(prior, ev, e);
    }
  }
}
