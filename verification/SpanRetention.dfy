/** Which spans of a process the enricher still holds after any run. */
module SpanRetention {
  import opened KernelEvents
  import opened Sequences
  import opened Enricher
  import opened EnricherLedger

  function ArrivalsAfter(arrivals: seq<Span>, step: Step, pid: uint32): (arrivals': seq<Span>) {
    if step.SpanStep? && step.span.pid == pid then arrivals + [step.span] else arrivals
  }

  /** The spans of one process that arrived over a run, in the order in which they were added. */
  function Arrivals(steps: seq<Step>, pid: uint32): (spans: seq<Span>) {
    if steps == [] then [] else ArrivalsAfter(Arrivals(steps[..|steps| - 1], pid), steps[|steps| - 1], pid)
  }

  /** Spans are added in the order of their stamps. */
  ghost predicate InOrder(spans: seq<Span>) {
    forall i, j :: 0 <= i < j < |spans| ==> spans[i].arrivedAt <= spans[j].arrivedAt
  }

  ghost predicate IsSuffix(s: seq<Span>, of': seq<Span>) {
    |s| <= |of'| && s == of'[|of'| - |s|..]
  }

  /** How many spans are kept of `n` arrivals when nothing is evicted. */
  function Kept(n: nat): (kept: nat) {
    if n <= MAX_SPANS then n else MAX_SPANS - SPAN_CUT + 1 + (n - MAX_SPANS - 1) % SPAN_CUT
  }

  // ---------------------------------------------------------------- eviction by age

  predicate IsActive(span: Span, now: Time) { span.arrivedAt > now - SPAN_TTL }

  /** No span that has expired comes after one that has not. */
  ghost predicate ExpiredFirst(spans: seq<Span>, now: Time) {
    forall i, j :: 0 <= i < j < |spans| && IsActive(spans[i], now) ==> IsActive(spans[j], now)
  }

  lemma {:induction false} NoneActive(spans: seq<Span>, now: Time)
    requires forall k :: 0 <= k < |spans| ==> !IsActive(spans[k], now)
    ensures ActiveSpans(spans, now) == []
  {
    if spans != [] {
      NoneActive(spans[..|spans| - 1], now);
    }
  }

  lemma {:induction false} AllActive(spans: seq<Span>, now: Time)
    requires forall k :: 0 <= k < |spans| ==> IsActive(spans[k], now)
    ensures ActiveSpans(spans, now) == spans
  {
    if spans != [] {
      AllActive(spans[..|spans| - 1], now);
      assert spans == spans[..|spans| - 1] + [spans[|spans| - 1]];
    }
  }

  lemma SplitActive(spans: seq<Span>, now: Time, cut: nat)
    requires cut <= |spans|
    ensures ActiveSpans(spans, now) == ActiveSpans(spans[..cut], now) + ActiveSpans(spans[cut..], now)
  {
    assert spans == spans[..cut] + spans[cut..];
    FilterConcat(spans[..cut], spans[cut..], (span: Span) => span.arrivedAt > now - SPAN_TTL);
  }

  lemma ActiveShorter(spans: seq<Span>, now: Time)
    ensures |ActiveSpans(spans, now)| <= |spans|
  {
    FilterShorter(spans, (span: Span) => span.arrivedAt > now - SPAN_TTL);
  }

  lemma AreActive(spans: seq<Span>, now: Time, k: nat)
    requires k < |ActiveSpans(spans, now)|
    ensures IsActive(ActiveSpans(spans, now)[k], now)
  {
    assert ActiveSpans(spans, now)[k] in ActiveSpans(spans, now);
  }

  lemma EmptyMeansNoneActive(spans: seq<Span>, now: Time, k: nat)
    requires ActiveSpans(spans, now) == [] && k < |spans|
    ensures !IsActive(spans[k], now)
  {
    assert spans[k] !in ActiveSpans(spans, now);
  }

  lemma {:induction false} ActiveIsSuffix(spans: seq<Span>, now: Time)
    requires ExpiredFirst(spans, now)
    ensures IsSuffix(ActiveSpans(spans, now), spans)
  {
    if spans != [] {
      if IsActive(spans[0], now) {
        AllActive(spans, now);
      } else {
        SplitActive(spans, now, 1);
        NoneActive(spans[..1], now);
        ActiveIsSuffix(spans[1..], now);
      }
    }
  }

  /** When the active spans are a suffix, nothing before it is active. */
  lemma NoneActiveBefore(spans: seq<Span>, now: Time, i: nat)
    requires IsSuffix(ActiveSpans(spans, now), spans) && i < |spans| - |ActiveSpans(spans, now)|
    ensures !IsActive(spans[i], now)
  {
    var active := ActiveSpans(spans, now);
    var cut := |spans| - |active|;
    forall k | 0 <= k < |active|
      ensures IsActive(spans[cut..][k], now)
    {
      AreActive(spans, now, k);
    }
    AllActive(spans[cut..], now);
    SplitActive(spans, now, cut);
    EmptyMeansNoneActive(spans[..cut], now, i);
  }

  /** Evicting by age keeps a suffix exactly when the expired spans come first. */
  lemma ActiveIsSuffixIff(spans: seq<Span>, now: Time)
    ensures IsSuffix(ActiveSpans(spans, now), spans) <==> ExpiredFirst(spans, now)
  {
    if ExpiredFirst(spans, now) {
      ActiveIsSuffix(spans, now);
    }
    if IsSuffix(ActiveSpans(spans, now), spans) {
      SuffixMeansExpiredFirst(spans, now);
    }
  }

  lemma SuffixMeansExpiredFirst(spans: seq<Span>, now: Time)
    requires IsSuffix(ActiveSpans(spans, now), spans)
    ensures ExpiredFirst(spans, now)
  {
    var cut := |spans| - |ActiveSpans(spans, now)|;
    forall i, j | 0 <= i < j < |spans| && IsActive(spans[i], now)
      ensures IsActive(spans[j], now)
    {
      assert i >= cut by {
        if i < cut {
          NoneActiveBefore(spans, now, i);
        }
      }
      AreActive(spans, now, j - cut);
      assert spans[cut..][j - cut] == spans[j];
    }
  }

  // ---------------------------------------------------------------- one step

  lemma PairKeepsSpans(t: Tables, ev: Event, now: Time)
    ensures Pair(t, ev, now).0.spans == t.spans
  {
  }

  /** A list that has grown by one, cut if it is too long. */
  function Trimmed(spans: seq<Span>): (r: seq<Span>) { if |spans| > MAX_SPANS then spans[SPAN_CUT..] else spans }

  lemma AddedSpansOf(t: Tables, span: Span, pid: uint32)
    ensures SpansOf(AddSpan(t, span), pid)
         == if span.pid == pid then Trimmed(SpansOf(t, pid) + [span]) else SpansOf(t, pid)
  {
  }

  lemma KeptGrows(n: nat)
    ensures Kept(n + 1) == if Kept(n) == MAX_SPANS then MAX_SPANS + 1 - SPAN_CUT else Kept(n) + 1
    ensures Kept(n) >= if n < 901 then n else 901
  {
  }

  lemma TrimmedNumber(spans: seq<Span>, span: Span, n: nat)
    requires |spans| == Kept(n)
    ensures |Trimmed(spans + [span])| == Kept(n + 1)
  {
    KeptGrows(n);
  }

  lemma SuffixGrows(s: seq<Span>, of': seq<Span>, span: Span)
    requires IsSuffix(s, of') && |s| <= MAX_SPANS
    ensures IsSuffix(Trimmed(s + [span]), of' + [span])
  {
    assert s + [span] == (of' + [span])[|of'| - |s|..];
  }

  /** A shorter list is a suffix of the whole exactly when it is a suffix of one. */
  lemma SuffixOfSuffix(a: seq<Span>, b: seq<Span>, c: seq<Span>)
    requires |a| <= |b| && IsSuffix(b, c)
    ensures IsSuffix(a, b) <==> IsSuffix(a, c)
  {
    assert b[|b| - |a|..] == c[|c| - |a|..];
  }

  /** What an eviction does to the spans of one process. */
  lemma EvictedSpansOf(t: Tables, now: Time, pid: uint32)
    ensures SpansOf(EvictStale(t, now), pid)
         == if EvictionDue(t) then ActiveSpans(SpansOf(t, pid), now) else SpansOf(t, pid)
  {
    var active := ActiveOnly(t.spans, now);
    assert (if pid in active then active[pid] else []) == ActiveSpans(SpansOf(t, pid), now);
  }

  /** What a step does to the spans of one process. */
  function SpansAfter(t: Tables, step: Step, pid: uint32): (spans: seq<Span>) {
    var spans := SpansOf(t, pid);
    match step
    case SpanStep(span) => if span.pid == pid then Trimmed(spans + [span]) else spans
    case EventStep(_, _) => spans
    case EvictStep(now) => if EvictionDue(t) then ActiveSpans(spans, now) else spans
  }

  lemma SpansAfterStep(t: Tables, step: Step, pid: uint32)
    ensures SpansOf(TablesAfter(t, step), pid) == SpansAfter(t, step, pid)
  {
    match step
    case SpanStep(span) => AddedSpansOf(t, span, pid);
    case EventStep(ev, now) => PairKeepsSpans(t, EnrichTrace(t, ev), now);
    case EvictStep(now) => EvictedSpansOf(t, now, pid);
  }

  /** The eviction, if the step is one and due, finds the expired spans of the process first. */
  ghost predicate FindsExpiredFirst(t: Tables, step: Step, pid: uint32) {
    step.EvictStep? && EvictionDue(t) ==> ExpiredFirst(SpansOf(t, pid), step.now)
  }

  /** Arrivals and lookups keep a suffix a suffix; an eviction does exactly when it finds the expired spans first. */
  lemma StepKeepsSuffixIff(t: Tables, arrivals: seq<Span>, step: Step, pid: uint32)
    requires IsSuffix(SpansOf(t, pid), arrivals) && |SpansOf(t, pid)| <= MAX_SPANS
    ensures IsSuffix(SpansOf(TablesAfter(t, step), pid), ArrivalsAfter(arrivals, step, pid))
            <==> FindsExpiredFirst(t, step, pid)
  {
    var spans := SpansOf(t, pid);
    SpansAfterStep(t, step, pid);
    match step
    case SpanStep(span) => SuffixGrows(spans, arrivals, span);
    case EventStep(_, _) =>
    case EvictStep(now) =>
      ActiveShorter(spans, now);
      SuffixOfSuffix(ActiveSpans(spans, now), spans, arrivals);
      ActiveIsSuffixIff(spans, now);
  }

  lemma StepKeepsAtMost(t: Tables, step: Step, pid: uint32)
    requires |SpansOf(t, pid)| <= MAX_SPANS
    ensures |SpansOf(TablesAfter(t, step), pid)| <= MAX_SPANS
  {
    SpansAfterStep(t, step, pid);
    if step.EvictStep? {
      ActiveShorter(SpansOf(t, pid), step.now);
    }
  }

  // ---------------------------------------------------------------- every run

  /** Whatever arrives and is evicted, at most a thousand spans are kept for a process. */
  lemma {:induction false} KeptAtMost(steps: seq<Step>, pid: uint32)
    ensures |SpansOf(RunTables(steps), pid)| <= MAX_SPANS
  {
    if steps != [] {
      KeptAtMost(steps[..|steps| - 1], pid);
      StepKeepsAtMost(RunTables(steps[..|steps| - 1]), steps[|steps| - 1], pid);
    }
  }

  /** The spans held for the process after `n` steps are its newest arrivals. */
  ghost predicate HoldsNewest(steps: seq<Step>, pid: uint32, n: nat)
    requires n <= |steps|
  {
    IsSuffix(SpansOf(RunTables(steps[..n]), pid), Arrivals(steps[..n], pid))
  }

  lemma HoldsNewestStep(steps: seq<Step>, pid: uint32, n: nat)
    requires n < |steps| && HoldsNewest(steps, pid, n)
    ensures HoldsNewest(steps, pid, n + 1) <==> FindsExpiredFirst(RunTables(steps[..n]), steps[n], pid)
  {
    assert steps[..n + 1][..n] == steps[..n];
    KeptAtMost(steps[..n], pid);
    StepKeepsSuffixIff(RunTables(steps[..n]), Arrivals(steps[..n], pid), steps[n], pid);
  }

  /**
   * Throughout a run the spans held for a process are its newest arrivals exactly when every due
   * eviction finds the expired ones first.
   */
  lemma HoldsNewestIff(steps: seq<Step>, pid: uint32)
    ensures (forall n :: 0 <= n <= |steps| ==> HoldsNewest(steps, pid, n))
            <==> forall n :: 0 <= n < |steps| ==> FindsExpiredFirst(RunTables(steps[..n]), steps[n], pid)
  {
    if forall n :: 0 <= n <= |steps| ==> HoldsNewest(steps, pid, n) {
      forall n | 0 <= n < |steps|
        ensures FindsExpiredFirst(RunTables(steps[..n]), steps[n], pid)
      {
        assert HoldsNewest(steps, pid, n) && HoldsNewest(steps, pid, n + 1);
        HoldsNewestStep(steps, pid, n);
      }
    }
    if forall n :: 0 <= n < |steps| ==> FindsExpiredFirst(RunTables(steps[..n]), steps[n], pid) {
      forall n | 0 <= n <= |steps|
        ensures HoldsNewest(steps, pid, n)
      {
        HoldsNewestUpTo(steps, pid, n);
      }
    }
  }

  lemma {:induction false} HoldsNewestUpTo(steps: seq<Step>, pid: uint32, n: nat)
    requires n <= |steps|
    requires forall m :: 0 <= m < |steps| ==> FindsExpiredFirst(RunTables(steps[..m]), steps[m], pid)
    ensures HoldsNewest(steps, pid, n)
  {
    if n > 0 {
      HoldsNewestUpTo(steps, pid, n - 1);
      HoldsNewestStep(steps, pid, n - 1);
    }
  }

  lemma InOrderExpiredFirst(spans: seq<Span>, arrivals: seq<Span>, now: Time)
    requires InOrder(arrivals) && IsSuffix(spans, arrivals)
    ensures ExpiredFirst(spans, now)
  {
    forall i, j | 0 <= i < j < |spans|
      ensures spans[i].arrivedAt <= spans[j].arrivedAt
    {
      var cut := |arrivals| - |spans|;
      assert spans[i] == arrivals[cut + i] && spans[j] == arrivals[cut + j];
    }
  }

  /** In particular without eviction, and when spans are added in stamp order. */
  lemma {:induction false} KeptSpans(steps: seq<Step>, pid: uint32)
    requires NoEviction(steps) || InOrder(Arrivals(steps, pid))
    ensures IsSuffix(SpansOf(RunTables(steps), pid), Arrivals(steps, pid))
  {
    if steps != [] {
      var before, last := steps[..|steps| - 1], steps[|steps| - 1];
      assert Arrivals(before, pid) <= Arrivals(steps, pid);
      KeptSpans(before, pid);
      KeptAtMost(before, pid);
      if last.EvictStep? {
        InOrderExpiredFirst(SpansOf(RunTables(before), pid), Arrivals(before, pid), last.now);
      }
      StepKeepsSuffixIff(RunTables(before), Arrivals(before, pid), last, pid);
    }
  }

  /** Without eviction the number kept is exact: all of them up to a thousand, and never below 901 after that. */
  lemma {:induction false} KeptNumber(steps: seq<Step>, pid: uint32)
    requires NoEviction(steps)
    ensures var total, kept := |Arrivals(steps, pid)|, |SpansOf(RunTables(steps), pid)|;
            kept == Kept(total) && kept >= if total < 901 then total else 901
  {
    if steps != [] {
      var before, last := steps[..|steps| - 1], steps[|steps| - 1];
      KeptNumber(before, pid);
      SpansAfterStep(RunTables(before), last, pid);
      if last.SpanStep? {
        TrimmedNumber(SpansOf(RunTables(before), pid), last.span, |Arrivals(before, pid)|);
      }
      KeptGrows(|Arrivals(steps, pid)|);
    }
  }

  // ---------------------------------------------------------------- a run that leaves a gap

  function SpanOf(pid: uint32, arrivedAt: Time): (span: Span) { Span("", "", "", "", pid, 0, 0, arrivedAt) }

  /** Spans of `n` further processes, all of one shard. */
  function Crowd(n: nat): (steps: seq<Step>)
    requires n <= EVICT_THRESHOLD
  {
    seq(n, i requires 0 <= i < n => SpanStep(SpanOf(NUM_SHARDS * (i + 1), 0)))
  }

  lemma AddsNewProcess(t: Tables, span: Span)
    requires span.pid !in t.spans
    ensures AddSpan(t, span).spans == t.spans[span.pid := [span]]
    ensures |AddSpan(t, span).spans| == |t.spans| + 1
  {
    assert [] + [span] == [span];
    assert AddSpan(t, span).spans.Keys == t.spans.Keys + {span.pid};
  }

  lemma {:induction false} CrowdSpans(n: nat)
    requires n <= EVICT_THRESHOLD
    ensures |RunTables(Crowd(n)).spans| == n && Arrivals(Crowd(n), 0) == []
    ensures forall pid :: pid in RunTables(Crowd(n)).spans ==> 0 < pid <= NUM_SHARDS * n
  {
    if n > 0 {
      CrowdSpans(n - 1);
      assert Crowd(n)[..n - 1] == Crowd(n - 1);
      AddsNewProcess(RunTables(Crowd(n - 1)), SpanOf(NUM_SHARDS * n, 0));
    }
  }

  /** A busy enricher, two spans added against their stamps, and an eviction between their expiries. */
  function GapSteps(): (steps: seq<Step>) {
    Crowd(EVICT_THRESHOLD) + [SpanStep(SpanOf(0, SPAN_TTL)), SpanStep(SpanOf(0, 0)), EvictStep(SPAN_TTL)]
  }

  /** The condition is real: the older arrival is kept and the newer one is not. */
  lemma EvictionLeavesGap()
    ensures Arrivals(GapSteps(), 0) == [SpanOf(0, SPAN_TTL), SpanOf(0, 0)]
    ensures SpansOf(RunTables(GapSteps()), 0) == [SpanOf(0, SPAN_TTL)]
    ensures !IsSuffix(SpansOf(RunTables(GapSteps()), 0), Arrivals(GapSteps(), 0))
  {
    var crowd, young, expired := Crowd(EVICT_THRESHOLD), SpanOf(0, SPAN_TTL), SpanOf(0, 0);
    CrowdSpans(EVICT_THRESHOLD);
    ThreeMore(crowd, SpanStep(young), SpanStep(expired), EvictStep(SPAN_TTL), 0);
    TwoSpans(RunTables(crowd), young, expired);
    EvictedSpansOf(AddSpan(AddSpan(RunTables(crowd), young), expired), SPAN_TTL, 0);
    OnlyFirstActive(young, expired, SPAN_TTL);
    assert [] + [young] + [expired] == [young, expired];
  }

  lemma ThreeMore(before: seq<Step>, a: Step, b: Step, c: Step, pid: uint32)
    ensures RunTables(before + [a, b, c]) == TablesAfter(TablesAfter(TablesAfter(RunTables(before), a), b), c)
    ensures Arrivals(before + [a, b, c], pid)
         == ArrivalsAfter(ArrivalsAfter(ArrivalsAfter(Arrivals(before, pid), a, pid), b, pid), c, pid)
  {
    OneMore(before, a, pid);
    OneMore(before + [a], b, pid);
    OneMore(before + [a] + [b], c, pid);
    assert before + [a] + [b] + [c] == before + [a, b, c];
  }

  lemma OneMore(before: seq<Step>, last: Step, pid: uint32)
    ensures RunTables(before + [last]) == TablesAfter(RunTables(before), last)
    ensures Arrivals(before + [last], pid) == ArrivalsAfter(Arrivals(before, pid), last, pid)
  {
    assert (before + [last])[..|before|] == before;
  }

  lemma TwoSpans(t: Tables, a: Span, b: Span)
    requires a.pid == b.pid && a.pid !in t.spans
    ensures var t' := AddSpan(AddSpan(t, a), b); SpansOf(t', a.pid) == [a, b] && |t'.spans| == |t.spans| + 1
  {
    AddsNewProcess(t, a);
    assert AddSpan(AddSpan(t, a), b).spans.Keys == AddSpan(t, a).spans.Keys;
  }

  lemma OnlyFirstActive(young: Span, expired: Span, now: Time)
    requires IsActive(young, now) && !IsActive(expired, now)
    ensures ActiveSpans([young, expired], now) == [young] && !IsSuffix([young], [young, expired])
  {
    AllActive([young], now);
    NoneActive([expired], now);
    SplitActive([young, expired], now, 1);
    assert [young, expired][..1] == [young] && [young, expired][1..] == [expired];
  }
}
