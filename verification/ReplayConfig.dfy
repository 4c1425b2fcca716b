/** Replay settings, the failure injector, and the delays of a playback. */
module ReplayConfig {
  import opened KernelEvents

  const TWO_63 := 0x8000_0000_0000_0000
  const ETIMEDOUT: int64 := -110

  datatype Config = Config(
    transactionId: string, timeoutOverrideNs: int64, latencyMultiplier: real, extraLatencyNs: uint64,
    injectFailureAt: string, maxEvents: int, speedFactor: real)
  {
    /** The empty string means the settings are accepted. */
    function Validate(): (message: string) {
      if transactionId == "" then "transaction_id is required"
      else if latencyMultiplier < 0.0 then "latency_multiplier must be >= 0"
      else if speedFactor < 0.0 then "speed_factor must be >= 0"
      else ""
    }

    function EffectiveLatencyMultiplier(): (m: real) {
      if latencyMultiplier == 0.0 then 1.0 else latencyMultiplier
    }

    function EffectiveSpeedFactor(): (f: real) {
      if speedFactor == 0.0 then 1.0 else speedFactor
    }
  }

  /** Settings are accepted exactly with an id and no negative factor; then the factors in force are positive. */
  lemma ValidConfigHasPositiveFactors(cfg: Config)
    ensures cfg.Validate() == "" <==> cfg.transactionId != "" && cfg.latencyMultiplier >= 0.0 && cfg.speedFactor >= 0.0
    ensures cfg.Validate() == "" ==> cfg.EffectiveLatencyMultiplier() > 0.0 && cfg.EffectiveSpeedFactor() > 0.0
  {
  }

  // ---------------------------------------------------------------- failure injection

  datatype Result<+T> = Ok(value: T) | Err(message: string)

  /** `None` when no failure is asked for. */
  function ParseFailureTarget(cfg: Config): (r: Result<Option<EventType>>) {
    match cfg.injectFailureAt
    case "" => Ok(None)
    case "tcp_send" => Ok(Some(TcpSend))
    case "tcp_recv" => Ok(Some(TcpRecv))
    case "sys_write" => Ok(Some(SysWrite))
    case "sys_read" => Ok(Some(SysRead))
    case _ => Err("unknown failure target")
  }

  /** The target of each name, and the names that are refused. */
  lemma FailureTargetMeaning(cfg: Config)
    ensures var r, name := ParseFailureTarget(cfg), cfg.injectFailureAt;
            && (r == Ok(None) <==> name == "")
            && (r == Ok(Some(TcpSend)) <==> name == "tcp_send") && (r == Ok(Some(TcpRecv)) <==> name == "tcp_recv")
            && (r == Ok(Some(SysWrite)) <==> name == "sys_write") && (r == Ok(Some(SysRead)) <==> name == "sys_read")
            && (r.Err? <==> name !in ["", "tcp_send", "tcp_recv", "sys_write", "sys_read"])
  {
  }

  function ToUint64(x: int): (r: uint64) { x % TWO_64 }

  function ToInt64(x: uint64): (r: int64) { if x < TWO_63 then x else x - TWO_64 }

  /** A sum of two int64 values, which wraps. */
  function WrapInt64(x: int): (r: int64) { ToInt64(ToUint64(x)) }

  /** Conversion of a non-negative float to int64; out of range the result is that of amd64. */
  function TruncInt64(x: real): (r: int64)
    requires x >= 0.0
  {
    if x < TWO_63 as real then x.Floor else -TWO_63
  }

  function ApplyTimeout(cfg: Config, e: Event): (r: Event) {
    if cfg.timeoutOverrideNs == 0 then e else e.(durationNs := ToUint64(cfg.timeoutOverrideNs))
  }

  function ApplyExtraLatency(cfg: Config, e: Event): (r: Event) {
    if cfg.extraLatencyNs == 0 then e else e.(durationNs := ToUint64(e.durationNs + cfg.extraLatencyNs))
  }

  function ApplyFailure(target: Option<EventType>, e: Event): (r: Event) {
    if target.Some? && e.eventType == target.value then e.(returnValue := ETIMEDOUT) else e
  }

  function Inject(cfg: Config, target: Option<EventType>, e: Event): (r: Event) {
    ApplyFailure(target, ApplyExtraLatency(cfg, ApplyTimeout(cfg, e)))
  }

  /** Everything an injection leaves alone. */
  predicate SameIdentity(a: Event, b: Event) {
    a == b.(durationNs := a.durationNs, returnValue := a.returnValue)
  }

  /**
   * What injection makes of an event: everything but duration and return value stays; the duration
   * is the override, if any, plus the extra latency, with wrap-around; the target type times out.
   */
  predicate Injected(cfg: Config, target: Option<EventType>, e: Event, e': Event) {
    && SameIdentity(e', e)
    && e'.returnValue == (if target == Some(e.eventType) then ETIMEDOUT else e.returnValue)
    && e'.durationNs ==
       ((if cfg.timeoutOverrideNs == 0 then e.durationNs else cfg.timeoutOverrideNs) + cfg.extraLatencyNs)
       % 0x1_0000_0000_0000_0000
  }

  /** Injection changes durations and return values only; order, length and times stay. */
  method Apply(cfg: Config, events: seq<Event>) returns (r: Result<seq<Event>>)
    ensures r.Ok? <==> events == [] || ParseFailureTarget(cfg).Ok?
    ensures r.Ok? ==> |r.value| == |events|
    ensures r.Ok? && events != [] ==> forall i :: 0 <= i < |events| ==>
              Injected(cfg, ParseFailureTarget(cfg).value, events[i], r.value[i])
  {
    if |events| == 0 {
      return Ok(events);
    }
    var target := ParseFailureTarget(cfg);
    if target.Err? {
      return Err(target.message);
    }
    var out := events;
    for i := 0 to |out|
      invariant |out| == |events|
      invariant forall k :: 0 <= k < i ==> out[k] == Inject(cfg, target.value, events[k])
      invariant forall k :: i <= k < |out| ==> out[k] == events[k]
    {
      out := out[i := Inject(cfg, target.value, out[i])];
    }
    forall i | 0 <= i < |events|
      ensures Injected(cfg, target.value, events[i], out[i])
    {
      InjectInjects(cfg, target.value, events[i]);
    }
    return Ok(out);
  }

  lemma InjectInjects(cfg: Config, target: Option<EventType>, e: Event)
    ensures Injected(cfg, target, e, Inject(cfg, target, e))
  {
  }

  // ---------------------------------------------------------------- delays

  function GapNs(current: Event, next: Event): (gap: nat) {
    if next.timestampNs > current.timestampNs then next.timestampNs - current.timestampNs else 0
  }

  /** The delay computed after one event, from the gap to the next; reals stand in for float64. */
  function DelayNs(cfg: Config, gap: nat): (delay: int64)
    requires cfg.Validate() == ""
  {
    ScaledByRate(cfg, gap);
    WrapInt64(TruncInt64(ScaledNs(cfg, gap)) + ToInt64(cfg.extraLatencyNs))
  }

  function ScaledNs(cfg: Config, gap: nat): (scaled: real)
    requires cfg.EffectiveSpeedFactor() != 0.0
  {
    gap as real * cfg.EffectiveLatencyMultiplier() / cfg.EffectiveSpeedFactor()
  }

  /** The delay after each event but the last, for a rule that turns gaps into delays. */
  function Delays(delayOf: nat -> int, events: seq<Event>): (delays: seq<int>) {
    if |events| == 0 then []
    else seq(|events| - 1, i requires 0 <= i < |events| - 1 => delayOf(GapNs(events[i], events[i + 1])))
  }

  function DelayRule(cfg: Config): (delayOf: nat -> int)
    requires cfg.Validate() == ""
  {
    (gap: nat) => DelayNs(cfg, gap)
  }

  /** A timer is started only for a positive delay. */
  function Wait(delay: int): (wait: nat) { if delay > 0 then delay else 0 }

  function Waited(delays: seq<int>): (total: nat) {
    if delays == [] then 0 else Waited(delays[..|delays| - 1]) + Wait(delays[|delays| - 1])
  }

  /** A playback from the first event that nobody cancels. */
  method PlayThrough(cfg: Config, events: seq<Event>) returns (delivered: seq<nat>, waited: nat)
    requires cfg.Validate() == ""
    ensures |delivered| == |events| && forall i :: 0 <= i < |events| ==> delivered[i] == i
    ensures waited == Waited(Delays(DelayRule(cfg), events))
  {
    ghost var delays := Delays(DelayRule(cfg), events);
    delivered, waited := [], 0;
    var cursor := 0;
    while cursor < |events|
      invariant 0 <= cursor <= |events| && |delivered| == cursor
      invariant forall i :: 0 <= i < cursor ==> delivered[i] == i
      invariant waited == Waited(delays[..if cursor <= |delays| then cursor else |delays|])
    {
      var index := cursor;
      cursor := cursor + 1;
      delivered := delivered + [index];
      if index + 1 < |events| {
        var delay := DelayNs(cfg, GapNs(events[index], events[index + 1]));
        if delay > 0 {
          waited := waited + delay;
        }
        assert delay == delays[index];
        WaitedSnoc(delays, index);
      }
    }
    assert delays[..|delays|] == delays;
  }

  lemma WaitedSnoc(delays: seq<int>, n: nat)
    requires n < |delays|
    ensures Waited(delays[..n + 1]) == Waited(delays[..n]) + Wait(delays[n])
  {
    assert delays[..n + 1][..n] == delays[..n];
  }

  ghost predicate TimeSorted(events: seq<Event>) {
    forall i, j :: 0 <= i < j < |events| ==> events[i].timestampNs <= events[j].timestampNs
  }

  function Rate(cfg: Config): (r: real)
    requires cfg.EffectiveSpeedFactor() != 0.0
  {
    cfg.EffectiveLatencyMultiplier() / cfg.EffectiveSpeedFactor()
  }

  lemma ScaleByRate(gap: real, m: real, f: real)
    requires gap >= 0.0 && m > 0.0 && f > 0.0
    ensures gap * m / f == (m / f) * gap && (m / f) * gap >= 0.0
  {
    var r := m / f;
    assert r * f == m;
    assert gap * m == (r * gap) * f;
    assert r > 0.0;
  }

  lemma ScaledByRate(cfg: Config, gap: nat)
    requires cfg.Validate() == ""
    ensures ScaledNs(cfg, gap) == Rate(cfg) * gap as real && ScaledNs(cfg, gap) >= 0.0
  {
    ScaleByRate(gap as real, cfg.EffectiveLatencyMultiplier(), cfg.EffectiveSpeedFactor());
  }

  // ---------------------------------------------------------------- one delay

  /** The exact delay after this gap fits a signed 64-bit number. */
  predicate Fits(cfg: Config, gap: nat)
    requires cfg.EffectiveSpeedFactor() != 0.0
  {
    ScaledNs(cfg, gap).Floor + cfg.extraLatencyNs < TWO_63
  }

  lemma FittingDelay(cfg: Config, gap: nat)
    requires cfg.Validate() == "" && Fits(cfg, gap)
    ensures DelayNs(cfg, gap) == ScaledNs(cfg, gap).Floor + cfg.extraLatencyNs
  {
    ScaledByRate(cfg, gap);
    FloorBelow(ScaledNs(cfg, gap));
  }

  lemma FloorBelow(x: real)
    requires x >= 0.0
    ensures 0 <= x.Floor && (x < TWO_63 as real <==> x.Floor < TWO_63)
  {
  }

  /** A delay that does not fit comes out too short, by a span that no list of gaps makes up for. */
  lemma MisfitDelay(cfg: Config, gap: nat)
    requires cfg.Validate() == "" && !Fits(cfg, gap)
    ensures Wait(DelayNs(cfg, gap)) - cfg.extraLatencyNs <= ScaledNs(cfg, gap).Floor - TWO_63
  {
    ScaledByRate(cfg, gap);
    FloorBelow(ScaledNs(cfg, gap));
  }

  /** Of two gaps in opposite directions one is nothing, and they differ by the distance of the two events. */
  lemma GapMeaning(a: Event, b: Event)
    ensures GapNs(a, b) - GapNs(b, a) == b.timestampNs - a.timestampNs && (GapNs(a, b) == 0 || GapNs(b, a) == 0)
  {
  }

  /** A span of recorded time times the multiplier, over the speed. */
  function Stretched(span: nat, multiplier: real, speed: real): (stretched: real)
    requires speed > 0.0
  {
    span as real * multiplier / speed
  }

  lemma ScaledOnFields(cfg: Config, gap: nat)
    requires cfg.latencyMultiplier > 0.0 && cfg.speedFactor > 0.0
    ensures ScaledNs(cfg, gap) == Stretched(gap, cfg.latencyMultiplier, cfg.speedFactor)
  {
    assert cfg.EffectiveLatencyMultiplier() == cfg.latencyMultiplier;
    assert cfg.EffectiveSpeedFactor() == cfg.speedFactor;
  }

  lemma ScaledByFactors(c1: Config, c2: Config, gap: nat)
    requires c1.EffectiveSpeedFactor() == c2.EffectiveSpeedFactor() != 0.0
    requires c1.EffectiveLatencyMultiplier() == c2.EffectiveLatencyMultiplier()
    ensures ScaledNs(c1, gap) == ScaledNs(c2, gap)
  {
  }

  /**
   * The delay on the fields of the settings: the gap times the multiplier over the speed, truncated,
   * plus the extra latency.
   */
  lemma DelayMeaning(cfg: Config, gap: nat)
    requires cfg.Validate() == "" && cfg.latencyMultiplier > 0.0 && cfg.speedFactor > 0.0
    requires DelayFits(gap, cfg.latencyMultiplier, cfg.speedFactor, cfg.extraLatencyNs)
    ensures DelayNs(cfg, gap) == Stretched(gap, cfg.latencyMultiplier, cfg.speedFactor).Floor + cfg.extraLatencyNs
  {
    ScaledOnFields(cfg, gap);
    FittingDelay(cfg, gap);
  }

  predicate DelayFits(gap: nat, multiplier: real, speed: real, extra: nat)
    requires speed > 0.0
  {
    Stretched(gap, multiplier, speed).Floor + extra < 0x8000_0000_0000_0000
  }

  /** A factor of zero stands for one. */
  lemma ZeroMeansOne(cfg: Config, gap: nat)
    requires cfg.Validate() == ""
    ensures DelayNs(cfg.(latencyMultiplier := 0.0), gap) == DelayNs(cfg.(latencyMultiplier := 1.0), gap)
    ensures DelayNs(cfg.(speedFactor := 0.0), gap) == DelayNs(cfg.(speedFactor := 1.0), gap)
  {
    SameFactorsSameDelay(cfg.(latencyMultiplier := 0.0), cfg.(latencyMultiplier := 1.0), gap);
    SameFactorsSameDelay(cfg.(speedFactor := 0.0), cfg.(speedFactor := 1.0), gap);
  }

  lemma SameFactorsSameDelay(c1: Config, c2: Config, gap: nat)
    requires c1.Validate() == c2.Validate() == "" && c1.extraLatencyNs == c2.extraLatencyNs
    requires c1.EffectiveSpeedFactor() == c2.EffectiveSpeedFactor()
    requires c1.EffectiveLatencyMultiplier() == c2.EffectiveLatencyMultiplier()
    ensures DelayNs(c1, gap) == DelayNs(c2, gap)
  {
    ScaledByFactors(c1, c2, gap);
  }

  // ---------------------------------------------------------------- the schedule

  /** The delay is less than one nanosecond below `scaled` plus the extra latency, and not above. */
  ghost predicate NearScaled(scaled: real, delay: int, extra: nat) {
    delay >= extra && scaled - 1.0 < (delay - extra) as real <= scaled
  }

  lemma FloorIsNear(scaled: real, extra: nat)
    requires scaled >= 0.0
    ensures NearScaled(scaled, scaled.Floor + extra, extra)
  {
  }

  /** Without `extra` per gap, the total is at most `span` and less than one per gap below it. */
  ghost predicate OnSchedule(total: nat, gaps: nat, extra: nat, span: real) {
    var net := (total - gaps * extra) as real;
    span - gaps as real <= net <= span && (gaps > 0 ==> span - gaps as real < net)
  }

  lemma OneMoreDelay(total: nat, gaps: nat, extra: nat, span: real, delay: int, scaled: real)
    requires OnSchedule(total, gaps, extra, span) && NearScaled(scaled, delay, extra)
    ensures OnSchedule(total + delay, gaps + 1, extra, span + scaled)
  {
    assert (gaps + 1) * extra == gaps * extra + extra;
  }

  /** What a recorded span of time becomes in the replay. */
  function ScaleRule(cfg: Config): (scale: nat -> real)
    requires cfg.EffectiveSpeedFactor() != 0.0
  {
    (span: nat) => Rate(cfg) * span as real
  }

  ghost predicate AddsUp(scale: nat -> real, a: nat, b: nat) {
    scale(a + b) == scale(a) + scale(b)
  }

  ghost predicate Follows(delayOf: nat -> int, scale: nat -> real, extra: nat, gap: nat) {
    NearScaled(scale(gap), delayOf(gap), extra)
  }

  /** The recorded gap after event `i`. */
  function GapAfter(events: seq<Event>, i: nat): (gap: nat)
    requires i + 1 < |events|
  {
    GapNs(events[i], events[i + 1])
  }

  /** A delay rule that follows an additive scale at every gap keeps the schedule of the scaled span. */
  lemma {:induction false} ScheduleFollows(delayOf: nat -> int, scale: nat -> real, extra: nat, events: seq<Event>)
    requires forall a: nat, b: nat :: AddsUp(scale, a, b)
    requires TimeSorted(events) && |events| > 0
    requires forall i :: 0 <= i < |events| - 1 ==> Follows(delayOf, scale, extra, GapAfter(events, i))
    ensures InTime(delayOf, scale, extra, events)
  {
    if |events| == 1 {
      assert AddsUp(scale, 0, 0);
    } else {
      var front := events[..|events| - 1];
      forall i | 0 <= i < |front| - 1
        ensures Follows(delayOf, scale, extra, GapAfter(front, i))
      {
        assert GapAfter(front, i) == GapAfter(events, i);
      }
      ScheduleFollows(delayOf, scale, extra, front);
      InTimeGrows(delayOf, scale, extra, events);
    }
  }

  ghost predicate InTime(delayOf: nat -> int, scale: nat -> real, extra: nat, events: seq<Event>)
    requires |events| > 0
  {
    OnSchedule(Waited(Delays(delayOf, events)), |events| - 1, extra, scale(Span(events)))
  }

  lemma InTimeGrows(delayOf: nat -> int, scale: nat -> real, extra: nat, events: seq<Event>)
    requires TimeSorted(events) && |events| > 1 && InTime(delayOf, scale, extra, events[..|events| - 1])
    requires var front, gap := events[..|events| - 1], GapAfter(events, |events| - 2);
             AddsUp(scale, Span(front), gap) && Follows(delayOf, scale, extra, gap)
    ensures InTime(delayOf, scale, extra, events)
  {
    var n := |events| - 1;
    var front, gap := events[..n], GapAfter(events, n - 1);
    LastGap(delayOf, events);
    OneMoreDelay(Waited(Delays(delayOf, front)), n - 1, extra, scale(Span(front)), delayOf(gap), scale(gap));
  }

  lemma LastGap(delayOf: nat -> int, events: seq<Event>)
    requires TimeSorted(events) && |events| > 1
    ensures var n := |events| - 1;
            var gap := GapAfter(events, n - 1);
            && TimeSorted(events[..n])
            && Span(events) == Span(events[..n]) + gap
            && Waited(Delays(delayOf, events)) == Waited(Delays(delayOf, events[..n])) + Wait(delayOf(gap))
  {
    var n := |events| - 1;
    assert Delays(delayOf, events)[..n - 1] == Delays(delayOf, events[..n]);
  }

  /** The recorded time from the first event to the last. */
  function Span(events: seq<Event>): (span: nat)
    requires |events| > 0
  {
    GapNs(events[0], events[|events| - 1])
  }

  lemma Distribute(r: real, a: nat, b: nat)
    ensures r * (a + b) as real == r * a as real + r * b as real
  {
    assert (a + b) as real == a as real + b as real;
  }

  lemma ScaleIsAdditive(cfg: Config, a: nat, b: nat)
    requires cfg.EffectiveSpeedFactor() != 0.0
    ensures AddsUp(ScaleRule(cfg), a, b)
  {
    Distribute(Rate(cfg), a, b);
  }

  lemma DelayFollowsScale(cfg: Config, gap: nat)
    requires cfg.Validate() == "" && Fits(cfg, gap)
    ensures Follows(DelayRule(cfg), ScaleRule(cfg), cfg.extraLatencyNs, gap)
  {
    ScaledByRate(cfg, gap);
    FittingDelay(cfg, gap);
    FloorIsNear(ScaledNs(cfg, gap), cfg.extraLatencyNs);
  }

  lemma ScalesAddUp(cfg: Config)
    requires cfg.EffectiveSpeedFactor() != 0.0
    ensures forall a: nat, b: nat :: AddsUp(ScaleRule(cfg), a, b)
  {
    forall a: nat, b: nat
      ensures AddsUp(ScaleRule(cfg), a, b)
    {
      ScaleIsAdditive(cfg, a, b);
    }
  }

  /** Every delay of the playback fits; without a gap this holds of any settings. */
  ghost predicate AllFit(cfg: Config, events: seq<Event>)
    requires cfg.EffectiveSpeedFactor() != 0.0
  {
    forall i :: 0 <= i < |events| - 1 ==> Fits(cfg, GapAfter(events, i))
  }

  ghost predicate ScheduleKept(cfg: Config, events: seq<Event>)
    requires cfg.Validate() == "" && |events| > 0
  {
    InTime(DelayRule(cfg), ScaleRule(cfg), cfg.extraLatencyNs, events)
  }

  /**
   * The schedule of a full playback of time-sorted events: without the extra latency per gap, the
   * total wait is the recorded span scaled by the rate, less under one nanosecond per gap.
   */
  lemma ScheduleBounds(cfg: Config, events: seq<Event>)
    requires cfg.Validate() == "" && TimeSorted(events) && |events| > 0
    requires AllFit(cfg, events)
    ensures ScheduleKept(cfg, events)
  {
    ScalesAddUp(cfg);
    forall i | 0 <= i < |events| - 1
      ensures Follows(DelayRule(cfg), ScaleRule(cfg), cfg.extraLatencyNs, GapAfter(events, i))
    {
      DelayFollowsScale(cfg, GapAfter(events, i));
    }
    ScheduleFollows(DelayRule(cfg), ScaleRule(cfg), cfg.extraLatencyNs, events);
  }

  /** The same on the fields of settings and events. */
  lemma ScheduleMeaning(cfg: Config, events: seq<Event>)
    requires cfg.Validate() == "" && cfg.latencyMultiplier > 0.0 && cfg.speedFactor > 0.0
    requires TimeSorted(events) && |events| > 0
    requires forall i :: 0 <= i < |events| - 1 ==>
               DelayFits(events[i + 1].timestampNs - events[i].timestampNs, cfg.latencyMultiplier, cfg.speedFactor,
                         cfg.extraLatencyNs)
    ensures OnSchedule(Waited(Delays(DelayRule(cfg), events)), |events| - 1, cfg.extraLatencyNs,
                       Stretched(events[|events| - 1].timestampNs - events[0].timestampNs,
                                 cfg.latencyMultiplier, cfg.speedFactor))
  {
    forall i | 0 <= i < |events| - 1
      ensures Fits(cfg, GapAfter(events, i))
    {
      assert GapAfter(events, i) == events[i + 1].timestampNs - events[i].timestampNs;
      FitsOnFields(cfg, GapAfter(events, i));
    }
    ScheduleBounds(cfg, events);
    RuleOnFields(cfg, Span(events));
    assert Span(events) == events[|events| - 1].timestampNs - events[0].timestampNs;
  }

  lemma FitsOnFields(cfg: Config, gap: nat)
    requires cfg.latencyMultiplier > 0.0 && cfg.speedFactor > 0.0
    ensures Fits(cfg, gap) <==> DelayFits(gap, cfg.latencyMultiplier, cfg.speedFactor, cfg.extraLatencyNs)
  {
    ScaledOnFields(cfg, gap);
  }

  lemma RuleOnFields(cfg: Config, span: nat)
    requires cfg.Validate() == "" && cfg.latencyMultiplier > 0.0 && cfg.speedFactor > 0.0
    ensures ScaleRule(cfg)(span) == Stretched(span, cfg.latencyMultiplier, cfg.speedFactor)
  {
    ScaledOnFields(cfg, span);
    RuleScales(cfg, span);
  }

  // ---------------------------------------------------------------- when the schedule breaks

  /** Without `extra` per gap, the total is at least `short` below `span`. */
  ghost predicate Behind(total: nat, gaps: nat, extra: nat, span: real, short: real) {
    (total - gaps * extra) as real <= span - short
  }

  lemma OneMoreBehind(total: nat, gaps: nat, extra: nat, span: real, short: real, wait: nat, scaled: real, more: real)
    requires Behind(total, gaps, extra, span, short) && (wait - extra) as real <= scaled - more
    ensures Behind(total + wait, gaps + 1, extra, span + scaled, short + more)
  {
    assert (gaps + 1) * extra == gaps * extra + extra;
  }

  /** No wait exceeds the scaled gap and the extra latency, and a misfit stays far below it. */
  lemma WaitBound(cfg: Config, gap: nat)
    requires cfg.Validate() == ""
    ensures (Wait(DelayRule(cfg)(gap)) - cfg.extraLatencyNs) as real <= ScaleRule(cfg)(gap) - Shortfall(cfg, gap)
  {
    var wait, short := Wait(DelayRule(cfg)(gap)), if Fits(cfg, gap) then 0 else TWO_63;
    WaitBoundInt(cfg, gap);
    RuleScales(cfg, gap);
    FloorBound(wait - cfg.extraLatencyNs, ScaleRule(cfg)(gap), short);
  }

  lemma RuleScales(cfg: Config, gap: nat)
    requires cfg.Validate() == ""
    ensures ScaleRule(cfg)(gap) == ScaledNs(cfg, gap)
  {
    ScaledByRate(cfg, gap);
  }

  lemma WaitBoundInt(cfg: Config, gap: nat)
    requires cfg.Validate() == ""
    ensures Wait(DelayNs(cfg, gap)) - cfg.extraLatencyNs
         <= ScaledNs(cfg, gap).Floor - if Fits(cfg, gap) then 0 else TWO_63
  {
    if Fits(cfg, gap) {
      ScaledByRate(cfg, gap);
      FloorBelow(ScaledNs(cfg, gap));
      FittingDelay(cfg, gap);
    } else {
      MisfitDelay(cfg, gap);
    }
  }

  lemma FloorBound(wait: int, scaled: real, short: nat)
    requires wait <= scaled.Floor - short
    ensures wait as real <= scaled - short as real
  {
    assert (scaled.Floor - short) as real == scaled.Floor as real - short as real;
  }

  function Shortfall(cfg: Config, gap: nat): (short: real)
    requires cfg.EffectiveSpeedFactor() != 0.0
  {
    if Fits(cfg, gap) then 0.0 else TWO_63 as real
  }

  ghost predicate FarBehind(cfg: Config, events: seq<Event>, short: real)
    requires cfg.Validate() == "" && |events| > 0
  {
    Behind(Waited(Delays(DelayRule(cfg), events)), |events| - 1, cfg.extraLatencyNs,
           ScaleRule(cfg)(Span(events)), short)
  }

  lemma FarBehindGrows(cfg: Config, events: seq<Event>, short: real)
    requires cfg.Validate() == "" && TimeSorted(events) && |events| > 1
    ensures FarBehind(cfg, events[..|events| - 1], short) ==>
              FarBehind(cfg, events, short + Shortfall(cfg, GapAfter(events, |events| - 2)))
  {
    var front, gap := events[..|events| - 1], GapAfter(events, |events| - 2);
    ScaleIsAdditive(cfg, Span(front), gap);
    WaitBound(cfg, gap);
    if FarBehind(cfg, front, short) {
      BehindGrows(DelayRule(cfg), ScaleRule(cfg), cfg.extraLatencyNs, events, short, Shortfall(cfg, gap));
    }
  }

  lemma BehindGrows(delayOf: nat -> int, scale: nat -> real, extra: nat, events: seq<Event>, short: real, more: real)
    requires TimeSorted(events) && |events| > 1
    requires var front, gap := events[..|events| - 1], GapAfter(events, |events| - 2);
             && AddsUp(scale, Span(front), gap) && (Wait(delayOf(gap)) - extra) as real <= scale(gap) - more
             && Behind(Waited(Delays(delayOf, front)), |front| - 1, extra, scale(Span(front)), short)
    ensures Behind(Waited(Delays(delayOf, events)), |events| - 1, extra, scale(Span(events)), short + more)
  {
    var n := |events| - 1;
    var front, gap := events[..n], GapAfter(events, n - 1);
    LastGap(delayOf, events);
    OneMoreBehind(Waited(Delays(delayOf, front)), n - 1, extra, scale(Span(front)), short,
                  Wait(delayOf(gap)), scale(gap), more);
  }

  lemma {:induction false} NeverAhead(cfg: Config, events: seq<Event>)
    requires cfg.Validate() == "" && TimeSorted(events) && |events| > 0
    ensures FarBehind(cfg, events, 0.0)
  {
    if |events| == 1 {
      ScaleIsAdditive(cfg, 0, 0);
      assert AddsUp(ScaleRule(cfg), 0, 0);
    } else {
      NeverAhead(cfg, events[..|events| - 1]);
      FarBehindGrows(cfg, events, 0.0);
    }
  }

  /** One delay that does not fit puts the whole playback behind by at least two to the 63. */
  lemma {:induction false} OneMisfitIsEnough(cfg: Config, events: seq<Event>, i: nat)
    requires cfg.Validate() == "" && TimeSorted(events) && i + 1 < |events| && !Fits(cfg, GapAfter(events, i))
    ensures FarBehind(cfg, events, TWO_63 as real)
  {
    var n := |events| - 1;
    if i == n - 1 {
      NeverAhead(cfg, events[..n]);
      FarBehindGrows(cfg, events, 0.0);
    } else {
      assert GapAfter(events[..n], i) == GapAfter(events, i);
      OneMisfitIsEnough(cfg, events[..n], i);
      FarBehindGrows(cfg, events, TWO_63 as real);
    }
  }

  /**
   * The schedule is kept exactly when every delay fits a signed 64-bit number. A Go slice is never
   * longer than the bound here.
   */
  lemma ScheduleKeptIff(cfg: Config, events: seq<Event>)
    requires cfg.Validate() == "" && TimeSorted(events) && 0 < |events| <= TWO_63
    ensures ScheduleKept(cfg, events) <==> AllFit(cfg, events)
  {
    if AllFit(cfg, events) {
      ScheduleBounds(cfg, events);
    } else {
      var i :| 0 <= i < |events| - 1 && !Fits(cfg, GapAfter(events, i));
      OneMisfitIsEnough(cfg, events, i);
    }
  }

  /** The condition is real: at rate one, the largest extra latency and a gap of one nanosecond start no timer. */
  lemma WrappedSumStartsNoTimer(cfg: Config)
    requires cfg.Validate() == "" && Rate(cfg) == 1.0 && cfg.extraLatencyNs == TWO_63 - 1
    ensures DelayNs(cfg, 1) == -TWO_63 && Wait(DelayNs(cfg, 1)) == 0
  {
    ScaledByRate(cfg, 1);
    assert ScaledNs(cfg, 1) == 1.0;
  }

  /** The total wait of a playback without the extra latency per gap. */
  function NetWait(delayOf: nat -> int, extra: nat, events: seq<Event>): (net: int)
    requires |events| > 0
  {
    Waited(Delays(delayOf, events)) - (|events| - 1) * extra
  }

  /** Adding up delays that are exactly the gap plus the extra latency. */
  lemma {:induction false} SumExact(delayOf: nat -> int, extra: nat, events: seq<Event>)
    requires TimeSorted(events) && |events| > 0
    requires forall i :: 0 <= i < |events| - 1 ==> delayOf(GapAfter(events, i)) == GapAfter(events, i) + extra
    ensures Waited(Delays(delayOf, events)) == Span(events) + (|events| - 1) * extra
  {
    if |events| > 1 {
      var n := |events| - 1;
      LastGap(delayOf, events);
      forall i | 0 <= i < n - 1
        ensures delayOf(GapAfter(events[..n], i)) == GapAfter(events[..n], i) + extra
      {
        assert GapAfter(events[..n], i) == GapAfter(events, i);
      }
      SumExact(delayOf, extra, events[..n]);
      assert n * extra == (n - 1) * extra + extra;
    }
  }

  lemma DelayAtRateOne(cfg: Config, gap: nat)
    requires cfg.Validate() == "" && Rate(cfg) == 1.0
    ensures Fits(cfg, gap) <==> gap + cfg.extraLatencyNs < TWO_63
    ensures Fits(cfg, gap) ==> DelayNs(cfg, gap) == gap + cfg.extraLatencyNs
  {
    ScaledByRate(cfg, gap);
    assert ScaledNs(cfg, gap) == gap as real;
    if Fits(cfg, gap) {
      FittingDelay(cfg, gap);
    }
  }

  /**
   * At rate one the total wait is the recorded span itself, plus the extra latency per gap, exactly
   * when every gap and the extra latency together fit a signed 64-bit number.
   */
  lemma ScheduleExact(cfg: Config, events: seq<Event>)
    requires cfg.Validate() == "" && Rate(cfg) == 1.0 && TimeSorted(events) && |events| > 0
    ensures NetWait(DelayRule(cfg), cfg.extraLatencyNs, events)
            == events[|events| - 1].timestampNs - events[0].timestampNs
            <==> forall i :: 0 <= i < |events| - 1 ==> GapAfter(events, i) + cfg.extraLatencyNs < TWO_63
  {
    forall i | 0 <= i < |events| - 1
      ensures Fits(cfg, GapAfter(events, i)) <==> GapAfter(events, i) + cfg.extraLatencyNs < TWO_63
      ensures Fits(cfg, GapAfter(events, i)) ==>
                DelayRule(cfg)(GapAfter(events, i)) == GapAfter(events, i) + cfg.extraLatencyNs
    {
      DelayAtRateOne(cfg, GapAfter(events, i));
    }
    if AllFit(cfg, events) {
      SumExact(DelayRule(cfg), cfg.extraLatencyNs, events);
    } else {
      var i :| 0 <= i < |events| - 1 && !Fits(cfg, GapAfter(events, i));
      OneMisfitIsEnough(cfg, events, i);
      assert ScaleRule(cfg)(Span(events)) == Span(events) as real;
    }
  }

  /** With a positive span, a rate below one makes the playback strictly shorter than the recording. */
  lemma SlowRateFallsBehind(cfg: Config, events: seq<Event>)
    requires cfg.Validate() == "" && Rate(cfg) < 1.0 && TimeSorted(events) && |events| > 0 && Span(events) > 0
    ensures NetWait(DelayRule(cfg), cfg.extraLatencyNs, events) < Span(events)
  {
    NeverAhead(cfg, events);
    RateShrinks(cfg, Span(events));
    BehindIsLess(DelayRule(cfg), ScaleRule(cfg), cfg.extraLatencyNs, events);
  }

  lemma RateShrinks(cfg: Config, span: nat)
    requires cfg.EffectiveSpeedFactor() != 0.0 && Rate(cfg) < 1.0 && span > 0
    ensures ScaleRule(cfg)(span) < span as real
  {
    ScaledLess(Rate(cfg), span as real);
    assert ScaleRule(cfg)(span) == Rate(cfg) * span as real;
  }

  lemma ScaledLess(r: real, span: real)
    requires r < 1.0 && span > 0.0
    ensures r * span < span
  {
    assert (1.0 - r) * span > 0.0;
  }

  lemma BehindIsLess(delayOf: nat -> int, scale: nat -> real, extra: nat, events: seq<Event>)
    requires |events| > 0 && scale(Span(events)) < Span(events) as real
    requires Behind(Waited(Delays(delayOf, events)), |events| - 1, extra, scale(Span(events)), 0.0)
    ensures NetWait(delayOf, extra, events) < Span(events)
  {
    assert NetWait(delayOf, extra, events) as real < Span(events) as real;
  }

  /**
   * A rate above one makes it strictly longer, provided every delay fits and the stretch makes up
   * for the truncation of less than one nanosecond per gap.
   */
  lemma FastRateGetsAhead(cfg: Config, events: seq<Event>)
    requires cfg.Validate() == "" && Rate(cfg) > 1.0 && TimeSorted(events) && |events| > 1 && AllFit(cfg, events)
    requires ScaleRule(cfg)(Span(events)) - Span(events) as real >= (|events| - 1) as real
    ensures NetWait(DelayRule(cfg), cfg.extraLatencyNs, events) > Span(events)
  {
    ScheduleBounds(cfg, events);
    AheadIsMore(DelayRule(cfg), ScaleRule(cfg), cfg.extraLatencyNs, events);
  }

  lemma AheadIsMore(delayOf: nat -> int, scale: nat -> real, extra: nat, events: seq<Event>)
    requires |events| > 1 && InTime(delayOf, scale, extra, events)
    requires scale(Span(events)) - Span(events) as real >= (|events| - 1) as real
    ensures NetWait(delayOf, extra, events) > Span(events)
  {
    assert NetWait(delayOf, extra, events) as real > Span(events) as real;
  }

  /** Injecting failures changes neither the number of events nor the schedule. */
  lemma InjectionKeepsSchedule(cfg: Config, events: seq<Event>, injected: seq<Event>)
    requires cfg.Validate() == "" && |injected| == |events|
    requires forall i :: 0 <= i < |events| ==> SameIdentity(injected[i], events[i])
    ensures Delays(DelayRule(cfg), injected) == Delays(DelayRule(cfg), events)
  {
    forall i | 0 <= i < |events| - 1
      ensures GapNs(injected[i], injected[i + 1]) == GapNs(events[i], events[i + 1])
    {
      assert SameIdentity(injected[i], events[i]) && SameIdentity(injected[i + 1], events[i + 1]);
    }
  }
}
