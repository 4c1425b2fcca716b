/** Over every run, the sharded enricher against one that keeps a single set of tables. */
module EnricherSharding {
  import opened KernelEvents
  import opened Enricher

  datatype Input = SpanArrives(span: Span) | EventArrives(event: Event, now: Time)

  /** A keyed block event is looked up in the shard of its block key; only there can it find its spans. */
  predicate Visible(ev: Event) { ShardOf(ev) == PidShard(ev.pid) }

  /** On the fields: an event without a block key always, another when its bits agree with those of its process. */
  lemma VisibleMeaning(ev: Event)
    ensures Visible(ev) <==>
            IsKeyedBlock(ev) ==>
              forall k :: 0 <= k < 5 ==>
                BitsAgree(ev.pid, ev.payload.blockSector.value, ev.payload.blockBytes.value, k)
  {
    if IsKeyedBlock(ev) {
      ShardBits(ev.pid, MakeBlockKey(ev).value);
    }
  }

  /** One set of tables, with trace lookup switched off for events that are not visible. */
  function ProcessVisible(t: Tables, ev: Event, now: Time): (r: (Tables, seq<Event>)) {
    Pair(t, if Visible(ev) then EnrichTrace(t, ev) else ev, now)
  }

  // ---------------------------------------------------------------- shards as one set of tables

  ghost predicate MergedSyscalls(shards: seq<Tables>, t: Tables)
    requires |shards| == NUM_SHARDS
  {
    forall key: PairKey ::
      && (key in t.syscalls <==> key in shards[PidShard(key.pid)].syscalls)
      && (key in t.syscalls ==> t.syscalls[key] == shards[PidShard(key.pid)].syscalls[key])
  }

  ghost predicate MergedBlocks(shards: seq<Tables>, t: Tables)
    requires |shards| == NUM_SHARDS
  {
    forall key: BlockKey ::
      && (key in t.blocks <==> key in shards[BlockShard(key)].blocks)
      && (key in t.blocks ==> t.blocks[key] == shards[BlockShard(key)].blocks[key])
  }

  /** Spans of a process are in its own shard and in no other. */
  ghost predicate MergedSpans(shards: seq<Tables>, t: Tables)
    requires |shards| == NUM_SHARDS
  {
    forall pid: uint32, i :: 0 <= i < NUM_SHARDS ==>
      SpansOf(shards[i], pid) == if i == PidShard(pid) then SpansOf(t, pid) else []
  }

  ghost predicate Merged(shards: seq<Tables>, t: Tables) {
    |shards| == NUM_SHARDS && MergedSyscalls(shards, t) && MergedBlocks(shards, t) && MergedSpans(shards, t)
  }

  /** What the shard shows an event: everything when it is visible, otherwise nothing. */
  lemma ShardTrace(shards: seq<Tables>, t: Tables, ev: Event)
    requires Merged(shards, t)
    ensures EnrichTrace(shards[ShardOf(ev)], ev) == if Visible(ev) then EnrichTrace(t, ev) else ev
  {
    assert SpansOf(shards[ShardOf(ev)], ev.pid) == if Visible(ev) then SpansOf(t, ev.pid) else [];
  }

  lemma FrameSyscalls(shards: seq<Tables>, t: Tables, s: nat, x: Tables, t': Tables)
    requires |shards| == NUM_SHARDS && s < NUM_SHARDS && MergedSyscalls(shards, t)
    requires x.syscalls == shards[s].syscalls && t'.syscalls == t.syscalls
    ensures MergedSyscalls(shards[s := x], t')
  {
  }

  lemma FrameBlocks(shards: seq<Tables>, t: Tables, s: nat, x: Tables, t': Tables)
    requires |shards| == NUM_SHARDS && s < NUM_SHARDS && MergedBlocks(shards, t)
    requires x.blocks == shards[s].blocks && t'.blocks == t.blocks
    ensures MergedBlocks(shards[s := x], t')
  {
  }

  lemma FrameSpans(shards: seq<Tables>, t: Tables, s: nat, x: Tables, t': Tables)
    requires |shards| == NUM_SHARDS && s < NUM_SHARDS && MergedSpans(shards, t)
    requires x.spans == shards[s].spans && t'.spans == t.spans
    ensures MergedSpans(shards[s := x], t')
  {
    var shards' := shards[s := x];
    forall pid: uint32, i | 0 <= i < NUM_SHARDS
      ensures SpansOf(shards'[i], pid) == if i == PidShard(pid) then SpansOf(t', pid) else []
    {
      assert SpansOf(shards'[i], pid) == SpansOf(shards[i], pid);
    }
  }

  lemma MergedAdd(shards: seq<Tables>, t: Tables, span: Span)
    requires Merged(shards, t)
    ensures Merged(ShardedAdd(shards, span), AddSpan(t, span))
  {
    var s := PidShard(span.pid);
    FrameSyscalls(shards, t, s, AddSpan(shards[s], span), AddSpan(t, span));
    FrameBlocks(shards, t, s, AddSpan(shards[s], span), AddSpan(t, span));
    AddSpans(shards, t, span);
  }

  lemma AddSpans(shards: seq<Tables>, t: Tables, span: Span)
    requires |shards| == NUM_SHARDS && MergedSpans(shards, t)
    ensures MergedSpans(ShardedAdd(shards, span), AddSpan(t, span))
  {
    assert SpansOf(shards[PidShard(span.pid)], span.pid) == SpansOf(t, span.pid);
  }

  lemma MergedSyscallPair(shards: seq<Tables>, t: Tables, ev: Event, now: Time)
    requires |shards| == NUM_SHARDS && MergedSyscalls(shards, t) && IsSyscall(ev)
    ensures PairSyscall(shards[ShardOf(ev)], ev, now).1 == PairSyscall(t, ev, now).1
    ensures var shard' := PairSyscall(shards[ShardOf(ev)], ev, now).0;
            MergedSyscalls(shards[ShardOf(ev) := shard'], PairSyscall(t, ev, now).0)
  {
  }

  lemma MergedBlockPair(shards: seq<Tables>, t: Tables, ev: Event, now: Time)
    requires |shards| == NUM_SHARDS && MergedBlocks(shards, t) && IsKeyedBlock(ev)
    ensures Pair(shards[ShardOf(ev)], ev, now).1 == Pair(t, ev, now).1
    ensures MergedBlocks(shards[ShardOf(ev) := Pair(shards[ShardOf(ev)], ev, now).0], Pair(t, ev, now).0)
  {
    var key, s := MakeBlockKey(ev).value, ShardOf(ev);
    var x, t' := Pair(shards[s], ev, now).0, Pair(t, ev, now).0;
    assert key in t.blocks <==> key in shards[s].blocks;
    BlockOnlyChanges(shards[s], key, ev, now);
    BlockOnlyChanges(t, key, ev, now);
    MergedOneBlock(shards, t, s, key, x, t');
  }

  /** Pairing a block event changes the entry of its own key only, and that in one way. */
  lemma BlockOnlyChanges(t: Tables, key: BlockKey, ev: Event, now: Time)
    ensures var t' := PairBlock(t, key, ev, now).0;
            && t'.blocks - {key} == t.blocks - {key}
            && (key in t'.blocks <==> if ev.payload.blockPhase.Issue? then true
                                      else if ev.payload.blockPhase.Complete? then false else key in t.blocks)
            && (key in t'.blocks ==>
                  t'.blocks[key] == if ev.payload.blockPhase.Issue? then Inflight(ev, now) else t.blocks[key])
  {
  }

  lemma MergedOneBlock(shards: seq<Tables>, t: Tables, s: nat, key: BlockKey, x: Tables, t': Tables)
    requires |shards| == NUM_SHARDS && s == BlockShard(key) && MergedBlocks(shards, t)
    requires x.blocks - {key} == shards[s].blocks - {key} && t'.blocks - {key} == t.blocks - {key}
    requires key in x.blocks <==> key in t'.blocks
    requires key in t'.blocks ==> t'.blocks[key] == x.blocks[key]
    ensures MergedBlocks(shards[s := x], t')
  {
    forall other: BlockKey
      ensures other in t'.blocks <==> other in shards[s := x][BlockShard(other)].blocks
      ensures other in t'.blocks ==> t'.blocks[other] == shards[s := x][BlockShard(other)].blocks[other]
    {
      if other != key {
        assert other in t'.blocks <==> other in t'.blocks - {key};
        assert other in t.blocks <==> other in t.blocks - {key};
        assert other in x.blocks <==> other in x.blocks - {key};
        assert other in shards[s].blocks <==> other in shards[s].blocks - {key};
        if other in t'.blocks {
          assert t'.blocks[other] == (t'.blocks - {key})[other] == (t.blocks - {key})[other] == t.blocks[other];
          assert BlockShard(other) == s ==>
                   x.blocks[other] == (x.blocks - {key})[other] == (shards[s].blocks - {key})[other];
        }
      }
    }
  }

  lemma MergedPair(shards: seq<Tables>, t: Tables, s: nat, ev: Event, now: Time)
    requires Merged(shards, t) && s == ShardOf(ev)
    ensures Pair(shards[s], ev, now).1 == Pair(t, ev, now).1
    ensures Merged(shards[s := Pair(shards[s], ev, now).0], Pair(t, ev, now).0)
  {
    var x, t' := Pair(shards[s], ev, now).0, Pair(t, ev, now).0;
    FrameSpans(shards, t, s, x, t');
    if IsSyscall(ev) {
      MergedSyscallPair(shards, t, ev, now);
      FrameBlocks(shards, t, s, x, t');
    } else {
      FrameSyscalls(shards, t, s, x, t');
      if IsKeyedBlock(ev) {
        MergedBlockPair(shards, t, ev, now);
      } else {
        FrameBlocks(shards, t, s, x, t');
      }
    }
  }

  lemma MergedProcess(shards: seq<Tables>, t: Tables, ev: Event, now: Time)
    requires Merged(shards, t)
    ensures ShardedProcess(shards, ev, now).1 == ProcessVisible(t, ev, now).1
    ensures Merged(ShardedProcess(shards, ev, now).0, ProcessVisible(t, ev, now).0)
  {
    ShardTrace(shards, t, ev);
    TraceKeepsIdentity(SpansOf(t, ev.pid), ev);
    var enriched := if Visible(ev) then EnrichTrace(t, ev) else ev;
    MergedPair(shards, t, ShardOf(ev), enriched, now);
  }

  // ---------------------------------------------------------------- runs

  function RunSharded(inputs: seq<Input>): (r: (seq<Tables>, seq<seq<Event>>))
    ensures |r.0| == NUM_SHARDS && |r.1| == |inputs|
  {
    if inputs == [] then (seq(NUM_SHARDS, _ => EMPTY), [])
    else
      var (shards, outs) := RunSharded(inputs[..|inputs| - 1]);
      match inputs[|inputs| - 1]
      case SpanArrives(span) => (ShardedAdd(shards, span), outs + [[]])
      case EventArrives(ev, now) =>
        var (shards', out) := ShardedProcess(shards, ev, now);
        (shards', outs + [out])
  }

  /** A run over one set of tables; `all` looks up every event, otherwise only visible ones. */
  function RunOne(inputs: seq<Input>, all: bool): (r: (Tables, seq<seq<Event>>))
    ensures |r.1| == |inputs|
  {
    if inputs == [] then (EMPTY, [])
    else
      var (t, outs) := RunOne(inputs[..|inputs| - 1], all);
      match inputs[|inputs| - 1]
      case SpanArrives(span) => (AddSpan(t, span), outs + [[]])
      case EventArrives(ev, now) =>
        var (t', out) := if all then ProcessWhole(t, ev, now) else ProcessVisible(t, ev, now);
        (t', outs + [out])
  }

  /** Sharding changes nothing but which events see spans: the outputs of every run are the same. */
  lemma {:induction false} ShardedRunEqualsVisibleRun(inputs: seq<Input>)
    ensures RunSharded(inputs).1 == RunOne(inputs, false).1
    ensures Merged(RunSharded(inputs).0, RunOne(inputs, false).0)
  {
    if inputs != [] {
      var n := |inputs| - 1;
      ShardedRunEqualsVisibleRun(inputs[..n]);
      var shards, t := RunSharded(inputs[..n]).0, RunOne(inputs[..n], false).0;
      match inputs[n]
      case SpanArrives(span) => MergedAdd(shards, t, span);
      case EventArrives(ev, now) => MergedProcess(shards, t, ev, now);
    }
  }

  // ---------------------------------------------------------------- against the plain unsharded enricher

  ghost predicate SimilarInflight(a: Inflight, b: Inflight) {
    SameButTrace(a.event, b.event) && a.arrivedAt == b.arrivedAt && (Visible(a.event) ==> a == b)
  }

  /** Equal but for the trace fields of invisible block events in flight. */
  ghost predicate Similar(t: Tables, u: Tables) {
    && t.syscalls == u.syscalls && t.spans == u.spans && t.blocks.Keys == u.blocks.Keys
    && forall key :: key in t.blocks ==> SimilarInflight(t.blocks[key], u.blocks[key])
  }

  /** Equal but for the trace fields of invisible events. */
  ghost predicate SimilarOut(a: seq<Event>, b: seq<Event>) {
    |a| == |b| && forall k :: 0 <= k < |a| ==> SameButTrace(a[k], b[k]) && (Visible(a[k]) ==> a[k] == b[k])
  }

  lemma PairSimilar(t: Tables, u: Tables, a: Event, b: Event, now: Time)
    requires Similar(t, u) && SameButTrace(a, b)
    requires Visible(a) ==> a == b
    ensures Similar(Pair(t, a, now).0, Pair(u, b, now).0)
    ensures SimilarOut(Pair(t, a, now).1, Pair(u, b, now).1)
  {
    if IsKeyedBlock(a) {
      assert IsKeyedBlock(b) && MakeBlockKey(b) == MakeBlockKey(a) && !IsSyscall(a);
      PairBlockSimilar(t, u, MakeBlockKey(a).value, a, b, now);
    }
  }

  lemma PairBlockSimilar(t: Tables, u: Tables, key: BlockKey, a: Event, b: Event, now: Time)
    requires Similar(t, u) && SameButTrace(a, b) && (Visible(a) ==> a == b)
    ensures Similar(PairBlock(t, key, a, now).0, PairBlock(u, key, b, now).0)
    ensures SimilarOut(PairBlock(t, key, a, now).1, PairBlock(u, key, b, now).1)
  {
    if a.payload.blockPhase.Complete? && key in t.blocks {
      JoinedSimilar(t.blocks[key].event, u.blocks[key].event, a, b);
    }
  }

  /** A pair has the trace fields, the process and the block key of its earlier half. */
  lemma JoinedSimilar(held: Event, held': Event, ev: Event, ev': Event)
    requires SameButTrace(held, held') && (Visible(held) ==> held == held')
    requires SameButTrace(ev, ev') && (Visible(ev) ==> ev == ev')
    ensures SimilarOut([CompletePair(held, ev)], [CompletePair(held', ev')])
  {
  }

  lemma {:induction false} SimilarRuns(inputs: seq<Input>)
    ensures Similar(RunOne(inputs, false).0, RunOne(inputs, true).0)
    ensures forall k :: 0 <= k < |inputs| ==> SimilarOut(RunOne(inputs, false).1[k], RunOne(inputs, true).1[k])
  {
    if inputs != [] {
      var n := |inputs| - 1;
      SimilarRuns(inputs[..n]);
      var t, u := RunOne(inputs[..n], false).0, RunOne(inputs[..n], true).0;
      if inputs[n].EventArrives? {
        var ev := inputs[n].event;
        TraceKeepsIdentity(SpansOf(u, ev.pid), ev);
        PairSimilar(t, u, if Visible(ev) then EnrichTrace(t, ev) else ev, EnrichTrace(u, ev), inputs[n].now);
      }
    }
  }

  /**
   * Against the unsharded enricher, over every run, mixed or not: the outputs are the same up to
   * trace fields, and every visible event that is emitted is the same outright. Events other than
   * keyed block events are always visible.
   */
  lemma ShardedRunAgrees(inputs: seq<Input>, k: nat)
    requires k < |inputs|
    ensures SimilarOut(RunSharded(inputs).1[k], RunOne(inputs, true).1[k])
    ensures inputs[k].EventArrives? && !IsKeyedBlock(inputs[k].event) ==>
              RunSharded(inputs).1[k] == RunOne(inputs, true).1[k]
  {
    ShardedRunEqualsVisibleRun(inputs);
    SimilarRuns(inputs);
    if inputs[k].EventArrives? && !IsKeyedBlock(inputs[k].event) {
      UnkeyedEmitsVisible(inputs, k);
    }
  }

  /** What an event without a block key emits is visible. */
  lemma {:induction false} UnkeyedEmitsVisible(inputs: seq<Input>, k: nat)
    requires k < |inputs| && inputs[k].EventArrives? && !IsKeyedBlock(inputs[k].event)
    ensures RunOne(inputs, false).1[k] == RunOne(inputs, true).1[k]
  {
    var n := |inputs| - 1;
    if k < n {
      UnkeyedEmitsVisible(inputs[..n], k);
    } else {
      SimilarRuns(inputs[..n]);
      var t, u := RunOne(inputs[..n], false).0, RunOne(inputs[..n], true).0;
      TraceKeepsIdentity(SpansOf(u, inputs[n].event.pid), inputs[n].event);
      assert EnrichTrace(t, inputs[n].event) == EnrichTrace(u, inputs[n].event);
    }
  }

  /**
   * After any run, looking an event up in its shard agrees with looking it up in the unsharded
   * enricher exactly when it is visible or no span changes it; an invisible one is left as it is.
   */
  lemma ShardTraceAgreesIff(inputs: seq<Input>, ev: Event)
    ensures var sharded := EnrichTrace(RunSharded(inputs).0[ShardOf(ev)], ev);
            var whole := EnrichTrace(RunOne(inputs, true).0, ev);
            (sharded == whole <==> Visible(ev) || whole == ev) && (!Visible(ev) ==> sharded == ev)
  {
    ShardedRunEqualsVisibleRun(inputs);
    SimilarRuns(inputs);
    ShardTrace(RunSharded(inputs).0, RunOne(inputs, false).0, ev);
    assert SpansOf(RunOne(inputs, false).0, ev.pid) == SpansOf(RunOne(inputs, true).0, ev.pid);
  }

  // ---------------------------------------------------------------- invisible events keep their fields

  ghost predicate WasGiven(inputs: seq<Input>, ev: Event) {
    exists j :: 0 <= j < |inputs| && inputs[j].EventArrives? && inputs[j].event == ev
  }

  /** The event, but for the duration and the result of a pair, is one that was given. */
  ghost predicate WasGivenUnpaired(inputs: seq<Input>, ev: Event) {
    exists duration: uint64, result: int64 :: WasGiven(inputs, ev.(durationNs := duration, returnValue := result))
  }

  ghost predicate InvisibleAsGiven(inputs: seq<Input>, t: Tables) {
    && (forall key :: key in t.blocks && !Visible(t.blocks[key].event) ==> WasGiven(inputs, t.blocks[key].event))
    && forall key :: key in t.syscalls ==> IsSyscall(t.syscalls[key].event)
  }

  lemma WasGivenStill(inputs: seq<Input>, n: nat, ev: Event)
    requires n <= |inputs| && WasGiven(inputs[..n], ev)
    ensures WasGiven(inputs, ev)
  {
    var j :| 0 <= j < n && inputs[..n][j].EventArrives? && inputs[..n][j].event == ev;
    assert inputs[j].event == ev;
  }

  lemma PairAsGiven(inputs: seq<Input>, t: Tables, ev: Event, now: Time)
    requires InvisibleAsGiven(inputs, t) && (!Visible(ev) ==> WasGiven(inputs, ev))
    ensures InvisibleAsGiven(inputs, Pair(t, ev, now).0)
    ensures forall o :: o in Pair(t, ev, now).1 && !Visible(o) ==> WasGivenUnpaired(inputs, o)
  {
    forall o | o in Pair(t, ev, now).1 && !Visible(o)
      ensures WasGivenUnpaired(inputs, o)
    {
      if o == ev {
        assert o.(durationNs := o.durationNs, returnValue := o.returnValue) == o;
      } else {
        assert IsKeyedBlock(ev);
        var held := t.blocks[MakeBlockKey(ev).value].event;
        var early := if ev.timestampNs > held.timestampNs then held else ev;
        assert o.(durationNs := early.durationNs, returnValue := early.returnValue) == early;
      }
    }
  }

  lemma {:induction false} RunKeepsInvisible(inputs: seq<Input>)
    ensures InvisibleAsGiven(inputs, RunOne(inputs, false).0)
    ensures forall k, o :: 0 <= k < |inputs| && o in RunOne(inputs, false).1[k] && !Visible(o) ==>
              WasGivenUnpaired(inputs, o)
  {
    if inputs != [] {
      var n := |inputs| - 1;
      RunKeepsInvisible(inputs[..n]);
      var t, outs := RunOne(inputs[..n], false).0, RunOne(inputs[..n], false).1;
      forall key | key in t.blocks && !Visible(t.blocks[key].event)
        ensures WasGiven(inputs, t.blocks[key].event)
      {
        WasGivenStill(inputs, n, t.blocks[key].event);
      }
      forall k, o | 0 <= k < n && o in outs[k] && !Visible(o)
        ensures WasGivenUnpaired(inputs, o)
      {
        var duration: uint64, result: int64 :| WasGiven(inputs[..n], o.(durationNs := duration, returnValue := result));
        WasGivenStill(inputs, n, o.(durationNs := duration, returnValue := result));
      }
      if inputs[n].EventArrives? {
        var ev := inputs[n].event;
        assert WasGiven(inputs, ev);
        TraceKeepsIdentity(SpansOf(t, ev.pid), ev);
        PairAsGiven(inputs, t, if Visible(ev) then EnrichTrace(t, ev) else ev, inputs[n].now);
      }
    }
  }

  /** Over every run, an invisible event that is emitted has the trace fields it was given with. */
  lemma InvisibleKeepsOwnTrace(inputs: seq<Input>, k: nat, o: Event)
    requires k < |inputs| && o in RunSharded(inputs).1[k] && !Visible(o)
    ensures WasGivenUnpaired(inputs, o)
  {
    ShardedRunEqualsVisibleRun(inputs);
    RunKeepsInvisible(inputs);
  }

  /** At each of these events the shard shows what matters: it is visible, or no span changes it. */
  ghost predicate NothingMissed(inputs: seq<Input>) {
    forall k :: 0 <= k < |inputs| && inputs[k].EventArrives? ==>
      Visible(inputs[k].event) || EnrichTrace(RunOne(inputs[..k], true).0, inputs[k].event) == inputs[k].event
  }

  /** If no event misses a span, the outputs are equal outright. */
  lemma {:induction false} VisibleRunsAgree(inputs: seq<Input>)
    requires NothingMissed(inputs)
    ensures RunSharded(inputs).1 == RunOne(inputs, true).1
  {
    ShardedRunEqualsVisibleRun(inputs);
    SameRules(inputs);
  }

  lemma {:induction false} SameRules(inputs: seq<Input>)
    requires NothingMissed(inputs)
    ensures RunOne(inputs, false) == RunOne(inputs, true)
  {
    if inputs != [] {
      var n := |inputs| - 1;
      assert forall k :: 0 <= k < n ==> inputs[..n][..k] == inputs[..k];
      SameRules(inputs[..n]);
    }
  }

  /** The loss is real: an invisible block event misses even the only span there is. */
  lemma InvisibleEventMissesItsSpan(span: Span, ev: Event, now: Time)
    requires span.pid == ev.pid && Covers(span, ev) && !Visible(ev) && ev.payload.blockPhase.Complete?
    requires WithTrace(ev, span) != ev
    ensures var inputs := [SpanArrives(span), EventArrives(ev, now)];
            && RunOne(inputs, true).1[1] == [WithTrace(ev, span)]
            && RunSharded(inputs).1[1] == [ev]
  {
    ShardedRunEqualsVisibleRun([SpanArrives(span), EventArrives(ev, now)]);
    SpanThenEvent(span, ev, now, true);
    SpanThenEvent(span, ev, now, false);
    var u := AddSpan(EMPTY, span);
    assert SpansOf(u, ev.pid) == [span];
    assert EnrichTrace(u, ev) == WithTrace(ev, span);
  }

  lemma SpanThenEvent(span: Span, ev: Event, now: Time, all: bool)
    ensures var inputs, t := [SpanArrives(span), EventArrives(ev, now)], AddSpan(EMPTY, span);
            RunOne(inputs, all).1[1] == (if all then ProcessWhole(t, ev, now) else ProcessVisible(t, ev, now)).1
  {
    var inputs := [SpanArrives(span), EventArrives(ev, now)];
    assert inputs[..1] == [SpanArrives(span)];
    assert inputs[..1][..0] == [];
    assert RunOne(inputs[..1], all).0 == AddSpan(EMPTY, span);
  }
}
