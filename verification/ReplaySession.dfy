/**
 * The replay session as a transition system: control calls, the playback goroutines they start,
 * and the environment that may cancel a playback from outside. Each action is one critical
 * section, or one step of a playback between two of them.
 */
module ReplaySession {
  import opened KernelEvents
  import opened ReplayConfig

  datatype Status = Loading | Ready | Playing | Paused | Completed | Failed

  /**
   * Where a playback is: at the top of its loop, delivering the event it claimed, in its timer, or
   * about to look at its context.
   */
  datatype Pc = AtTop | Delivering(index: nat, event: Event) | InTimer | Checking | Finished

  datatype Playback = Playback(pc: Pc, cancelled: bool)

  /** One claimed event: by which playback, at which index, and whether that playback was already cancelled. */
  datatype Claim = Claim(owner: nat, index: nat, late: bool, event: Event)

  /**
   * `cancel` names the playback the stored cancel function cancels. `claims` is the log of all
   * claims; `since` and `base` are its length and the cursor at the last successful Seek or Reset.
   */
  datatype World = World(
    status: Status, events: seq<Event>, cursor: nat, cancel: Option<nat>,
    playbacks: seq<Playback>, claims: seq<Claim>, since: nat, base: nat)

  datatype Action =
    | Play(parentCancelled: bool) | Pause | Stop | Reset | Seek(index: int) | ReplaceEvents(events: seq<Event>)
    | CancelParent(p: nat)
    | Claims(p: nat) | Delivers(p: nat) | TimerFires(p: nat) | TimerCancelled(p: nat) | Checks(p: nat)

  // ---------------------------------------------------------------- control calls

  function AfterPlay(w: World, parentCancelled: bool): (w': World) {
    if w.status.Playing? || w.status.Completed? || w.status.Failed? then w
    else w.(status := Playing, cancel := Some(|w.playbacks|),
            playbacks := w.playbacks + [Playback(AtTop, parentCancelled)])
  }

  function WithCancelled(w: World, p: nat): (w': World) {
    if p < |w.playbacks| then w.(playbacks := w.playbacks[p := w.playbacks[p].(cancelled := true)]) else w
  }

  function CallCancel(w: World): (w': World) {
    if w.cancel.Some? then WithCancelled(w, w.cancel.value).(cancel := None) else w
  }

  function AfterPause(w: World): (w': World) {
    if w.status.Playing? && w.cancel.Some? then CallCancel(w).(status := Paused) else w
  }

  function AfterStop(w: World): (w': World) { CallCancel(w).(status := Ready) }

  function MoveCursor(w: World, index: nat): (w': World) {
    w.(cursor := index, since := |w.claims|, base := index)
  }

  function AfterReset(w: World): (w': World) { if w.status.Playing? then w else MoveCursor(w, 0) }

  predicate SeekAccepted(w: World, index: int) { !w.status.Playing? && 0 <= index < |w.events| }

  function AfterSeek(w: World, index: int): (w': World) {
    if SeekAccepted(w, index) then MoveCursor(w, index) else w
  }

  // ---------------------------------------------------------------- playback steps

  function At(w: World, p: nat, pc: Pc): (w': World)
    requires p < |w.playbacks|
  {
    w.(playbacks := w.playbacks[p := w.playbacks[p].(pc := pc)])
  }

  /** The critical section at the top of the loop. */
  function AfterClaim(w: World, p: nat): (w': World)
    requires p < |w.playbacks|
  {
    if w.cursor >= |w.events| then At(w, p, Finished).(status := Completed)
    else
      At(w, p, Delivering(w.cursor, w.events[w.cursor])).(
        cursor := w.cursor + 1,
        claims := w.claims + [Claim(p, w.cursor, w.playbacks[p].cancelled, w.events[w.cursor])])
  }

  /** Whether a timer runs after this event: the list it is compared with may have been replaced since the claim. */
  predicate Waits(cfg: Config, events: seq<Event>, index: nat, event: Event)
    requires cfg.Validate() == ""
  {
    index + 1 < |events| && DelayNs(cfg, GapNs(event, events[index + 1])) > 0
  }

  predicate Enabled(w: World, a: Action) {
    match a
    case CancelParent(p) => p < |w.playbacks|
    case Claims(p) => p < |w.playbacks| && w.playbacks[p].pc.AtTop?
    case Delivers(p) => p < |w.playbacks| && w.playbacks[p].pc.Delivering?
    case TimerFires(p) => p < |w.playbacks| && w.playbacks[p].pc.InTimer?
    case TimerCancelled(p) => p < |w.playbacks| && w.playbacks[p].pc.InTimer? && w.playbacks[p].cancelled
    case Checks(p) => p < |w.playbacks| && w.playbacks[p].pc.Checking?
    case _ => true
  }

  function Next(cfg: Config, w: World, a: Action): (w': World)
    requires cfg.Validate() == "" && Enabled(w, a)
  {
    match a
    case Play(parentCancelled) => AfterPlay(w, parentCancelled)
    case Pause => AfterPause(w)
    case Stop => AfterStop(w)
    case Reset => AfterReset(w)
    case Seek(index) => AfterSeek(w, index)
    case ReplaceEvents(events) => w.(events := events)
    case CancelParent(p) => WithCancelled(w, p)
    case Claims(p) => AfterClaim(w, p)
    case Delivers(p) =>
      var pc := w.playbacks[p].pc;
      At(w, p, if Waits(cfg, w.events, pc.index, pc.event) then InTimer else Checking)
    case TimerFires(p) => At(w, p, Checking)
    case TimerCancelled(p) => At(w, p, Finished)
    case Checks(p) => At(w, p, if w.playbacks[p].cancelled then Finished else AtTop)
  }

  /** A session as the manager creates it. */
  predicate Created(w: World) {
    && w.status.Ready? && w.events != [] && w.cursor == 0 && w.cancel.None?
    && w.playbacks == [] && w.claims == [] && w.since == 0 && w.base == 0
  }

  /** `states` is what `actions` lead through, from a new session. */
  ghost predicate IsRun(cfg: Config, states: seq<World>, actions: seq<Action>)
    requires cfg.Validate() == ""
  {
    && |states| == |actions| + 1 && Created(states[0])
    && forall k :: 0 <= k < |actions| ==>
         Enabled(states[k], actions[k]) && states[k + 1] == Next(cfg, states[k], actions[k])
  }

  // ---------------------------------------------------------------- one playback at a time

  predicate Live(w: World, p: nat) {
    p < |w.playbacks| && !w.playbacks[p].pc.Finished? && !w.playbacks[p].cancelled
  }

  /** The inductive core: idle states store no cancel function, and it names any live playback. */
  ghost predicate Exclusive(w: World) {
    && (w.status.Loading? || w.status.Ready? || w.status.Paused? ==> w.cancel.None?)
    && (w.cancel.Some? ==> w.cancel.value < |w.playbacks|)
    && forall p :: 0 <= p < |w.playbacks| && Live(w, p) ==> w.cancel == Some(p)
  }

  lemma ExclusiveStep(cfg: Config, w: World, a: Action)
    requires cfg.Validate() == "" && Exclusive(w) && Enabled(w, a)
    ensures Exclusive(Next(cfg, w, a))
  {
  }

  // ---------------------------------------------------------------- claims

  /** Since the last Seek or Reset the claims are consecutive indices ending just before the cursor. */
  ghost predicate Consecutive(w: World) {
    && w.since <= |w.claims| && w.base + (|w.claims| - w.since) == w.cursor
    && forall k :: w.since <= k < |w.claims| ==> w.claims[k].index == w.base + (k - w.since)
  }

  lemma ConsecutiveStep(cfg: Config, w: World, a: Action)
    requires cfg.Validate() == "" && Consecutive(w) && Enabled(w, a)
    ensures Consecutive(Next(cfg, w, a))
  {
  }

  /** A cancelled playback that claimed an event does not come back to the top of its loop. */
  ghost predicate LateOnce(w: World) {
    && (forall k :: 0 <= k < |w.claims| && w.claims[k].late ==>
          && w.claims[k].owner < |w.playbacks|
          && w.playbacks[w.claims[k].owner].cancelled && !w.playbacks[w.claims[k].owner].pc.AtTop?)
    && forall k, m :: 0 <= k < m < |w.claims| && w.claims[k].late && w.claims[m].late ==>
         w.claims[k].owner != w.claims[m].owner
  }

  lemma LateOnceStep(cfg: Config, w: World, a: Action)
    requires cfg.Validate() == "" && LateOnce(w) && Enabled(w, a)
    ensures LateOnce(Next(cfg, w, a))
  {
    var w' := Next(cfg, w, a);
    if !a.Claims? {
      assert w'.claims == w.claims;
    }
  }

  /** Apart from a replacement that ends before the cursor, every action keeps the cursor inside the events. */
  lemma BoundStep(cfg: Config, w: World, a: Action)
    requires cfg.Validate() == "" && w.cursor <= |w.events| && Enabled(w, a)
    requires a.ReplaceEvents? ==> w.cursor <= |a.events|
    ensures Next(cfg, w, a).cursor <= |Next(cfg, w, a).events|
  {
  }

  /** The status becomes complete only by a claim that finds the cursor past the last event. */
  lemma CompletedOnlyAtEnd(cfg: Config, w: World, a: Action)
    requires cfg.Validate() == "" && Enabled(w, a)
    requires !w.status.Completed? && Next(cfg, w, a).status.Completed?
    ensures a.Claims? && w.cursor >= |w.events| && Next(cfg, w, a).cursor == w.cursor
  {
  }

  /** The one late claim is real: a playback paused at the top of its loop still moves the cursor. */
  lemma PausedSessionMayStillAdvance(cfg: Config, w: World)
    requires cfg.Validate() == "" && Created(w)
    ensures var paused := Next(cfg, Next(cfg, w, Play(false)), Pause);
            && paused.status.Paused? && paused.cursor == 0 && Enabled(paused, Claims(0))
            && var late := Next(cfg, paused, Claims(0));
               late.status.Paused? && late.cursor == 1 && late.claims == [Claim(0, 0, true, w.events[0])]
  {
  }

  // ---------------------------------------------------------------- every run

  ghost predicate Safe(w: World) {
    Exclusive(w) && Consecutive(w) && LateOnce(w)
  }

  /** In every interleaving, after every action. */
  lemma {:induction false} RunSafe(cfg: Config, states: seq<World>, actions: seq<Action>, k: nat)
    requires cfg.Validate() == "" && IsRun(cfg, states, actions) && k < |states|
    ensures Safe(states[k])
  {
    if k > 0 {
      RunSafe(cfg, states, actions, k - 1);
      SafeStep(cfg, states[k - 1], actions[k - 1]);
    }
  }

  /** At most one playback is running uncancelled, in every interleaving. */
  lemma AtMostOneLive(cfg: Config, states: seq<World>, actions: seq<Action>, k: nat, p: nat, q: nat)
    requires cfg.Validate() == "" && IsRun(cfg, states, actions) && k < |states|
    requires Live(states[k], p) && Live(states[k], q)
    ensures p == q
  {
    RunSafe(cfg, states, actions, k);
  }

  // ---------------------------------------------------------------- what is delivered

  /** A claim takes the event at the cursor of the list in force, and hands it to its playback. */
  lemma ClaimTakes(cfg: Config, w: World, a: Action)
    requires cfg.Validate() == "" && Enabled(w, a) && Next(cfg, w, a).claims != w.claims
    ensures var w' := Next(cfg, w, a);
            && a.Claims? && w.cursor < |w.events| && |w'.claims| == |w.claims| + 1 && w.claims <= w'.claims
            && var c := w'.claims[|w.claims|];
               && c.owner == a.p && c.index == w.cursor && c.event == w.events[w.cursor]
               && w'.playbacks[a.p].pc == Delivering(c.index, c.event)
  {
  }

  /** In every run, every event ever delivered is the one at its index of the list in force when it was claimed. */
  lemma {:induction false} EveryClaimDelivers(cfg: Config, states: seq<World>, actions: seq<Action>, n: nat, c: nat)
    returns (k: nat)
    requires cfg.Validate() == "" && IsRun(cfg, states, actions) && n < |states| && c < |states[n].claims|
    ensures k < n && |states[k].claims| == c && states[n].claims[c].index == states[k].cursor
    ensures states[k].cursor < |states[k].events| && states[n].claims[c].event == states[k].events[states[k].cursor]
  {
    var before, last := states[n - 1], actions[n - 1];
    assert Enabled(before, last);
    if c < |before.claims| {
      k := EveryClaimDelivers(cfg, states, actions, n - 1, c);
      if states[n].claims != before.claims {
        ClaimTakes(cfg, before, last);
      }
    } else {
      ClaimTakes(cfg, before, last);
      k := n - 1;
    }
  }

  /** After an event a timer runs exactly when the event has a delay, and it is positive. */
  lemma TimerMeansDelay(cfg: Config, w: World, p: nat)
    requires cfg.Validate() == "" && Enabled(w, Delivers(p))
    requires var pc := w.playbacks[p].pc; pc.index < |w.events| && pc.event == w.events[pc.index]
    ensures var i, delays := w.playbacks[p].pc.index, Delays(DelayRule(cfg), w.events);
            Next(cfg, w, Delivers(p)).playbacks[p].pc.InTimer? <==> i < |delays| && delays[i] > 0
  {
  }

  // ---------------------------------------------------------------- control calls together

  predicate Idle(w: World) { w.status.Ready? || w.status.Paused? || w.status.Loading? }

  /** Playing from an idle session delivers the event at its cursor first. */
  lemma PlayDelivers(cfg: Config, w: World)
    requires cfg.Validate() == "" && Idle(w) && w.cursor < |w.events|
    ensures var p, w1 := |w.playbacks|, Next(cfg, w, Play(false));
            && w1.status.Playing? && Live(w1, p) && Enabled(w1, Claims(p))
            && var w2 := Next(cfg, w1, Claims(p));
               w2.cursor == w.cursor + 1 && w2.claims == w.claims + [Claim(p, w.cursor, false, w.events[w.cursor])]
  {
  }

  /** After an accepted Seek it is the event sought, after a Reset the first; a refused call changes nothing. */
  lemma SeekThenPlay(cfg: Config, w: World, index: int)
    requires cfg.Validate() == ""
    ensures !w.status.Playing? && 0 <= index < |w.events| ==>
              var w1 := Next(cfg, w, Seek(index));
              w1.cursor == index && w1.events == w.events && w1.status == w.status && w1.playbacks == w.playbacks
    ensures w.status.Playing? || index < 0 || index >= |w.events| ==> Next(cfg, w, Seek(index)) == w
    ensures !w.status.Playing? ==> Next(cfg, w, Reset).cursor == 0 && Next(cfg, w, Reset).status == w.status
    ensures w.status.Playing? ==> Next(cfg, w, Reset) == w
    ensures Idle(w) && 0 <= index < |w.events| ==>
              var p, w1 := |w.playbacks|, Next(cfg, Next(cfg, w, Seek(index)), Play(false));
              Enabled(w1, Claims(p)) && var c := Next(cfg, w1, Claims(p)).claims;
              c == w.claims + [Claim(p, index, false, w.events[index])]
    ensures Idle(w) && w.events != [] ==>
              var p, w1 := |w.playbacks|, Next(cfg, Next(cfg, w, Reset), Play(false));
              Enabled(w1, Claims(p)) && var c := Next(cfg, w1, Claims(p)).claims;
              c == w.claims + [Claim(p, 0, false, w.events[0])]
  {
  }

  ghost predicate NoneLive(w: World) { forall p :: 0 <= p < |w.playbacks| ==> !Live(w, p) }

  /** Pausing and stopping leave nothing live and keep the place; playing then goes on from there. */
  lemma PauseAndStopKeepPlace(cfg: Config, w: World)
    requires cfg.Validate() == "" && Exclusive(w)
    ensures var w1 := Next(cfg, w, Stop);
            w1.status.Ready? && NoneLive(w1) && w1.cursor == w.cursor && w1.events == w.events
    ensures w.status.Playing? && w.cancel.Some? ==>
              var w1 := Next(cfg, w, Pause);
              w1.status.Paused? && NoneLive(w1) && w1.cursor == w.cursor && w1.events == w.events
    ensures !(w.status.Playing? && w.cancel.Some?) ==> Next(cfg, w, Pause) == w
  {
    var called := CallCancel(w);
    CallCancelKillsAll(w);
    forall p | 0 <= p < |called.playbacks|
      ensures !Live(Next(cfg, w, Stop), p) && (w.status.Playing? && w.cancel.Some? ==> !Live(Next(cfg, w, Pause), p))
    {
      assert !Live(called, p);
    }
  }

  lemma CallCancelKillsAll(w: World)
    requires Exclusive(w)
    ensures NoneLive(CallCancel(w)) && CallCancel(w).cursor == w.cursor && CallCancel(w).events == w.events
  {
    forall p | 0 <= p < |CallCancel(w).playbacks|
      ensures !Live(CallCancel(w), p)
    {
      assert Live(CallCancel(w), p) ==> Live(w, p);
    }
  }

  /** A playback whose context is cancelled, before or after it starts, is not live; nor is one that may not start. */
  lemma CancelledIsNotLive(cfg: Config, w: World, p: nat)
    requires cfg.Validate() == "" && Exclusive(w)
    ensures p < |w.playbacks| ==> !Live(Next(cfg, w, CancelParent(p)), p)
    ensures Idle(w) ==> Next(cfg, w, Play(true)).status.Playing? && NoneLive(Next(cfg, w, Play(true)))
    ensures !Idle(w) ==> Next(cfg, w, Play(false)) == w
  {
    forall q | 0 <= q < |w.playbacks|
      ensures Idle(w) ==> !Live(Next(cfg, w, Play(true)), q)
    {
      assert Live(Next(cfg, w, Play(true)), q) ==> Live(w, q);
    }
  }

  // ---------------------------------------------------------------- the cursor and the events

  predicate InBounds(w: World) { w.cursor <= |w.events| }

  /** The replacement reaches the cursor; any other action does nothing to the list. */
  predicate Reaching(w: World, a: Action) { a.ReplaceEvents? ==> w.cursor <= |a.events| }

  /** An accepted Seek or Reset. */
  predicate MovesCursor(w: World, a: Action) {
    (a.Reset? && !w.status.Playing?) || (a.Seek? && SeekAccepted(w, a.index))
  }

  /** The last action that set the cursor or the list, if any, was a move or a replacement that reaches the cursor. */
  ghost predicate LastSetReaches(states: seq<World>, actions: seq<Action>, k: nat)
    requires k < |states| == |actions| + 1
  {
    if k == 0 then true
    else if actions[k - 1].ReplaceEvents? then Reaching(states[k - 1], actions[k - 1])
    else MovesCursor(states[k - 1], actions[k - 1]) || LastSetReaches(states, actions, k - 1)
  }

  /** A cursor beyond the list stays there until one of the two is set again. */
  lemma OutOfBoundsStep(cfg: Config, w: World, a: Action)
    requires cfg.Validate() == "" && Enabled(w, a) && !InBounds(w)
    ensures InBounds(Next(cfg, w, a)) <==> MovesCursor(w, a) || (a.ReplaceEvents? && Reaching(w, a))
  {
  }

  /** In every run, at every point: the cursor is inside the events exactly when the last setting left it there. */
  lemma {:induction false} BoundIff(cfg: Config, states: seq<World>, actions: seq<Action>, k: nat)
    requires cfg.Validate() == "" && IsRun(cfg, states, actions) && k < |states|
    ensures InBounds(states[k]) <==> LastSetReaches(states, actions, k)
  {
    if k > 0 {
      BoundIff(cfg, states, actions, k - 1);
      assert Enabled(states[k - 1], actions[k - 1]);
      if InBounds(states[k - 1]) && Reaching(states[k - 1], actions[k - 1]) {
        BoundStep(cfg, states[k - 1], actions[k - 1]);
      } else if !InBounds(states[k - 1]) {
        OutOfBoundsStep(cfg, states[k - 1], actions[k - 1]);
      }
    }
  }

  /** The cursor stays inside the events throughout a run exactly when every replacement reaches the cursor. */
  lemma RunBoundedIff(cfg: Config, states: seq<World>, actions: seq<Action>)
    requires cfg.Validate() == "" && IsRun(cfg, states, actions)
    ensures (forall k :: 0 <= k < |states| ==> InBounds(states[k]))
            <==> forall m :: 0 <= m < |actions| ==> Reaching(states[m], actions[m])
  {
    if forall k :: 0 <= k < |states| ==> InBounds(states[k]) {
      forall m | 0 <= m < |actions|
        ensures Reaching(states[m], actions[m])
      {
        assert InBounds(states[m + 1]);
        assert states[m + 1] == Next(cfg, states[m], actions[m]);
      }
    }
    if forall m :: 0 <= m < |actions| ==> Reaching(states[m], actions[m]) {
      forall k | 0 <= k < |states|
        ensures InBounds(states[k])
      {
        RunBounded(cfg, states, actions, k);
      }
    }
  }

  lemma {:induction false} RunBounded(cfg: Config, states: seq<World>, actions: seq<Action>, k: nat)
    requires cfg.Validate() == "" && IsRun(cfg, states, actions) && k < |states|
    requires forall m :: 0 <= m < |actions| ==> Reaching(states[m], actions[m])
    ensures InBounds(states[k])
  {
    if k > 0 {
      RunBounded(cfg, states, actions, k - 1);
      assert Reaching(states[k - 1], actions[k - 1]);
      BoundStep(cfg, states[k - 1], actions[k - 1]);
    }
  }

  /** Completion is set with the cursor at the end exactly when the last setting of cursor or list left it inside. */
  lemma CompletedAtEndIff(cfg: Config, states: seq<World>, actions: seq<Action>, k: nat)
    requires cfg.Validate() == "" && IsRun(cfg, states, actions) && k < |actions|
    requires !states[k].status.Completed? && states[k + 1].status.Completed?
    ensures states[k + 1].cursor == |states[k + 1].events| <==> LastSetReaches(states, actions, k)
  {
    assert Enabled(states[k], actions[k]);
    CompletedOnlyAtEnd(cfg, states[k], actions[k]);
    BoundIff(cfg, states, actions, k);
  }

  /** The actions of a session whose events are replaced by none after one claim. */
  const SHORT_ACTIONS := [Play(false), Claims(0), ReplaceEvents([]), Delivers(0), Checks(0), Claims(0)]

  /** The states that these actions lead through. */
  function ShortStates(w: World): (states: seq<World>)
    requires Created(w)
  {
    var first := w.events[0];
    var playing := w.(status := Playing, cancel := Some(0), playbacks := [Playback(AtTop, false)]);
    var claimed := playing.(cursor := 1, claims := [Claim(0, 0, false, first)],
                            playbacks := [Playback(Delivering(0, first), false)]);
    var emptied := claimed.(events := []);
    [w, playing, claimed, emptied,
     emptied.(playbacks := [Playback(Checking, false)]),
     emptied.(playbacks := [Playback(AtTop, false)]),
     emptied.(playbacks := [Playback(Finished, false)], status := Completed)]
  }

  /** The condition is real: such a run leaves the cursor beyond the events, and completes there. */
  lemma ShortReplacementBreaksBound(cfg: Config, w: World)
    requires cfg.Validate() == "" && Created(w)
    ensures var states := ShortStates(w);
            && IsRun(cfg, states, SHORT_ACTIONS)
            && !InBounds(states[3]) && states[5].status.Playing? && states[6].status.Completed?
            && states[6].cursor == 1 && states[6].events == []
  {
    var states := ShortStates(w);
    forall k | 0 <= k < |SHORT_ACTIONS|
      ensures Enabled(states[k], SHORT_ACTIONS[k]) && states[k + 1] == Next(cfg, states[k], SHORT_ACTIONS[k])
    {
      ShortStep(cfg, w, k);
    }
  }

  lemma ShortStep(cfg: Config, w: World, k: nat)
    requires cfg.Validate() == "" && Created(w) && k < |SHORT_ACTIONS|
    ensures Enabled(ShortStates(w)[k], SHORT_ACTIONS[k])
    ensures ShortStates(w)[k + 1] == Next(cfg, ShortStates(w)[k], SHORT_ACTIONS[k])
  {
    var s, s', a := ShortStates(w)[k], ShortStates(w)[k + 1], SHORT_ACTIONS[k];
    assert Next(cfg, s, a).playbacks == s'.playbacks && Next(cfg, s, a).claims == s'.claims;
  }

  /** Replacing by a list of the same length, as an injection makes it, always reaches the cursor. */
  lemma InjectedRunBounded(cfg: Config, states: seq<World>, actions: seq<Action>, k: nat)
    requires cfg.Validate() == "" && IsRun(cfg, states, actions) && k < |states|
    requires forall m :: 0 <= m < |actions| && actions[m].ReplaceEvents? ==> |actions[m].events| == |states[m].events|
    ensures InBounds(states[k])
    ensures k > 0 && !states[k - 1].status.Completed? && states[k].status.Completed? ==>
              states[k].cursor == |states[k].events|
  {
    SameLengthBounded(cfg, states, actions, k);
    if k > 0 {
      assert Enabled(states[k - 1], actions[k - 1]);
      SameLengthBounded(cfg, states, actions, k - 1);
    }
  }

  lemma {:induction false} SameLengthBounded(cfg: Config, states: seq<World>, actions: seq<Action>, k: nat)
    requires cfg.Validate() == "" && IsRun(cfg, states, actions) && k < |states|
    requires forall m :: 0 <= m < |actions| && actions[m].ReplaceEvents? ==> |actions[m].events| == |states[m].events|
    ensures InBounds(states[k])
  {
    if k > 0 {
      SameLengthBounded(cfg, states, actions, k - 1);
      BoundStep(cfg, states[k - 1], actions[k - 1]);
    }
  }

  // ---------------------------------------------------------------- playbacks come to an end

  /** Steps a playback can still take before it needs a new event. */
  function Weight(pb: Playback): (weight: nat) {
    match pb.pc
    case Finished => 0
    case AtTop => 1
    case Checking => 2
    case InTimer => 3
    case Delivering(_, _) => 4
  }

  function TotalWeight(playbacks: seq<Playback>): (total: nat) {
    if playbacks == [] then 0 else TotalWeight(playbacks[..|playbacks| - 1]) + Weight(playbacks[|playbacks| - 1])
  }

  /** An upper bound on the playback steps left while nobody calls a control method. */
  function StepsLeft(w: World): (steps: nat) {
    TotalWeight(w.playbacks) + if w.cursor < |w.events| then 4 * (|w.events| - w.cursor) else 0
  }

  predicate IsPlaybackStep(a: Action) {
    a.Claims? || a.Delivers? || a.TimerFires? || a.TimerCancelled? || a.Checks?
  }

  lemma {:induction false} TotalWeightUpdate(playbacks: seq<Playback>, p: nat, pb: Playback)
    requires p < |playbacks|
    ensures TotalWeight(playbacks[p := pb]) == TotalWeight(playbacks) - Weight(playbacks[p]) + Weight(pb)
  {
    var n := |playbacks| - 1;
    if p == n {
      assert playbacks[p := pb][..n] == playbacks[..n];
    } else {
      assert playbacks[p := pb][..n] == playbacks[..n][p := pb];
      TotalWeightUpdate(playbacks[..n], p, pb);
    }
  }

  /** Every step of a playback uses up some of the bound; a cancellation uses up none. */
  lemma PlaybackStepCounts(cfg: Config, w: World, a: Action)
    requires cfg.Validate() == "" && Enabled(w, a) && (IsPlaybackStep(a) || a.CancelParent?)
    ensures StepsLeft(Next(cfg, w, a)) <= StepsLeft(w) - if IsPlaybackStep(a) then 1 else 0
  {
    TotalWeightUpdate(w.playbacks, a.p, Next(cfg, w, a).playbacks[a.p]);
    assert Next(cfg, w, a).playbacks == w.playbacks[a.p := Next(cfg, w, a).playbacks[a.p]];
  }

  function PlaybackSteps(actions: seq<Action>): (count: nat) {
    if actions == [] then 0
    else PlaybackSteps(actions[..|actions| - 1]) + if IsPlaybackStep(actions[|actions| - 1]) then 1 else 0
  }

  lemma PlaybackStepsSnoc(actions: seq<Action>, k: nat, m: nat)
    requires k < m <= |actions|
    ensures PlaybackSteps(actions[k..m])
         == PlaybackSteps(actions[k..m - 1]) + if IsPlaybackStep(actions[m - 1]) then 1 else 0
  {
    assert actions[k..m][..m - 1 - k] == actions[k..m - 1];
  }

  /**
   * Once control calls stop, the playbacks of any run take at most the counted number of steps,
   * whatever the interleaving and whoever cancels them.
   */
  lemma {:induction false} PlaybacksTerminate(cfg: Config, states: seq<World>, actions: seq<Action>, k: nat, m: nat)
    requires cfg.Validate() == "" && IsRun(cfg, states, actions) && k <= m < |states|
    requires forall n :: k <= n < m ==> IsPlaybackStep(actions[n]) || actions[n].CancelParent?
    ensures PlaybackSteps(actions[k..m]) + StepsLeft(states[m]) <= StepsLeft(states[k])
    decreases m - k
  {
    if k < m {
      PlaybacksTerminate(cfg, states, actions, k, m - 1);
      assert Enabled(states[m - 1], actions[m - 1]);
      PlaybackStepCounts(cfg, states[m - 1], actions[m - 1]);
      PlaybackStepsSnoc(actions, k, m);
    }
  }

  /** A playback that has not finished can take a step, whatever the rest of the system does. */
  lemma UnfinishedCanStep(w: World, p: nat) returns (a: Action)
    requires p < |w.playbacks| && !w.playbacks[p].pc.Finished?
    ensures IsPlaybackStep(a) && a.p == p && Enabled(w, a)
  {
    match w.playbacks[p].pc
    case AtTop => a := Claims(p);
    case Delivering(_, _) => a := Delivers(p);
    case InTimer => a := TimerFires(p);
    case Checking => a := Checks(p);
  }

  /** A live playback stays live until it finds no event left. */
  lemma LiveStep(cfg: Config, w: World, a: Action, p: nat)
    requires cfg.Validate() == "" && Enabled(w, a) && IsPlaybackStep(a)
    requires Live(w, p) || PlayedOut(w)
    ensures Live(Next(cfg, w, a), p) || PlayedOut(Next(cfg, w, a))
  {
  }

  /** Complete, with the cursor at or beyond the end. */
  predicate PlayedOut(w: World) { w.status.Completed? && w.cursor >= |w.events| }

  lemma {:induction false} LivePlaysOn(cfg: Config, states: seq<World>, actions: seq<Action>, k: nat, m: nat, p: nat)
    requires cfg.Validate() == "" && IsRun(cfg, states, actions) && k <= m < |states| && Live(states[k], p)
    requires forall n :: k <= n < m ==> IsPlaybackStep(actions[n])
    ensures Live(states[m], p) || PlayedOut(states[m])
    decreases m - k
  {
    if k < m {
      LivePlaysOn(cfg, states, actions, k, m - 1, p);
      assert Enabled(states[m - 1], actions[m - 1]);
      LiveStep(cfg, states[m - 1], actions[m - 1], p);
    }
  }

  /**
   * A live playback that nobody interferes with plays to the end: when the playbacks have no step
   * left, the session is complete and every event has been delivered.
   */
  lemma PlaysToEnd(cfg: Config, states: seq<World>, actions: seq<Action>, k: nat, m: nat, p: nat)
    requires cfg.Validate() == "" && IsRun(cfg, states, actions) && k <= m < |states| && Live(states[k], p)
    requires forall n :: k <= n < m ==> IsPlaybackStep(actions[n])
    requires StepsLeft(states[m]) == 0
    ensures states[m].status.Completed? && states[m].cursor >= |states[m].events|
  {
    LivePlaysOn(cfg, states, actions, k, m, p);
    if Live(states[m], p) {
      NoStepsLeftMeansFinished(states[m].playbacks, p);
    }
  }

  /** With no step left every playback has finished. */
  lemma {:induction false} NoStepsLeftMeansFinished(playbacks: seq<Playback>, p: nat)
    requires TotalWeight(playbacks) == 0 && p < |playbacks|
    ensures playbacks[p].pc.Finished?
  {
    if p < |playbacks| - 1 {
      NoStepsLeftMeansFinished(playbacks[..|playbacks| - 1], p);
    }
  }

  // ---------------------------------------------------------------- the session object

  class Session {
    const cfg: Config
    var status: Status
    var events: seq<Event>
    var cursor: nat
    var cancelFn: Option<nat>
    var playbacks: seq<Playback>  // the goroutines started so far
    ghost var claims: seq<Claim>
    ghost var since: nat
    ghost var base: nat

    ghost function View(): World
      reads this
    {
      World(status, events, cursor, cancelFn, playbacks, claims, since, base)
    }

    ghost predicate Valid()
      reads this
    {
      cfg.Validate() == "" && Safe(View())
    }

    constructor (cfg: Config, events: seq<Event>)
      requires cfg.Validate() == "" && events != []
      ensures Valid() && Created(View()) && this.cfg == cfg && this.events == events
    {
      this.cfg := cfg;
      this.status, this.events, this.cursor, this.cancelFn := Ready, events, 0, None;
      this.playbacks, this.claims, this.since, this.base := [], [], 0, 0;
    }

    method StartPlay(parentCancelled: bool) returns (ok: bool)
      requires Valid()
      modifies this
      ensures Valid() && View() == Next(cfg, old(View()), Play(parentCancelled))
      ensures ok <==> !old(status).Completed? && !old(status).Failed?
    {
      ghost var before := View();
      if status.Playing? {
        ok := true;
      } else if status.Completed? || status.Failed? {
        ok := false;
      } else {
        cancelFn := Some(|playbacks|);
        status := Playing;
        playbacks := playbacks + [Playback(AtTop, parentCancelled)];
        ok := true;
      }
      SafeStep(cfg, before, Play(parentCancelled));
    }

    method DoPause()
      requires Valid()
      modifies this
      ensures Valid() && View() == Next(cfg, old(View()), Pause)
    {
      ghost var before := View();
      if status.Playing? && cancelFn.Some? {
        playbacks := playbacks[cancelFn.value := playbacks[cancelFn.value].(cancelled := true)];
        cancelFn := None;
        status := Paused;
      }
      SafeStep(cfg, before, Pause);
    }

    method DoStop()
      requires Valid()
      modifies this
      ensures Valid() && View() == Next(cfg, old(View()), Stop)
    {
      ghost var before := View();
      if cancelFn.Some? {
        playbacks := playbacks[cancelFn.value := playbacks[cancelFn.value].(cancelled := true)];
        cancelFn := None;
      }
      status := Ready;
      SafeStep(cfg, before, Stop);
    }

    method DoReset()
      requires Valid()
      modifies this
      ensures Valid() && View() == Next(cfg, old(View()), Reset)
    {
      ghost var before := View();
      if !status.Playing? {
        cursor := 0;
        since, base := |claims|, 0;
      }
      SafeStep(cfg, before, Reset);
    }

    method DoSeek(index: int) returns (ok: bool)
      requires Valid()
      modifies this
      ensures Valid() && View() == Next(cfg, old(View()), Seek(index))
      ensures ok <==> !old(status).Playing? && 0 <= index < |old(events)|
    {
      ghost var before := View();
      ok := !status.Playing? && 0 <= index < |events|;
      if ok {
        cursor := index;
        since, base := |claims|, index;
      }
      SafeStep(cfg, before, Seek(index));
    }

    method DoReplaceEvents(replacement: seq<Event>)
      requires Valid()
      modifies this
      ensures Valid() && View() == Next(cfg, old(View()), ReplaceEvents(replacement))
    {
      ghost var before := View();
      events := replacement;
      SafeStep(cfg, before, ReplaceEvents(replacement));
    }

    /**
     * How the session's one caller replaces events: by an injected copy of its own list. A bad
     * target leaves everything as it was; otherwise the cursor keeps its place in a list of the
     * same length, with the same schedule.
     */
    method InjectFailures() returns (ok: bool)
      requires Valid()
      modifies this
      ensures Valid() && cursor == old(cursor) && |events| == |old(events)|
      ensures ok <==> old(events) == [] || ParseFailureTarget(cfg).Ok?
      ensures if ok then View() == Next(cfg, old(View()), ReplaceEvents(events)) else View() == old(View())
      ensures Delays(DelayRule(cfg), events) == Delays(DelayRule(cfg), old(events))
    {
      var injected := Apply(cfg, events);
      ok := injected.Ok?;
      if ok {
        InjectionKeepsSchedule(cfg, events, injected.value);
        DoReplaceEvents(injected.value);
      }
    }

    /** The locked part of the playback loop: `index` is the claimed event, if any is left. */
    method ClaimNext(p: nat) returns (index: Option<nat>)
      requires Valid() && p < |playbacks| && playbacks[p].pc.AtTop?
      modifies this
      ensures Valid() && View() == Next(cfg, old(View()), Claims(p))
      ensures index == if old(cursor) < |old(events)| then Some(old(cursor)) else None
      ensures index.Some? ==> playbacks[p].pc == Delivering(index.value, old(events)[index.value])
    {
      ghost var before := View();
      if cursor >= |events| {
        status := Completed;
        playbacks := playbacks[p := playbacks[p].(pc := Finished)];
        index := None;
      } else {
        index := Some(cursor);
        claims := claims + [Claim(p, cursor, playbacks[p].cancelled, events[cursor])];
        playbacks := playbacks[p := playbacks[p].(pc := Delivering(cursor, events[cursor]))];
        cursor := cursor + 1;
      }
      SafeStep(cfg, before, Claims(p));
    }
  }

  lemma SafeStep(cfg: Config, w: World, a: Action)
    requires cfg.Validate() == "" && Safe(w) && Enabled(w, a)
    ensures Safe(Next(cfg, w, a))
  {
    ExclusiveStep(cfg, w, a);
    ConsecutiveStep(cfg, w, a);
    LateOnceStep(cfg, w, a);
  }
}
