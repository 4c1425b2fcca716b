/**
 * The ClickHouse batcher as a step system: any number of inserters, one flusher, a signal channel
 * of capacity one, a ticker, and Close. Each action is one critical section or channel operation.
 */
module BatchStore {
  import opened KernelEvents
  import opened Sequences

  const FLUSH_SIZE := 5000
  const MAX_RETRIES := 3

  /** `final` marks the flush that Close asked for. */
  datatype FlusherPc =
    | Selecting
    | BeforeSwap(final: bool)
    | Writing(batch: seq<Event>, attempts: nat, final: bool)
    | Exited

  /** How a batch ended: written, or dropped after the last attempt. */
  datatype Outcome = Outcome(written: bool, attempts: nat)

  /**
   * `signalling` is the number of inserters between unlocking a full buffer and the send.
   * `inserted`, `batches` and `outcomes` are the history; `closedAt` is how much had been
   * inserted when Close was called.
   */
  datatype Store = Store(
    buf: seq<Event>, signal: bool, closed: bool, flusher: FlusherPc, signalling: nat,
    inserted: seq<Event>, batches: seq<seq<Event>>, outcomes: seq<Outcome>, closedAt: nat)

  datatype Action =
    | Insert(event: Event) | SendSignal | Close
    | TakeTick | TakeSignal | TakeClose | Swap | WriteSucceeds | WriteFails

  const INITIAL := Store([], false, false, Selecting, 0, [], [], [], 0)

  predicate Enabled(s: Store, a: Action) {
    match a
    case Insert(_) => true
    case SendSignal => s.signalling > 0
    case Close => !s.closed
    case TakeTick => s.flusher.Selecting?
    case TakeSignal => s.flusher.Selecting? && s.signal
    case TakeClose => s.flusher.Selecting? && s.closed
    case Swap => s.flusher.BeforeSwap?
    case WriteSucceeds => s.flusher.Writing?
    case WriteFails => s.flusher.Writing?
  }

  function Append(s: Store, event: Event): (s': Store) {
    var buf := s.buf + [event];
    s.(buf := buf, inserted := s.inserted + [event],
       signalling := if |buf| >= FLUSH_SIZE then s.signalling + 1 else s.signalling)
  }

  function AfterFlush(final: bool): (pc: FlusherPc) { if final then Exited else Selecting }

  function SwapBuffer(s: Store): (s': Store)
    requires s.flusher.BeforeSwap?
  {
    if s.buf == [] then s.(flusher := AfterFlush(s.flusher.final))
    else s.(buf := [], batches := s.batches + [s.buf], flusher := Writing(s.buf, 0, s.flusher.final))
  }

  /** A failed attempt is retried until the third, which drops the batch. */
  function FailWrite(s: Store): (s': Store)
    requires s.flusher.Writing?
  {
    if s.flusher.attempts + 1 >= MAX_RETRIES then
      s.(outcomes := s.outcomes + [Outcome(false, s.flusher.attempts + 1)], flusher := AfterFlush(s.flusher.final))
    else s.(flusher := s.flusher.(attempts := s.flusher.attempts + 1))
  }

  function Next(s: Store, a: Action): (s': Store)
    requires Enabled(s, a)
  {
    match a
    case Insert(event) => Append(s, event)
    case SendSignal => s.(signal := true, signalling := s.signalling - 1)
    case Close => s.(closed := true, closedAt := |s.inserted|)
    case TakeTick => s.(flusher := BeforeSwap(false))
    case TakeSignal => s.(signal := false, flusher := BeforeSwap(false))
    case TakeClose => s.(flusher := BeforeSwap(true))
    case Swap => SwapBuffer(s)
    case WriteSucceeds =>
      s.(outcomes := s.outcomes + [Outcome(true, s.flusher.attempts + 1)], flusher := AfterFlush(s.flusher.final))
    case WriteFails => FailWrite(s)
  }

  ghost predicate IsRun(states: seq<Store>, actions: seq<Action>) {
    && |states| == |actions| + 1 && states[0] == INITIAL
    && forall k :: 0 <= k < |actions| ==> Enabled(states[k], actions[k]) && states[k + 1] == Next(states[k], actions[k])
  }

  // ---------------------------------------------------------------- what every step keeps

  /** Nothing is lost, repeated or reordered between insertion and the batches. */
  ghost predicate NothingLost(s: Store) {
    Concat(s.batches) + s.buf == s.inserted
  }

  /** A full buffer always has a wake-up on its way. */
  ghost predicate WakeupPending(s: Store) {
    |s.buf| >= FLUSH_SIZE ==> s.signal || s.flusher.BeforeSwap? || s.signalling > 0
  }

  /**
   * Every batch is settled, in order, except the one being written; a batch took one to three
   * attempts, all three if dropped.
   */
  ghost predicate Settled(s: Store) {
    && |s.outcomes| == (if s.flusher.Writing? then |s.batches| - 1 else |s.batches|)
    && (s.flusher.Writing? ==>
          s.flusher.attempts < MAX_RETRIES && s.batches[|s.batches| - 1] == s.flusher.batch)
    && (forall k :: 0 <= k < |s.batches| ==> s.batches[k] != [])
    && forall k :: 0 <= k < |s.outcomes| ==>
         && 1 <= s.outcomes[k].attempts <= MAX_RETRIES
         && (!s.outcomes[k].written ==> s.outcomes[k].attempts == MAX_RETRIES)
  }

  predicate PastFinalSwap(s: Store) {
    s.flusher.Exited? || (s.flusher.Writing? && s.flusher.final)
  }

  /** After the final swap, every event inserted before Close is in a batch. */
  ghost predicate CloseDrains(s: Store) {
    && (s.flusher.BeforeSwap? && s.flusher.final ==> s.closed)
    && (s.closed ==> s.closedAt <= |s.inserted|)
    && (PastFinalSwap(s) ==> s.closed && s.closedAt <= |Concat(s.batches)|)
  }

  ghost predicate Safe(s: Store) {
    NothingLost(s) && WakeupPending(s) && Settled(s) && CloseDrains(s)
  }

  lemma NothingLostStep(s: Store, a: Action)
    requires NothingLost(s) && Enabled(s, a)
    ensures NothingLost(Next(s, a))
  {
    if a.Swap? && s.buf != [] {
      assert (s.batches + [s.buf])[..|s.batches|] == s.batches;
    }
    if a.Insert? {
      assert Concat(s.batches) + (s.buf + [a.event]) == (Concat(s.batches) + s.buf) + [a.event];
    }
  }

  lemma SettledStep(s: Store, a: Action)
    requires Settled(s) && Enabled(s, a)
    ensures Settled(Next(s, a))
  {
  }

  lemma CloseDrainsStep(s: Store, a: Action)
    requires NothingLost(s) && CloseDrains(s) && Enabled(s, a)
    ensures CloseDrains(Next(s, a))
  {
    NothingLostStep(s, a);
  }

  lemma SafeStep(s: Store, a: Action)
    requires Safe(s) && Enabled(s, a)
    ensures Safe(Next(s, a))
  {
    NothingLostStep(s, a);
    SettledStep(s, a);
    CloseDrainsStep(s, a);
  }

  lemma {:induction false} RunSafe(states: seq<Store>, actions: seq<Action>, k: nat)
    requires IsRun(states, actions) && k < |states|
    ensures Safe(states[k])
  {
    if k > 0 {
      RunSafe(states, actions, k - 1);
      SafeStep(states[k - 1], actions[k - 1]);
    }
  }

  /** When the flusher has exited, the settled batches begin with everything inserted before Close, in order. */
  lemma ExitDeliversAll(states: seq<Store>, actions: seq<Action>, k: nat)
    requires IsRun(states, actions) && k < |states| && states[k].flusher.Exited?
    ensures var s := states[k];
            && |s.outcomes| == |s.batches| && s.closedAt <= |s.inserted|
            && s.inserted[..s.closedAt] <= Concat(s.batches)
  {
    RunSafe(states, actions, k);
    var s := states[k];
    assert s.inserted[..|Concat(s.batches)|] == Concat(s.batches);
  }

  // ---------------------------------------------------------------- one flush

  predicate IsTake(a: Action) { a.TakeTick? || a.TakeSignal? || a.TakeClose? }

  /**
   * Whatever wakes the flusher, it takes the whole buffer: as a batch to write, if there is
   * anything. With nothing to write it waits again, or exits if Close woke it. A signal is used up.
   */
  lemma WakingTakesAll(s: Store, take: Action)
    requires Enabled(s, take) && IsTake(take)
    ensures var woken := Next(s, take);
            && Enabled(woken, Swap) && woken.buf == s.buf && woken.signal == (s.signal && !take.TakeSignal?)
            && var swapped := Next(woken, Swap);
               && swapped.buf == [] && swapped.inserted == s.inserted && swapped.signal == woken.signal
               && if s.buf == [] then
                    swapped.batches == s.batches && swapped.flusher == if take.TakeClose? then Exited else Selecting
                  else
                    swapped.batches == s.batches + [s.buf] && swapped.flusher == Writing(s.buf, 0, take.TakeClose?)
  {
  }

  /** The fate of a batch: written at the first success of three attempts, dropped after the third failure. */
  lemma WritingEnds(s: Store)
    requires s.flusher.Writing? && s.flusher.attempts == 0
    ensures var rest := if s.flusher.final then Exited else Selecting;
            var first := Next(s, WriteFails);
            && Settles(s, Next(s, WriteSucceeds), Outcome(true, 1), rest)
            && Enabled(first, WriteSucceeds) && Enabled(first, WriteFails)
            && Settles(s, Next(first, WriteSucceeds), Outcome(true, 2), rest)
            && var second := Next(first, WriteFails);
               && Enabled(second, WriteSucceeds) && Enabled(second, WriteFails)
               && Settles(s, Next(second, WriteSucceeds), Outcome(true, 3), rest)
               && Settles(s, Next(second, WriteFails), Outcome(false, 3), rest)
  {
  }

  predicate Settles(s: Store, s': Store, outcome: Outcome, rest: FlusherPc) {
    s' == s.(outcomes := s.outcomes + [outcome], flusher := rest)
  }

  /** An insertion is kept behind the others, and calls for a signal exactly when it fills the buffer to 5000. */
  lemma InsertionMeaning(s: Store, event: Event)
    ensures var s' := Next(s, Insert(event));
            && s'.buf == s.buf + [event] && s'.inserted == s.inserted + [event]
            && (s'.signalling > s.signalling <==> |s'.buf| >= 5000)
            && (s'.signalling > s.signalling ==> Enabled(s', SendSignal) && Next(s', SendSignal).signal)
  {
  }

  // ---------------------------------------------------------------- the store object

  class ClickHouseStore {
    var buf: seq<Event>
    var signalFlush: bool
    var closeCalled: bool
    var flusher: FlusherPc
    var signalling: nat
    ghost var inserted: seq<Event>
    ghost var batches: seq<seq<Event>>
    ghost var outcomes: seq<Outcome>
    ghost var closedAt: nat

    ghost function View(): Store
      reads this
    {
      Store(buf, signalFlush, closeCalled, flusher, signalling, inserted, batches, outcomes, closedAt)
    }

    ghost predicate Valid()
      reads this
    {
      Safe(View())
    }

    constructor ()
      ensures Valid() && View() == INITIAL
    {
      buf, signalFlush, closeCalled, flusher, signalling := [], false, false, Selecting, 0;
      inserted, batches, outcomes, closedAt := [], [], [], 0;
    }

    /** The locked part of InsertEvent; `full` tells the caller to signal next. */
    method AppendEvent(event: Event) returns (full: bool)
      requires Valid()
      modifies this
      ensures Valid() && View() == Next(old(View()), Insert(event))
      ensures full <==> |buf| >= FLUSH_SIZE
    {
      ghost var before := View();
      buf := buf + [event];
      full := |buf| >= FLUSH_SIZE;
      if full {
        signalling := signalling + 1;
      }
      inserted := inserted + [event];
      SafeStep(before, Insert(event));
    }

    /** The non-blocking send: a second signal before the first is taken has no effect. */
    method TrySignal()
      requires Valid() && signalling > 0
      modifies this
      ensures Valid() && View() == Next(old(View()), SendSignal)
    {
      ghost var before := View();
      if !signalFlush {
        signalFlush := true;
      }
      signalling := signalling - 1;
      SafeStep(before, SendSignal);
    }

    /** The locked part of executeFlush. */
    method TakeBatch() returns (batch: seq<Event>)
      requires Valid() && flusher.BeforeSwap?
      modifies this
      ensures Valid() && View() == Next(old(View()), Swap)
      ensures batch == old(buf)
    {
      ghost var before := View();
      batch := buf;
      if |buf| == 0 {
        flusher := AfterFlush(flusher.final);
      } else {
        batches := batches + [buf];
        flusher := Writing(buf, 0, flusher.final);
        buf := [];
      }
      SafeStep(before, Swap);
    }

    /** The retry loop of executeFlush; `writes[i]` is the answer of attempt `i`. */
    method WriteWithRetries(writes: seq<bool>) returns (written: bool, attempts: nat)
      requires Valid() && flusher.Writing? && flusher.attempts == 0 && |writes| == MAX_RETRIES
      modifies this
      ensures Valid() && flusher == AfterFlush(old(flusher).final)
      ensures written <==> true in writes
      ensures 1 <= attempts <= MAX_RETRIES && (written ==> writes[attempts - 1]) && true !in writes[..attempts - 1]
      ensures outcomes == old(outcomes) + [Outcome(written, attempts)]
      ensures buf == old(buf) && inserted == old(inserted) && batches == old(batches)
    {
      attempts, written := 0, false;
      while attempts < MAX_RETRIES && !written
        invariant attempts <= MAX_RETRIES && Valid()
        invariant if written || attempts == MAX_RETRIES
                  then flusher == AfterFlush(old(flusher).final)
                       && outcomes == old(outcomes) + [Outcome(written, attempts)]
                  else flusher == old(flusher).(attempts := attempts) && outcomes == old(outcomes)
        invariant written ==> attempts > 0 && writes[attempts - 1]
        invariant true !in writes[..if written then attempts - 1 else attempts]
        invariant buf == old(buf) && inserted == old(inserted) && batches == old(batches)
        decreases MAX_RETRIES - attempts
      {
        written := Attempt(writes[attempts]);
        assert writes[..attempts + 1] == writes[..attempts] + [writes[attempts]];
        attempts := attempts + 1;
      }
    }

    /** One pass of the retry loop, with the answer of the write. */
    method Attempt(answer: bool) returns (written: bool)
      requires Valid() && flusher.Writing?
      modifies this`flusher, this`outcomes
      ensures Valid() && View() == Next(old(View()), if answer then WriteSucceeds else WriteFails)
      ensures written == answer
    {
      ghost var before := View();
      written := answer;
      if answer || flusher.attempts + 1 >= MAX_RETRIES {
        outcomes := outcomes + [Outcome(answer, flusher.attempts + 1)];
        flusher := AfterFlush(flusher.final);
      } else {
        flusher := flusher.(attempts := flusher.attempts + 1);
      }
      SafeStep(before, if answer then WriteSucceeds else WriteFails);
    }
  }
}
