/**
 * The console's deduplicating message list. A hydration, a live message and a clear are each one
 * step.
 */
module MessageList {
  import opened Sequences
  import opened StableSort
  import opened OrderedMap

  const MAX_MESSAGES := 2000

  /** One event text, with the deduplication key and the timestamp read from it. */
  datatype Data = Data(key: string, timestamp: int, text: string)

  datatype Message = Message(id: nat, data: Data)

  datatype State = State(
    messages: seq<Message>, sequence: nat, hydrated: bool, bufferedLive: seq<Data>, seen: set<string>)

  const INITIAL := State([], 0, false, [], {})

  datatype Action = Hydrate(historical: seq<Data>) | Live(data: Data) | Clear

  function KeyOf(): (keyOf: Data -> string) { (d: Data) => d.key }

  function ByTimestamp(): (le: (Data, Data) -> bool) { (a: Data, b: Data) => a.timestamp <= b.timestamp }

  function Payloads(messages: seq<Message>): (data: seq<Data>) { Map((m: Message) => m.data, messages) }

  function Keys(data: seq<Data>): (keys: set<string>) { set d | d in data :: d.key }

  /** What hydration lists: the last text of each key, in time order, the newest ones only. */
  function Ordered(combined: seq<Data>): (r: seq<Data>) {
    Newest(Sort(FromList(combined, KeyOf()), ByTimestamp()), MAX_MESSAGES)
  }

  function Numbered(data: seq<Data>, first: nat): (r: seq<Message>) {
    seq(|data|, i requires 0 <= i < |data| => Message(first + i, data[i]))
  }

  function AfterHydrate(s: State, historical: seq<Data>): (s': State) {
    var ordered := Ordered(historical + s.bufferedLive);
    State(Numbered(ordered, s.sequence + 1), s.sequence + |ordered|, true, [], Keys(ordered))
  }

  function AfterLive(s: State, data: Data): (s': State) {
    if !s.hydrated then s.(bufferedLive := s.bufferedLive + [data])
    else if data.key in s.seen then s
    else
      var messages := Newest(s.messages + [Message(s.sequence + 1, data)], MAX_MESSAGES);
      s.(messages := messages, sequence := s.sequence + 1, seen := Keys(Payloads(messages)))
  }

  function Next(s: State, a: Action): (s': State) {
    match a
    case Hydrate(historical) => AfterHydrate(s, historical)
    case Live(data) => AfterLive(s, data)
    case Clear => s.(messages := [])
  }

  function Run(actions: seq<Action>): (s: State) {
    if actions == [] then INITIAL else Next(Run(actions[..|actions| - 1]), actions[|actions| - 1])
  }

  // ---------------------------------------------------------------- what hydration lists

  lemma ByTimestampIsPreorder()
    ensures Preorder(ByTimestamp())
  {
  }

  /** A permutation keeps keys distinct. */
  lemma PermutationKeepsDistinct(a: seq<Data>, b: seq<Data>)
    requires DistinctKeys(a, KeyOf()) && multiset(a) == multiset(b)
    ensures DistinctKeys(b, KeyOf())
  {
    MapPermutation(KeyOf(), a, b);
    NoDupPermutation(Map(KeyOf(), a), Map(KeyOf(), b));
    forall i, j | 0 <= i < j < |b|
      ensures KeyOf()(b[i]) != KeyOf()(b[j])
    {
      assert Map(KeyOf(), b)[i] != Map(KeyOf(), b)[j];
    }
  }

  lemma SuffixKeepsDistinct(s: seq<Data>, max: nat)
    requires DistinctKeys(s, KeyOf())
    ensures DistinctKeys(Newest(s, max), KeyOf())
  {
  }

  lemma OrderedDistinct(combined: seq<Data>)
    ensures DistinctKeys(Ordered(combined), KeyOf())
  {
    var unique := FromList(combined, KeyOf());
    FromListDistinct(combined, KeyOf());
    SortPermutes(unique, ByTimestamp());
    PermutationKeepsDistinct(unique, Sort(unique, ByTimestamp()));
    SuffixKeepsDistinct(Sort(unique, ByTimestamp()), MAX_MESSAGES);
  }

  /** There is one entry for every key that was given. */
  lemma OneEntryPerKey(combined: seq<Data>)
    ensures |FromList(combined, KeyOf())| == |Keys(combined)|
  {
    var unique := FromList(combined, KeyOf());
    var keys := Map(KeyOf(), unique);
    FromListDistinct(combined, KeyOf());
    assert NoDup(keys);
    ElementsCard(keys);
    forall key
      ensures key in Elements(keys) <==> key in Keys(combined)
    {
      FromListKeys(combined, KeyOf(), key);
      assert key in Elements(keys) <==> HasKey(unique, KeyOf(), key);
      assert key in Keys(combined) <==> HasKey(combined, KeyOf(), key);
    }
    assert Elements(keys) == Keys(combined);
  }

  /** The last text that arrived for its key. */
  ghost predicate IsLast(combined: seq<Data>, k: int) {
    0 <= k < |combined| && forall m :: k < m < |combined| ==> combined[m].key != combined[k].key
  }

  /**
   * The hydrated list holds as many of the distinct keys given as fit, in time order; each entry is
   * the last text that arrived for its key.
   */
  lemma HydrationLists(combined: seq<Data>)
    ensures DistinctKeys(Ordered(combined), KeyOf()) && SortedBy(Ordered(combined), ByTimestamp())
    ensures |Ordered(combined)| == if |Keys(combined)| <= MAX_MESSAGES then |Keys(combined)| else MAX_MESSAGES
    ensures forall d :: d in Ordered(combined) ==> exists k :: IsLast(combined, k) && combined[k] == d
  {
    var unique := FromList(combined, KeyOf());
    var sorted := Sort(unique, ByTimestamp());
    OrderedDistinct(combined);
    OneEntryPerKey(combined);
    ByTimestampIsPreorder();
    SortSorted(unique, ByTimestamp());
    forall d | d in Ordered(combined)
      ensures exists k :: IsLast(combined, k) && combined[k] == d
    {
      assert d in sorted;
      InSort(unique, ByTimestamp(), d);
      var k := EntryIsLast(combined, KeyOf(), d);
      assert IsLast(combined, k);
    }
  }

  /** The last text of a key that is not listed is no newer than any text that is. */
  lemma HydrationKeepsNewest(combined: seq<Data>, k: nat, listed: Data)
    requires IsLast(combined, k) && combined[k].key !in Keys(Ordered(combined)) && listed in Ordered(combined)
    ensures combined[k].timestamp <= listed.timestamp
  {
    FromListLast(combined, KeyOf(), k);
    assert combined[k] in FromList(combined, KeyOf());
    CutKeepsNewest(FromList(combined, KeyOf()), combined[k], listed);
  }

  lemma CutKeepsNewest(unique: seq<Data>, omitted: Data, listed: Data)
    requires var kept := Newest(Sort(unique, ByTimestamp()), MAX_MESSAGES);
             omitted in unique && omitted !in kept && listed in kept
    ensures omitted.timestamp <= listed.timestamp
  {
    var sorted := Sort(unique, ByTimestamp());
    ByTimestampIsPreorder();
    SortSorted(unique, ByTimestamp());
    InSort(unique, ByTimestamp(), omitted);
    SuffixIsNewer(sorted, |sorted| - |Newest(sorted, MAX_MESSAGES)|, omitted, listed);
  }

  lemma SuffixIsNewer(sorted: seq<Data>, cut: nat, early: Data, late: Data)
    requires SortedBy(sorted, ByTimestamp()) && cut <= |sorted|
    requires early in sorted && early !in sorted[cut..] && late in sorted[cut..]
    ensures early.timestamp <= late.timestamp
  {
    var i := IndexOf(sorted, early);
    var k := IndexOf(sorted[cut..], late);
    InSuffix(sorted, cut, i);
    assert ByTimestamp()(sorted[i], sorted[cut + k]);
  }

  // ---------------------------------------------------------------- what every step keeps

  ghost predicate IdsIncrease(messages: seq<Message>) {
    forall i, j :: 0 <= i < j < |messages| ==> messages[i].id < messages[j].id
  }

  /** Distinct keys, increasing ids, none beyond the sequence counter. */
  ghost predicate WellNumbered(messages: seq<Message>, sequence: nat) {
    && DistinctKeys(Payloads(messages), KeyOf())
    && IdsIncrease(messages) && forall k :: 0 <= k < |messages| ==> messages[k].id <= sequence
  }

  ghost predicate Consistent(s: State) {
    && |s.messages| <= MAX_MESSAGES && WellNumbered(s.messages, s.sequence)
    && Keys(Payloads(s.messages)) <= s.seen
  }

  lemma HydrateStep(s: State, historical: seq<Data>)
    ensures Consistent(AfterHydrate(s, historical))
    ensures Keys(Payloads(AfterHydrate(s, historical).messages)) == AfterHydrate(s, historical).seen
  {
    var ordered := Ordered(historical + s.bufferedLive);
    OrderedDistinct(historical + s.bufferedLive);
    assert Payloads(Numbered(ordered, s.sequence + 1)) == ordered;
  }

  lemma PayloadsNewest(messages: seq<Message>, max: nat)
    ensures Payloads(Newest(messages, max)) == Newest(Payloads(messages), max)
  {
  }

  lemma NewestWellNumbered(messages: seq<Message>, sequence: nat, max: nat)
    requires WellNumbered(messages, sequence)
    ensures WellNumbered(Newest(messages, max), sequence)
  {
    PayloadsNewest(messages, max);
    SuffixKeepsDistinct(Payloads(messages), max);
  }

  lemma AppendWellNumbered(messages: seq<Message>, sequence: nat, data: Data)
    requires WellNumbered(messages, sequence) && data.key !in Keys(Payloads(messages))
    ensures WellNumbered(messages + [Message(sequence + 1, data)], sequence + 1)
  {
    var before, after := Payloads(messages), Payloads(messages + [Message(sequence + 1, data)]);
    assert after == before + [data];
    forall i, j | 0 <= i < j < |after|
      ensures KeyOf()(after[i]) != KeyOf()(after[j])
    {
      if j == |before| {
        assert before[i] in before;
      } else {
        assert KeyOf()(before[i]) != KeyOf()(before[j]);
      }
    }
  }

  lemma LiveStep(s: State, data: Data)
    requires Consistent(s)
    ensures Consistent(AfterLive(s, data))
  {
    if s.hydrated && data.key !in s.seen {
      var longer := s.messages + [Message(s.sequence + 1, data)];
      AppendWellNumbered(s.messages, s.sequence, data);
      NewestWellNumbered(longer, s.sequence + 1, MAX_MESSAGES);
      var kept := Newest(longer, MAX_MESSAGES);
      assert AfterLive(s, data) == State(kept, s.sequence + 1, true, s.bufferedLive, Keys(Payloads(kept)));
    }
  }

  /** In every reachable state: distinct keys, increasing ids, at most 2000 messages, all of them seen. */
  lemma {:induction false} RunConsistent(actions: seq<Action>)
    ensures Consistent(Run(actions))
  {
    if actions != [] {
      var before, last := actions[..|actions| - 1], actions[|actions| - 1];
      RunConsistent(before);
      match last
      case Hydrate(historical) => HydrateStep(Run(before), historical);
      case Live(data) => LiveStep(Run(before), data);
      case Clear =>
    }
  }

  /** Until the list is cleared, the seen keys are exactly the listed ones. */
  lemma {:induction false} SeenIsListed(actions: seq<Action>)
    requires forall k :: 0 <= k < |actions| ==> !actions[k].Clear?
    ensures Run(actions).seen == Keys(Payloads(Run(actions).messages))
  {
    if actions != [] {
      var before, last := actions[..|actions| - 1], actions[|actions| - 1];
      SeenIsListed(before);
      if last.Hydrate? {
        HydrateStep(Run(before), last.historical);
      }
    }
  }

  /**
   * A live message is listed exactly when its key has not been seen: at the end, with the next id,
   * behind all that were listed before but the oldest if the list was full.
   */
  lemma LiveListedIff(s: State, data: Data)
    requires Consistent(s) && s.hydrated
    ensures data.key in s.seen ==> AfterLive(s, data) == s
    ensures data.key !in s.seen ==>
              AfterLive(s, data).messages ==
              (if |s.messages| < 2000 then s.messages else s.messages[1..]) + [Message(s.sequence + 1, data)]
  {
    if |s.messages| == 2000 {
      assert (s.messages + [Message(s.sequence + 1, data)])[1..] == s.messages[1..] + [Message(s.sequence + 1, data)];
    }
  }

  /** Clearing forgets the messages but not their keys: whatever was listed is then refused by an empty list. */
  lemma ClearedEventIsRefused(actions: seq<Action>, data: Data)
    requires Run(actions).hydrated && data.key in Keys(Payloads(Run(actions).messages))
    ensures Run(actions + [Clear]).messages == []
    ensures Run(actions + [Clear, Live(data)]) == Run(actions + [Clear])
  {
    RunConsistent(actions);
    RunGrows(actions, Clear);
    RunGrows(actions + [Clear], Live(data));
    assert actions + [Clear] + [Live(data)] == actions + [Clear, Live(data)];
  }

  lemma RunGrows(actions: seq<Action>, last: Action)
    ensures Run(actions + [last]) == Next(Run(actions), last)
  {
    assert (actions + [last])[..|actions|] == actions;
  }

  // ---------------------------------------------------------------- what a run has been given

  /** The texts that arrived live, in order. */
  function LiveTexts(actions: seq<Action>): (texts: seq<Data>) {
    if actions == [] then []
    else
      var before, last := LiveTexts(actions[..|actions| - 1]), actions[|actions| - 1];
      if last.Live? then before + [last.data] else before
  }

  predicate HasHydrated(actions: seq<Action>) { exists k :: 0 <= k < |actions| && actions[k].Hydrate? }

  /** The live texts that the next hydration has to list: all of them before the first one, none after it. */
  function WaitingTexts(actions: seq<Action>): (texts: seq<Data>) {
    if HasHydrated(actions) then [] else LiveTexts(actions)
  }

  lemma {:induction false} BufferHoldsWaiting(actions: seq<Action>)
    ensures Run(actions).hydrated == HasHydrated(actions)
    ensures Run(actions).bufferedLive == WaitingTexts(actions)
  {
    if actions != [] {
      var n := |actions| - 1;
      BufferHoldsWaiting(actions[..n]);
      assert HasHydrated(actions) <==> HasHydrated(actions[..n]) || actions[n].Hydrate? by {
        if k :| 0 <= k < n && actions[k].Hydrate? {
          assert actions[..n][k].Hydrate?;
        }
      }
    }
  }

  /** `listed` is what a hydration from these texts must list. */
  ghost predicate ListsNewest(listed: seq<Data>, given: seq<Data>) {
    && (forall i, j :: 0 <= i < j < |listed| ==>
          listed[i].key != listed[j].key && listed[i].timestamp <= listed[j].timestamp)
    && |listed| == (if |Keys(given)| <= 2000 then |Keys(given)| else 2000)
    && (forall d :: d in listed ==> exists k :: IsLast(given, k) && given[k] == d)
    && forall k, d :: IsLast(given, k) && given[k].key !in Keys(listed) && d in listed ==>
         given[k].timestamp <= d.timestamp
  }

  lemma OrderedListsNewest(given: seq<Data>)
    ensures ListsNewest(Ordered(given), given)
  {
    HydrationLists(given);
    var listed := Ordered(given);
    forall i, j | 0 <= i < j < |listed|
      ensures listed[i].key != listed[j].key && listed[i].timestamp <= listed[j].timestamp
    {
      assert KeyOf()(listed[i]) != KeyOf()(listed[j]) && ByTimestamp()(listed[i], listed[j]);
    }
    forall k, d | IsLast(given, k) && given[k].key !in Keys(listed) && d in listed
      ensures given[k].timestamp <= d.timestamp
    {
      HydrationKeepsNewest(given, k, d);
    }
  }

  /**
   * In any run a hydration lists, of the history followed by the live texts still waiting, the newest
   * 2000 distinct keys, each with its last text: so nothing that arrived live before the first
   * hydration is lost to it, and a waiting live text wins over the history.
   */
  lemma HydrationOfRun(actions: seq<Action>, historical: seq<Data>)
    ensures var s, waiting := Run(actions + [Hydrate(historical)]), WaitingTexts(actions);
            && s.hydrated && s.bufferedLive == []
            && s.sequence == Run(actions).sequence + |s.messages|
            && (forall k :: 0 <= k < |s.messages| ==> s.messages[k].id == Run(actions).sequence + 1 + k)
            && ListsNewest(Payloads(s.messages), historical + waiting)
            && forall d :: d in Payloads(s.messages) && d.key in Keys(waiting) ==> d in waiting
  {
    HydrationLeaves(actions, historical);
    OrderedListsNewest(historical + WaitingTexts(actions));
    WaitingWins(historical, WaitingTexts(actions));
  }

  lemma HydrationLeaves(actions: seq<Action>, historical: seq<Data>)
    ensures var s := Run(actions + [Hydrate(historical)]);
            && s.hydrated && s.bufferedLive == [] && Payloads(s.messages) == Ordered(historical + WaitingTexts(actions))
            && s.sequence == Run(actions).sequence + |s.messages|
            && forall k :: 0 <= k < |s.messages| ==> s.messages[k].id == Run(actions).sequence + 1 + k
  {
    var ordered := Ordered(historical + WaitingTexts(actions));
    BufferHoldsWaiting(actions);
    RunGrows(actions, Hydrate(historical));
    assert Payloads(Numbered(ordered, Run(actions).sequence + 1)) == ordered;
  }

  lemma WaitingWins(historical: seq<Data>, waiting: seq<Data>)
    ensures forall d :: d in Ordered(historical + waiting) && d.key in Keys(waiting) ==> d in waiting
  {
    HydrationLists(historical + waiting);
    forall d | d in Ordered(historical + waiting) && d.key in Keys(waiting)
      ensures d in waiting
    {
      var k :| IsLast(historical + waiting, k) && (historical + waiting)[k] == d;
      LastOfLater(historical, waiting, k);
    }
  }

  lemma LastOfLater(a: seq<Data>, b: seq<Data>, k: int)
    requires IsLast(a + b, k) && (a + b)[k].key in Keys(b)
    ensures (a + b)[k] in b
  {
    var d :| d in b && d.key == (a + b)[k].key;
    var m := IndexOf(b, d);
    assert (a + b)[|a| + m] == d;
    assert k >= |a|;
    assert (a + b)[k] == b[k - |a|];
  }

  // ---------------------------------------------------------------- the component's state

  /** The loop that keeps the last text of each key. */
  method Unique(combined: seq<Data>) returns (unique: seq<Data>)
    ensures unique == FromList(combined, KeyOf())
  {
    unique := [];
    for k := 0 to |combined|
      invariant unique == FromList(combined[..k], KeyOf())
    {
      unique := Put(unique, KeyOf(), combined[k]);
      assert combined[..k + 1][..k] == combined[..k];
    }
    assert combined[..|combined|] == combined;
  }

  class Connection {
    var messages: seq<Message>
    var sequence: nat
    var hydrated: bool
    var bufferedLive: seq<Data>
    var seen: set<string>

    ghost function View(): State
      reads this
    {
      State(messages, sequence, hydrated, bufferedLive, seen)
    }

    ghost predicate Valid()
      reads this
    {
      Consistent(View())
    }

    constructor ()
      ensures Valid() && View() == INITIAL
    {
      messages, sequence, hydrated, bufferedLive, seen := [], 0, false, [], {};
    }

    method HydrateHistory(historical: seq<Data>)
      requires Valid()
      modifies this
      ensures Valid() && View() == Next(old(View()), Hydrate(historical))
    {
      HydrateStep(View(), historical);
      ghost var after := AfterHydrate(View(), historical);
      var combined := historical + bufferedLive;
      bufferedLive := [];
      var unique := Unique(combined);
      var ordered := Newest(Sort(unique, ByTimestamp()), MAX_MESSAGES);
      assert ordered == Ordered(combined);
      seen := Keys(ordered);
      messages := AssignNumbers(ordered);
      hydrated := true;
      assert View() == after;
    }

    /** Numbers the hydrated texts, drawing on the sequence counter. */
    method AssignNumbers(ordered: seq<Data>) returns (numbered: seq<Message>)
      modifies this`sequence
      ensures numbered == Numbered(ordered, old(sequence) + 1) && sequence == old(sequence) + |ordered|
    {
      numbered := [];
      for k := 0 to |ordered|
        invariant numbered == Numbered(ordered[..k], old(sequence) + 1) && sequence == old(sequence) + k
      {
        sequence := sequence + 1;
        numbered := numbered + [Message(sequence, ordered[k])];
      }
      assert ordered[..|ordered|] == ordered;
    }

    method OnMessage(data: Data)
      requires Valid()
      modifies this
      ensures Valid() && View() == Next(old(View()), Live(data))
    {
      LiveStep(View(), data);
      ghost var after := AfterLive(View(), data);
      if !hydrated {
        bufferedLive := bufferedLive + [data];
      } else if data.key !in seen {
        sequence := sequence + 1;
        messages := Newest(messages + [Message(sequence, data)], MAX_MESSAGES);
        seen := Keys(Payloads(messages));
      }
      assert View() == after;
    }

    method ClearMessages()
      requires Valid()
      modifies this`messages
      ensures Valid() && View() == Next(old(View()), Clear)
    {
      messages := [];
    }
  }
}
