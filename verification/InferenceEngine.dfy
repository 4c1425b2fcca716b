/** The windowed inference engine and the histories it keeps between windows. */
module InferenceEngine {
  import opened KernelEvents
  import opened CausalRules
  import opened Sequences
  import opened WindowLinks

  const CROSS_PROC_WIN_SIZE := 200
  const BLOCK_IO_WIN_SIZE := 5000

  function BlockIoOf(events: seq<Event>): (r: seq<Event>) {
    Filter(events, (ev: Event) => ev.eventType.BlockIo?)
  }

  function CandidatesOf(events: seq<Event>): (r: seq<Event>) {
    Filter(events, (ev: Event) => IsCrossProcCandidate(ev.eventType))
  }

  /** Events that arrive without an id get one; `uuids` is the supply of fresh ids. */
  function AssignIds(events: seq<Event>, uuids: seq<string>): (r: seq<Event>)
    requires |uuids| == |events|
    ensures |r| == |events|
  {
    seq(|events|, i requires 0 <= i < |events| =>
      if events[i].eventId == "" then events[i].(eventId := uuids[i]) else events[i])
  }

  function EdgesInto(priors: seq<Event>, ev: Event): (edges: seq<Edge>) {
    if priors == [] then []
    else
      var rest := EdgesInto(priors[..|priors| - 1], ev);
      match TryCreateCrossProcEdge(priors[|priors| - 1], ev)
      case None => rest
      case Some(edge) => rest + [edge]
  }

  /** The cross-process edges into one window, from histories already cut to size. */
  function CrossEdges(blockIo: seq<Event>, crossProc: seq<Event>, events: seq<Event>): (edges: seq<Edge>) {
    if events == [] then []
    else
      var rest, ev := CrossEdges(blockIo, crossProc, events[..|events| - 1]), events[|events| - 1];
      if IsBlocking(ev.eventType) then rest + EdgesInto(blockIo, ev) + EdgesInto(crossProc, ev) else rest
  }

  // ---------------------------------------------------------------- cross-process edges, declaratively

  /** A cross-process edge with the positions, in everything processed so far, of the two events it was made from. */
  datatype CrossLink = CrossLink(prior: nat, target: nat, edge: Edge)

  function CrossLinkEdges(links: seq<CrossLink>): (edges: seq<Edge>) { Map((l: CrossLink) => l.edge, links) }

  function IsBlockIo(): (p: Event -> bool) { (ev: Event) => ev.eventType == BlockIo }

  function IsSwitchOrFault(): (p: Event -> bool) { (ev: Event) => ev.eventType in {SchedSwitch, PageFault} }

  /** The event is remembered: fewer than 5000 later block I/O events, or 200 later switches and faults, followed it. */
  ghost predicate Remembered(all: seq<Event>, p: nat)
    requires p < |all|
  {
    || (IsBlockIo()(all[p]) && |LaterOnes(all, IsBlockIo(), p)| < 5000)
    || (IsSwitchOrFault()(all[p]) && |LaterOnes(all, IsSwitchOrFault(), p)| < 200)
  }

  /** A remembered event and a read or write of the window, which starts at `start`, that make this edge. */
  ghost predicate CrossLinked(all: seq<Event>, start: nat, l: CrossLink) {
    && l.prior < |all| && start <= l.target < |all|
    && Remembered(all, l.prior) && all[l.target].eventType in {SysRead, SysWrite}
    && TryCreateCrossProcEdge(all[l.prior], all[l.target]) == Some(l.edge)
  }

  /** `links` lists exactly the cross links of the window, each once. */
  ghost predicate ExactCrossLinks(all: seq<Event>, start: nat, links: seq<CrossLink>) {
    NoDup(links) && forall l :: l in links <==> CrossLinked(all, start, l)
  }

  /**
   * What one window may emit after `history`: every described link of the two passes once, in some
   * order, then every described cross link once.
   */
  ghost predicate WindowOutput(history: seq<Event>, events: seq<Event>, edges: seq<Edge>) {
    exists byThread: seq<Link>, byProcess: seq<Link>, cross: seq<CrossLink> ::
      && ExactLinks(events, ByThread, byThread)
      && ExactLinks(events, ByProcess, byProcess)
      && ExactCrossLinks(history + events, |history|, cross)
      && edges == LinkEdges(byThread) + LinkEdges(byProcess) + CrossLinkEdges(cross)
  }

  /** `outs[k]` is what the engine may emit for window `k` after all earlier windows. */
  ghost predicate IsRun(windows: seq<seq<Event>>, outs: seq<seq<Edge>>) {
    && |windows| == |outs|
    && forall k :: 0 <= k < |windows| ==> WindowOutput(Concat(windows[..k]), windows[k], outs[k])
  }

  lemma RunExtends(windows: seq<seq<Event>>, outs: seq<seq<Edge>>, events: seq<Event>, edges: seq<Edge>)
    requires IsRun(windows, outs) && WindowOutput(Concat(windows), events, edges)
    ensures IsRun(windows + [events], outs + [edges]) && Concat(windows + [events]) == Concat(windows) + events
  {
    var windows', outs', n := windows + [events], outs + [edges], |windows|;
    assert windows'[..n] == windows;
    forall k | 0 <= k < n + 1
      ensures WindowOutput(Concat(windows'[..k]), windows'[k], outs'[k])
    {
      if k < n {
        assert windows'[..k] == windows[..k];
      }
    }
  }

  method CollectEdgesInto(priors: seq<Event>, ev: Event) returns (edges: seq<Edge>)
    ensures edges == EdgesInto(priors, ev)
  {
    edges := [];
    for k := 0 to |priors|
      invariant edges == EdgesInto(priors[..k], ev)
    {
      var edge := TryCreateCrossProcEdge(priors[k], ev);
      if edge.Some? {
        edges := edges + [edge.value];
      }
      assert priors[..k + 1][..k] == priors[..k];
    }
    assert priors[..|priors|] == priors;
  }

  class Engine {
    var window: seq<Event>
    var crossProcWindow: seq<Event>
    var blockIoWindow: seq<Event>
    ghost var history: seq<Event>  // every event processed so far
    ghost var windows: seq<seq<Event>>  // the same events by window, with the edges of each
    ghost var outs: seq<seq<Edge>>

    /**
     * The retained histories are the newest candidates of everything processed, wherever windows
     * ended, and the windows with their edges are a run.
     */
    ghost predicate Valid()
      reads this
    {
      && crossProcWindow == Newest(CandidatesOf(history), CROSS_PROC_WIN_SIZE)
      && blockIoWindow == Newest(BlockIoOf(history), BLOCK_IO_WIN_SIZE)
      && history == Concat(windows) && IsRun(windows, outs)
    }

    constructor ()
      ensures Valid() && window == [] && windows == []
    {
      window, crossProcWindow, blockIoWindow, history, windows, outs := [], [], [], [], [], [];
    }

    /** The run loop takes one event from its input. */
    method Receive(event: Event)
      requires Valid()
      modifies this`window
      ensures Valid() && window == old(window) + [event]
    {
      window := window + [event];
    }

    method Tick(uuids: seq<string>) returns (edges: seq<Edge>)
      requires Valid() && |uuids| == |window|
      modifies this
      ensures Valid() && window == []
      ensures if old(window) == [] then edges == [] && windows == old(windows) && outs == old(outs)
              else windows == old(windows) + [AssignIds(old(window), uuids)] && outs == old(outs) + [edges]
    {
      if |window| > 0 {
        edges := Flush(uuids);
      } else {
        edges := [];
      }
    }

    method Flush(uuids: seq<string>) returns (edges: seq<Edge>)
      requires Valid() && |uuids| == |window|
      modifies this
      ensures Valid() && window == []
      ensures windows == old(windows) + [AssignIds(old(window), uuids)] && outs == old(outs) + [edges]
    {
      var events := window;
      window := [];
      edges := ProcessWindow(events, uuids);
    }

    method ProcessWindow(arrived: seq<Event>, uuids: seq<string>) returns (edges: seq<Edge>)
      requires Valid() && |uuids| == |arrived|
      modifies this`crossProcWindow, this`blockIoWindow, this`history, this`windows, this`outs
      ensures Valid()
      ensures windows == old(windows) + [AssignIds(arrived, uuids)] && outs == old(outs) + [edges]
    {
      var events := AssignIds(arrived, uuids);
      var threadEdges, threadOrder := LinkGroups(events, ByThread);
      var processEdges, processOrder := LinkGroups(events, ByProcess);
      RememberCrossProcCandidates(events);
      var crossEdges := CollectCrossEdges(events);
      edges := threadEdges + processEdges + crossEdges;
      assert WindowOutput(Concat(windows), events, edges) by {
        PassLinksExact(events, ByThread, threadOrder);
        PassLinksExact(events, ByProcess, processOrder);
        var cross := CrossEdgesExact(Concat(windows), events);
      }
      RunExtends(windows, outs, events, edges);
      windows, outs := windows + [events], outs + [edges];
    }

    method RememberCrossProcCandidates(events: seq<Event>)
      requires Valid()
      modifies this`crossProcWindow, this`blockIoWindow, this`history
      ensures crossProcWindow == Newest(CandidatesOf(history), CROSS_PROC_WIN_SIZE)
      ensures blockIoWindow == Newest(BlockIoOf(history), BLOCK_IO_WIN_SIZE)
      ensures history == old(history) + events
    {
      ghost var block, cross := blockIoWindow, crossProcWindow;
      for k := 0 to |events|
        invariant blockIoWindow == block + BlockIoOf(events[..k])
        invariant crossProcWindow == cross + CandidatesOf(events[..k])
        invariant history == old(history)
      {
        var ev := events[k];
        assert events[..k + 1][..k] == events[..k];
        if ev.eventType.BlockIo? {
          blockIoWindow := blockIoWindow + [ev];
        } else if IsCrossProcCandidate(ev.eventType) {
          crossProcWindow := crossProcWindow + [ev];
        }
      }
      assert events[..|events|] == events;
      crossProcWindow := Newest(crossProcWindow, CROSS_PROC_WIN_SIZE);
      blockIoWindow := Newest(blockIoWindow, BLOCK_IO_WIN_SIZE);
      history := history + events;
      RetainedHistory(old(history), events);
    }

    method CollectCrossEdges(events: seq<Event>) returns (edges: seq<Edge>)
      ensures edges == CrossEdges(blockIoWindow, crossProcWindow, events)
    {
      edges := [];
      for k := 0 to |events|
        invariant edges == CrossEdges(blockIoWindow, crossProcWindow, events[..k])
      {
        assert events[..k + 1][..k] == events[..k];
        if IsBlocking(events[k].eventType) {
          var fromBlock := CollectEdgesInto(blockIoWindow, events[k]);
          var fromCross := CollectEdgesInto(crossProcWindow, events[k]);
          edges := edges + fromBlock + fromCross;
        }
      }
      assert events[..|events|] == events;
    }
  }

  /** Trimming after every window keeps the same events as one cut of the whole history. */
  lemma RetainedHistory(history: seq<Event>, events: seq<Event>)
    ensures Newest(Newest(BlockIoOf(history), BLOCK_IO_WIN_SIZE) + BlockIoOf(events), BLOCK_IO_WIN_SIZE)
         == Newest(BlockIoOf(history + events), BLOCK_IO_WIN_SIZE)
    ensures Newest(Newest(CandidatesOf(history), CROSS_PROC_WIN_SIZE) + CandidatesOf(events), CROSS_PROC_WIN_SIZE)
         == Newest(CandidatesOf(history + events), CROSS_PROC_WIN_SIZE)
  {
    FilterConcat(history, events, (ev: Event) => ev.eventType.BlockIo?);
    FilterConcat(history, events, (ev: Event) => IsCrossProcCandidate(ev.eventType));
    NewestAbsorbs(BlockIoOf(history), BlockIoOf(events), BLOCK_IO_WIN_SIZE);
    NewestAbsorbs(CandidatesOf(history), CandidatesOf(events), CROSS_PROC_WIN_SIZE);
  }

  /**
   * Assigning ids changes nothing else, keeps the ids that were given, and makes all ids distinct if
   * the given ones are and the supply is fresh.
   */
  lemma AssignedIds(events: seq<Event>, uuids: seq<string>)
    requires |uuids| == |events| && "" !in uuids && NoDup(uuids)
    requires forall i, j :: 0 <= i < |events| && 0 <= j < |events| ==> events[i].eventId != uuids[j]
    requires forall i, j :: 0 <= i < j < |events| && events[i].eventId != "" ==> events[i].eventId != events[j].eventId
    ensures var r := AssignIds(events, uuids);
            && (forall i :: 0 <= i < |events| ==> r[i] == events[i].(eventId := r[i].eventId))
            && (forall i :: 0 <= i < |events| && events[i].eventId != "" ==> r[i].eventId == events[i].eventId)
            && (forall i :: 0 <= i < |events| ==> r[i].eventId != "")
            && forall i, j :: 0 <= i < j < |events| ==> r[i].eventId != r[j].eventId
  {
    var r := AssignIds(events, uuids);
    forall i | 0 <= i < |events|
      ensures r[i] == events[i].(eventId := r[i].eventId) && r[i].eventId != ""
      ensures r[i].eventId == if events[i].eventId == "" then uuids[i] else events[i].eventId
    {
      assert uuids[i] in uuids;
    }
  }

  // ---------------------------------------------------------------- the loops meet the description

  /** The links from remembered positions to the event at `target`, in the order of the loop. */
  function LinksTo(all: seq<Event>, positions: seq<nat>, target: nat): (links: seq<CrossLink>)
    requires target < |all| && forall i :: 0 <= i < |positions| ==> positions[i] < |all|
  {
    if positions == [] then []
    else
      var rest, p := LinksTo(all, positions[..|positions| - 1], target), positions[|positions| - 1];
      match TryCreateCrossProcEdge(all[p], all[target])
      case None => rest
      case Some(edge) => rest + [CrossLink(p, target, edge)]
  }

  lemma {:induction false} LinksToEdges(all: seq<Event>, positions: seq<nat>, target: nat, priors: seq<Event>)
    requires target < |all| && |priors| == |positions|
    requires forall i :: 0 <= i < |positions| ==> positions[i] < |all| && priors[i] == all[positions[i]]
    ensures CrossLinkEdges(LinksTo(all, positions, target)) == EdgesInto(priors, all[target])
  {
    if positions != [] {
      var n := |positions| - 1;
      LinksToEdges(all, positions[..n], target, priors[..n]);
      CrossLinkEdgesSnoc(LinksTo(all, positions[..n], target));
    }
  }

  lemma CrossLinkEdgesSnoc(links: seq<CrossLink>)
    ensures forall l :: CrossLinkEdges(links + [l]) == CrossLinkEdges(links) + [l.edge]
  {
    forall l
      ensures CrossLinkEdges(links + [l]) == CrossLinkEdges(links) + [l.edge]
    {
    }
  }

  lemma {:induction false} LinksToExact(all: seq<Event>, positions: seq<nat>, target: nat)
    requires target < |all| && NoDup(positions) && forall i :: 0 <= i < |positions| ==> positions[i] < |all|
    ensures NoDup(LinksTo(all, positions, target))
    ensures forall l :: l in LinksTo(all, positions, target) <==>
              l.prior in positions && l.prior < |all| && l.target == target
              && TryCreateCrossProcEdge(all[l.prior], all[target]) == Some(l.edge)
  {
    if positions != [] {
      var front, p := positions[..|positions| - 1], positions[|positions| - 1];
      assert positions == front + [p] && p !in front && p < |all|;
      LinksToExact(all, front, target);
    }
  }

  function BlockPositions(all: seq<Event>): (r: seq<nat>) {
    Newest(Positions(all, IsBlockIo(), |all|), BLOCK_IO_WIN_SIZE)
  }

  function CandidatePositions(all: seq<Event>): (r: seq<nat>) {
    Newest(Positions(all, IsSwitchOrFault(), |all|), CROSS_PROC_WIN_SIZE)
  }

  /** The positions of the retained windows, block I/O first. */
  function Recalled(all: seq<Event>): (r: seq<nat>)
    ensures forall i :: 0 <= i < |r| ==> r[i] < |all|
  {
    var r := BlockPositions(all) + CandidatePositions(all);
    RecalledAreRemembered(all);
    assert forall i :: 0 <= i < |r| ==> r[i] in r;
    r
  }

  /** They are the remembered positions, and none is in both windows. */
  lemma RecalledAreRemembered(all: seq<Event>)
    ensures NoDup(BlockPositions(all) + CandidatePositions(all))
    ensures forall p: nat :: p in BlockPositions(all) + CandidatePositions(all) <==> p < |all| && Remembered(all, p)
  {
    PositionsExact(all, IsBlockIo(), |all|);
    PositionsExact(all, IsSwitchOrFault(), |all|);
    forall p: nat
      ensures p in BlockPositions(all) + CandidatePositions(all) <==> p < |all| && Remembered(all, p)
      ensures p in BlockPositions(all) ==> p !in CandidatePositions(all)
    {
      NewestPositions(all, IsBlockIo(), BLOCK_IO_WIN_SIZE, p);
      NewestPositions(all, IsSwitchOrFault(), CROSS_PROC_WIN_SIZE, p);
    }
    NoDupAppend(BlockPositions(all), CandidatePositions(all));
  }

  /** The retained events, by position. */
  lemma RetainedByPosition(all: seq<Event>, p: Event -> bool, max: nat)
    ensures var kept, positions := Newest(Filter(all, p), max), Newest(Positions(all, p, |all|), max);
            && |kept| == |positions|
            && forall i :: 0 <= i < |positions| ==> positions[i] < |all| && kept[i] == all[positions[i]]
  {
    FilterIsPositions(all, p, |all|);
    assert all[..|all|] == all;
    NewestTogether(Filter(all, p), Positions(all, p, |all|), all, max);
  }

  lemma NewestTogether(kept: seq<Event>, positions: seq<nat>, all: seq<Event>, max: nat)
    requires |kept| == |positions|
    requires forall i :: 0 <= i < |positions| ==> positions[i] < |all| && kept[i] == all[positions[i]]
    ensures |Newest(kept, max)| == |Newest(positions, max)|
    ensures forall i :: 0 <= i < |Newest(positions, max)| ==>
              Newest(positions, max)[i] < |all| && Newest(kept, max)[i] == all[Newest(positions, max)[i]]
  {
    var cut := if |kept| <= max then 0 else |kept| - max;
    forall i | 0 <= i < |Newest(positions, max)|
      ensures Newest(positions, max)[i] < |all| && Newest(kept, max)[i] == all[Newest(positions, max)[i]]
    {
      assert Newest(positions, max)[i] == positions[cut + i] && Newest(kept, max)[i] == kept[cut + i];
    }
  }

  lemma SameFilter<T(!new)>(s: seq<T>, p: T -> bool, q: T -> bool)
    requires forall x :: p(x) == q(x)
    ensures Filter(s, p) == Filter(s, q)
  {
  }

  /** The links into the window's events below `n`, in the order of the loops. */
  function CrossLinksBelow(all: seq<Event>, start: nat, n: nat): (links: seq<CrossLink>)
    requires start + n <= |all|
  {
    if n == 0 then []
    else
      var rest, target := CrossLinksBelow(all, start, n - 1), start + n - 1;
      if IsBlocking(all[target].eventType) then rest + LinksTo(all, Recalled(all), target) else rest
  }

  lemma {:induction false} CrossLinksBelowExact(all: seq<Event>, start: nat, n: nat)
    requires start + n <= |all|
    ensures NoDup(CrossLinksBelow(all, start, n))
    ensures forall l :: l in CrossLinksBelow(all, start, n) <==> CrossLinked(all, start, l) && l.target < start + n
  {
    if n > 0 {
      var target := start + n - 1;
      CrossLinksBelowExact(all, start, n - 1);
      RecalledAreRemembered(all);
      if IsBlocking(all[target].eventType) {
        LinksToExact(all, Recalled(all), target);
        NoDupAppend(CrossLinksBelow(all, start, n - 1), LinksTo(all, Recalled(all), target));
      }
    }
  }

  lemma {:induction false} EdgesIntoConcat(a: seq<Event>, b: seq<Event>, ev: Event)
    ensures EdgesInto(a + b, ev) == EdgesInto(a, ev) + EdgesInto(b, ev)
  {
    if b == [] {
      assert a + b == a;
    } else {
      assert (a + b)[..|a + b| - 1] == a + b[..|b| - 1];
      EdgesIntoConcat(a, b[..|b| - 1], ev);
    }
  }

  lemma {:induction false} CrossLinksBelowEdges(all: seq<Event>, blockIo: seq<Event>, crossProc: seq<Event>,
                                                start: nat, n: nat)
    requires start + n <= |all|
    requires blockIo == Newest(BlockIoOf(all), BLOCK_IO_WIN_SIZE)
    requires crossProc == Newest(CandidatesOf(all), CROSS_PROC_WIN_SIZE)
    ensures CrossLinkEdges(CrossLinksBelow(all, start, n)) == CrossEdges(blockIo, crossProc, all[start..start + n])
  {
    if n > 0 {
      CrossLinksBelowEdges(all, blockIo, crossProc, start, n - 1);
      OneMoreTarget(all, blockIo, crossProc, start, n);
    }
  }

  lemma OneMoreTarget(all: seq<Event>, blockIo: seq<Event>, crossProc: seq<Event>, start: nat, n: nat)
    requires 0 < n && start + n <= |all|
    requires blockIo == Newest(BlockIoOf(all), BLOCK_IO_WIN_SIZE)
    requires crossProc == Newest(CandidatesOf(all), CROSS_PROC_WIN_SIZE)
    requires CrossLinkEdges(CrossLinksBelow(all, start, n - 1))
          == CrossEdges(blockIo, crossProc, all[start..start + n - 1])
    ensures CrossLinkEdges(CrossLinksBelow(all, start, n)) == CrossEdges(blockIo, crossProc, all[start..start + n])
  {
    var target := start + n - 1;
    assert all[start..start + n] == all[start..target] + [all[target]];
    CrossEdgesSnoc(blockIo, crossProc, all[start..target], all[target]);
    if IsBlocking(all[target].eventType) {
      TargetEdges(all, blockIo, crossProc, target);
      CrossLinkEdgesAppend(CrossLinksBelow(all, start, n - 1), LinksTo(all, Recalled(all), target));
    }
  }

  lemma CrossEdgesSnoc(blockIo: seq<Event>, crossProc: seq<Event>, before: seq<Event>, ev: Event)
    ensures CrossEdges(blockIo, crossProc, before + [ev])
         == if IsBlocking(ev.eventType)
            then CrossEdges(blockIo, crossProc, before) + (EdgesInto(blockIo, ev) + EdgesInto(crossProc, ev))
            else CrossEdges(blockIo, crossProc, before)
  {
    assert (before + [ev])[..|before|] == before;
  }

  lemma TargetEdges(all: seq<Event>, blockIo: seq<Event>, crossProc: seq<Event>, target: nat)
    requires target < |all|
    requires blockIo == Newest(BlockIoOf(all), BLOCK_IO_WIN_SIZE)
    requires crossProc == Newest(CandidatesOf(all), CROSS_PROC_WIN_SIZE)
    ensures CrossLinkEdges(LinksTo(all, Recalled(all), target))
         == EdgesInto(blockIo, all[target]) + EdgesInto(crossProc, all[target])
  {
    PriorsByPosition(all, blockIo, crossProc);
    LinksToEdges(all, Recalled(all), target, blockIo + crossProc);
    EdgesIntoConcat(blockIo, crossProc, all[target]);
  }

  lemma CrossLinkEdgesAppend(a: seq<CrossLink>, b: seq<CrossLink>)
    ensures CrossLinkEdges(a + b) == CrossLinkEdges(a) + CrossLinkEdges(b)
  {
  }

  lemma PriorsByPosition(all: seq<Event>, blockIo: seq<Event>, crossProc: seq<Event>)
    requires blockIo == Newest(BlockIoOf(all), BLOCK_IO_WIN_SIZE)
    requires crossProc == Newest(CandidatesOf(all), CROSS_PROC_WIN_SIZE)
    ensures var positions, priors := Recalled(all), blockIo + crossProc;
            && |priors| == |positions|
            && forall i :: 0 <= i < |positions| ==> positions[i] < |all| && priors[i] == all[positions[i]]
  {
    SameFilter(all, (ev: Event) => ev.eventType.BlockIo?, IsBlockIo());
    SameFilter(all, (ev: Event) => IsCrossProcCandidate(ev.eventType), IsSwitchOrFault());
    RetainedByPosition(all, IsBlockIo(), BLOCK_IO_WIN_SIZE);
    RetainedByPosition(all, IsSwitchOrFault(), CROSS_PROC_WIN_SIZE);
  }

  /** The cross-process edges computed from the retained windows are exactly the described ones, each once. */
  lemma CrossEdgesExact(history: seq<Event>, events: seq<Event>) returns (links: seq<CrossLink>)
    ensures ExactCrossLinks(history + events, |history|, links)
    ensures CrossLinkEdges(links) == CrossEdges(Newest(BlockIoOf(history + events), BLOCK_IO_WIN_SIZE),
                                                Newest(CandidatesOf(history + events), CROSS_PROC_WIN_SIZE), events)
  {
    var all := history + events;
    links := CrossLinksBelow(all, |history|, |events|);
    CrossLinksBelowExact(all, |history|, |events|);
    CrossLinksBelowEdges(all, Newest(BlockIoOf(all), BLOCK_IO_WIN_SIZE), Newest(CandidatesOf(all), CROSS_PROC_WIN_SIZE),
                         |history|, |events|);
    assert all[|history|..|history| + |events|] == events;
  }

  /** Unless an end wraps, the described edges are those of the field conditions on the two events. */
  lemma CrossLinkMeaning(all: seq<Event>, start: nat, l: CrossLink)
    requires forall k :: 0 <= k < |all| ==> NoWrap(all[k])
    ensures CrossLinked(all, start, l) <==>
            && l.prior < |all| && start <= l.target < |all| && Remembered(all, l.prior)
            && all[l.target].eventType in {SysRead, SysWrite} && CrossEdge(all[l.prior], all[l.target], l.edge)
  {
    if l.prior < |all| && l.target < |all| {
      CrossEdgeMeaning(all[l.prior], all[l.target], l.edge);
    }
  }
}
