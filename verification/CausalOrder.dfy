/** Why the causal graph of a whole run has no cycle although edges may point back in time. */
module CausalOrder {
  import opened KernelEvents
  import opened CausalRules
  import opened Sequences
  import opened WindowLinks
  import opened InferenceEngine
  import opened Paths

  /** Syscalls and receives form the upper layer; everything that explains them the lower one. */
  function Layer(t: EventType): (layer: nat) {
    if t.SysRead? || t.SysWrite? || t.TcpRecv? then 1 else 0
  }

  /** Position `a` of the history precedes position `b`: by layer, then time, then latest arrival first. */
  predicate Precedes(history: seq<Event>, a: nat, b: nat)
    requires a < |history| && b < |history|
  {
    var (x, y) := (history[a], history[b]);
    || Layer(x.eventType) < Layer(y.eventType)
    || (Layer(x.eventType) == Layer(y.eventType) && x.timestampNs < y.timestampNs)
    || (Layer(x.eventType) == Layer(y.eventType) && x.timestampNs == y.timestampNs && a > b)
  }

  /** The ids belong to two events of the history, in the order above. */
  ghost predicate Before(history: seq<Event>, from: string, to: string) {
    exists a: nat, b: nat ::
      a < |history| && b < |history| && history[a].eventId == from && history[b].eventId == to
      && Precedes(history, a, b)
  }

  ghost predicate Ordered(history: seq<Event>, e: Edge) {
    Before(history, e.fromId, e.toId)
  }

  ghost predicate AllOrdered(history: seq<Event>, edges: seq<Edge>) {
    forall e :: e in edges ==> Ordered(history, e)
  }

  // ---------------------------------------------------------------- every edge respects the order

  /** The cause tables never lead from the upper layer to the lower one. */
  lemma CauseKeepsLayer(from: EventType, to: EventType, crossThread: bool)
    requires PairCause(from, to, crossThread).Some?
    ensures Layer(from) <= Layer(to)
  {
  }

  lemma LinkOrdered(history: seq<Event>, events: seq<Event>, pass: Pass, l: Link)
    requires Linked(events, pass, l)
    ensures Ordered(history + events, l.edge)
  {
    var all := history + events;
    var (i, j) := (|history| + l.i, |history| + l.j);
    assert all[i] == events[l.i] && all[j] == events[l.j];
    WindowEdgeMeaning(events[l.i], events[l.j], pass.ByProcess?, l.edge);
    if events[l.j].timestampNs <= events[l.i].timestampNs {
      CauseKeepsLayer(events[l.j].eventType, events[l.i].eventType, pass.ByProcess?);
      assert Precedes(all, j, i);
    } else {
      CauseKeepsLayer(events[l.i].eventType, events[l.j].eventType, pass.ByProcess?);
      assert Precedes(all, i, j);
    }
  }

  lemma CrossLinkOrdered(all: seq<Event>, start: nat, l: CrossLink)
    requires CrossLinked(all, start, l)
    ensures Ordered(all, l.edge)
  {
    var prior, ev := all[l.prior], all[l.target];
    if !prior.eventType.BlockIo? {
      CrossProcEdgeMeaning(prior, ev, l.edge);
    }
    assert Precedes(all, l.prior, l.target);
  }

  lemma CrossEdgesOrdered(all: seq<Event>, start: nat, cross: seq<CrossLink>, e: Edge)
    requires ExactCrossLinks(all, start, cross) && e in CrossLinkEdges(cross)
    ensures Ordered(all, e)
  {
    var k := IndexOf(CrossLinkEdges(cross), e);
    assert cross[k] in cross;
    CrossLinkOrdered(all, start, cross[k]);
  }

  lemma LinkEdgesOrdered(history: seq<Event>, events: seq<Event>, pass: Pass, links: seq<Link>, e: Edge)
    requires ExactLinks(events, pass, links) && e in LinkEdges(links)
    ensures Ordered(history + events, e)
  {
    var k :| 0 <= k < |links| && LinkEdges(links)[k] == e;
    assert links[k] in links;
    LinkOrdered(history, events, pass, links[k]);
  }

  lemma WindowOrdered(history: seq<Event>, events: seq<Event>, edges: seq<Edge>)
    requires WindowOutput(history, events, edges)
    ensures AllOrdered(history + events, edges)
  {
    var byThread: seq<Link>, byProcess: seq<Link>, cross: seq<CrossLink> :|
      && ExactLinks(events, ByThread, byThread) && ExactLinks(events, ByProcess, byProcess)
      && ExactCrossLinks(history + events, |history|, cross)
      && edges == LinkEdges(byThread) + LinkEdges(byProcess) + CrossLinkEdges(cross);
    forall e | e in edges
      ensures Ordered(history + events, e)
    {
      if e in LinkEdges(byThread) {
        LinkEdgesOrdered(history, events, ByThread, byThread, e);
      } else if e in LinkEdges(byProcess) {
        LinkEdgesOrdered(history, events, ByProcess, byProcess, e);
      } else {
        CrossEdgesOrdered(history + events, |history|, cross, e);
      }
    }
  }

  lemma OrderedExtends(history: seq<Event>, more: seq<Event>, e: Edge)
    requires Ordered(history, e)
    ensures Ordered(history + more, e)
  {
    var a: nat, b: nat :| a < |history| && b < |history| && history[a].eventId == e.fromId
                          && history[b].eventId == e.toId && Precedes(history, a, b);
    var all := history + more;
    assert all[a] == history[a] && all[b] == history[b];
    assert Precedes(all, a, b);
  }

  lemma AllOrderedExtends(history: seq<Event>, edges: seq<Edge>, events: seq<Event>, more: seq<Edge>)
    requires AllOrdered(history, edges) && AllOrdered(history + events, more)
    ensures AllOrdered(history + events, edges + more)
  {
    forall e | e in edges + more
      ensures Ordered(history + events, e)
    {
      if e in edges {
        OrderedExtends(history, events, e);
      }
    }
  }

  // ---------------------------------------------------------------- whole runs

  lemma RunPrefix(windows: seq<seq<Event>>, outs: seq<seq<Edge>>, n: nat)
    requires IsRun(windows, outs) && n <= |windows|
    ensures IsRun(windows[..n], outs[..n])
  {
    forall k | 0 <= k < n
      ensures WindowOutput(Concat(windows[..n][..k]), windows[..n][k], outs[..n][k])
    {
      assert windows[..n][..k] == windows[..k];
    }
  }

  /** Every edge of every window of every run respects the order. */
  lemma {:induction false} RunOrdered(windows: seq<seq<Event>>, outs: seq<seq<Edge>>)
    requires IsRun(windows, outs)
    ensures AllOrdered(Concat(windows), Concat(outs))
  {
    if windows != [] {
      var n := |windows| - 1;
      RunPrefix(windows, outs, n);
      RunOrdered(windows[..n], outs[..n]);
      WindowOrdered(Concat(windows[..n]), windows[n], outs[n]);
      AllOrderedExtends(Concat(windows[..n]), Concat(outs[..n]), windows[n], outs[n]);
    }
  }

  // ---------------------------------------------------------------- no cycles

  function LinksOf(edges: seq<Edge>): (links: Links) {
    set e | e in edges :: (e.fromId, e.toId)
  }

  ghost predicate DistinctIds(history: seq<Event>) {
    forall a, b :: 0 <= a < b < |history| ==> history[a].eventId != history[b].eventId
  }

  lemma BeforeTransitive(history: seq<Event>, a: string, b: string, c: string)
    requires DistinctIds(history) && Before(history, a, b) && Before(history, b, c)
    ensures Before(history, a, c)
  {
    var x: nat, y: nat :| x < |history| && y < |history| && history[x].eventId == a && history[y].eventId == b
                          && Precedes(history, x, y);
    var y': nat, z: nat :| y' < |history| && z < |history| && history[y'].eventId == b && history[z].eventId == c
                           && Precedes(history, y', z);
    assert y == y';
    assert Precedes(history, x, z);
  }

  lemma BeforeIrreflexive(history: seq<Event>, a: string)
    requires DistinctIds(history)
    ensures !Before(history, a, a)
  {
  }

  ghost function BeforeIn(history: seq<Event>): (before: (string, string) -> bool) {
    (a: string, b: string) => Before(history, a, b)
  }

  lemma BeforeIsStrict(history: seq<Event>)
    requires DistinctIds(history)
    ensures Transitive(BeforeIn(history))
    ensures forall v :: !BeforeIn(history)(v, v)
  {
    var before := BeforeIn(history);
    forall a, b, c | before(a, b) && before(b, c)
      ensures before(a, c)
    {
      BeforeTransitive(history, a, b, c);
    }
    forall v
      ensures !before(v, v)
    {
      BeforeIrreflexive(history, v);
    }
  }

  lemma LinksRespect(history: seq<Event>, edges: seq<Edge>)
    requires AllOrdered(history, edges)
    ensures forall l :: l in LinksOf(edges) ==> BeforeIn(history)(l.0, l.1)
  {
    var before := BeforeIn(history);
    forall l | l in LinksOf(edges)
      ensures before(l.0, l.1)
    {
      var e :| e in edges && (e.fromId, e.toId) == l;
      assert Ordered(history, e);
    }
  }

  /** The graph of a whole run has no cycle, provided event ids are unique. */
  lemma RunAcyclic(windows: seq<seq<Event>>, outs: seq<seq<Edge>>)
    requires IsRun(windows, outs) && DistinctIds(Concat(windows))
    ensures Acyclic(LinksOf(Concat(outs)))
  {
    var history := Concat(windows);
    RunOrdered(windows, outs);
    BeforeIsStrict(history);
    LinksRespect(history, Concat(outs));
    OrderedIsAcyclic(LinksOf(Concat(outs)), BeforeIn(history));
  }

  /** In particular nothing an engine has emitted, however it was driven, closes a cycle. */
  lemma EngineAcyclic(engine: Engine)
    requires engine.Valid() && DistinctIds(engine.history)
    ensures Acyclic(LinksOf(Concat(engine.outs)))
  {
    RunAcyclic(engine.windows, engine.outs);
  }

  /** Along a path of a run the layer never drops. */
  lemma ReachKeepsLayer(windows: seq<seq<Event>>, outs: seq<seq<Edge>>, x: nat, y: nat)
    requires IsRun(windows, outs) && DistinctIds(Concat(windows))
    requires x < |Concat(windows)| && y < |Concat(windows)|
    requires Reaches(LinksOf(Concat(outs)), Concat(windows)[x].eventId, Concat(windows)[y].eventId)
    ensures Layer(Concat(windows)[x].eventType) <= Layer(Concat(windows)[y].eventType)
  {
    var history := Concat(windows);
    RunOrdered(windows, outs);
    BeforeIsStrict(history);
    LinksRespect(history, Concat(outs));
    ReachRespects(LinksOf(Concat(outs)), BeforeIn(history), history[x].eventId, history[y].eventId);
    BeforeKeepsLayer(history, x, y);
  }

  lemma BeforeKeepsLayer(history: seq<Event>, x: nat, y: nat)
    requires DistinctIds(history) && x < |history| && y < |history|
    requires Before(history, history[x].eventId, history[y].eventId)
    ensures Layer(history[x].eventType) <= Layer(history[y].eventType)
  {
    var a: nat, b: nat :| a < |history| && b < |history| && history[a].eventId == history[x].eventId
                          && history[b].eventId == history[y].eventId && Precedes(history, a, b);
    assert a == x && b == y;
  }

  /** `at` are positions in the history of the events along a path. */
  ghost predicate Along(history: seq<Event>, path: seq<string>, at: seq<nat>) {
    |at| == |path| && forall k :: 0 <= k < |at| ==> at[k] < |history| && history[at[k]].eventId == path[k]
  }

  /** The path steps up from the lower layer to the upper one after its `k`-th event. */
  predicate StepsUp(history: seq<Event>, at: seq<nat>, k: nat)
    requires k + 1 < |at| && at[k] < |history| && at[k + 1] < |history|
  {
    Layer(history[at[k]].eventType) < Layer(history[at[k + 1]].eventType)
  }

  /** A path steps up at most once. */
  lemma PathCrossesOnce(windows: seq<seq<Event>>, outs: seq<seq<Edge>>, path: seq<string>, at: seq<nat>, j: nat, k: nat)
    requires IsRun(windows, outs) && DistinctIds(Concat(windows))
    requires IsPath(LinksOf(Concat(outs)), path) && Along(Concat(windows), path, at)
    requires j < k < |path| - 1
    ensures !(StepsUp(Concat(windows), at, j) && StepsUp(Concat(windows), at, k))
  {
    LayersAlong(windows, outs, path, at);
    NoSecondStep(Concat(windows), at, j, k);
  }

  ghost predicate LayersRise(history: seq<Event>, at: seq<nat>) {
    forall i, j :: 0 <= i < j < |at| ==>
      at[i] < |history| && at[j] < |history| && Layer(history[at[i]].eventType) <= Layer(history[at[j]].eventType)
  }

  lemma LayersAlong(windows: seq<seq<Event>>, outs: seq<seq<Edge>>, path: seq<string>, at: seq<nat>)
    requires IsRun(windows, outs) && DistinctIds(Concat(windows))
    requires IsPath(LinksOf(Concat(outs)), path) && Along(Concat(windows), path, at)
    ensures LayersRise(Concat(windows), at)
  {
    forall i, j | 0 <= i < j < |at|
      ensures at[i] < |Concat(windows)| && at[j] < |Concat(windows)|
      ensures Layer(Concat(windows)[at[i]].eventType) <= Layer(Concat(windows)[at[j]].eventType)
    {
      LayerAlong(windows, outs, path, at, i, j);
    }
  }

  lemma NoSecondStep(history: seq<Event>, at: seq<nat>, j: nat, k: nat)
    requires LayersRise(history, at) && j < k < |at| - 1 && at[j] < |history| && at[j + 1] < |history|
    requires at[k] < |history| && at[k + 1] < |history|
    ensures !(StepsUp(history, at, j) && StepsUp(history, at, k))
  {
    if j + 1 < k {
      assert Layer(history[at[j + 1]].eventType) <= Layer(history[at[k]].eventType);
    }
  }

  lemma LayerAlong(windows: seq<seq<Event>>, outs: seq<seq<Edge>>, path: seq<string>, at: seq<nat>, i: nat, j: nat)
    requires IsRun(windows, outs) && DistinctIds(Concat(windows))
    requires IsPath(LinksOf(Concat(outs)), path) && Along(Concat(windows), path, at)
    requires i < j < |path|
    ensures at[i] < |Concat(windows)| && at[j] < |Concat(windows)|
    ensures Layer(Concat(windows)[at[i]].eventType) <= Layer(Concat(windows)[at[j]].eventType)
  {
    PartReaches(LinksOf(Concat(outs)), path, i, j);
    ReachKeepsLayer(windows, outs, at[i], at[j]);
  }

  /** Distinct ids are needed: two reads of one thread that share an id make a cycle by themselves. */
  lemma SharedIdMakesCycle(first: Event, second: Event, outs: seq<seq<Edge>>)
    requires first.eventType == second.eventType == SysRead && first.tid == second.tid
    requires first.eventId == second.eventId && first.timestampNs == second.timestampNs
    requires IsRun([[first, second]], outs)
    ensures !Acyclic(LinksOf(Concat(outs)))
  {
    var events := [first, second];
    var edge := TryCreateEdge(first, second, false).value;
    assert edge.fromId == edge.toId == first.eventId;
    assert Between(events, ByThread, 0, 1) == {0};
    assert Linked(events, ByThread, Link(0, 1, edge));
    assert [events][..0] == [];
    assert WindowOutput(Concat([events][..0]), [events][0], outs[0]);
    LinkedIsEmitted([], events, outs[0], Link(0, 1, edge));
    assert outs == [outs[0]] && Concat(outs) == outs[0];
    assert (edge.fromId, edge.toId) in LinksOf(Concat(outs));
    ReachesByLink(LinksOf(Concat(outs)), first.eventId, first.eventId);
  }

  lemma LinkedIsEmitted(history: seq<Event>, events: seq<Event>, edges: seq<Edge>, l: Link)
    requires WindowOutput(history, events, edges) && Linked(events, ByThread, l)
    ensures l.edge in edges
  {
    var byThread: seq<Link>, byProcess: seq<Link>, cross: seq<CrossLink> :|
      && ExactLinks(events, ByThread, byThread) && ExactLinks(events, ByProcess, byProcess)
      && ExactCrossLinks(history + events, |history|, cross)
      && edges == LinkEdges(byThread) + LinkEdges(byProcess) + CrossLinkEdges(cross);
    assert l in byThread;
    var k := IndexOf(byThread, l);
    assert LinkEdges(byThread)[k] == l.edge;
  }

  /** Time is not the reason: a block I/O event may cause a system call that started before it. */
  lemma BlockEdgeAgainstTime(block: Event, call: Event)
    requires block.eventType == BlockIo && block.timestampNs == 1050 && block.durationNs == 100
    requires call.eventType == SysRead && call.timestampNs == 1000 && call.durationNs == 500
    ensures TryCreateCrossProcEdge(block, call).Some?
    ensures TryCreateCrossProcEdge(block, call).value.latencyNs == 50
    ensures block.timestampNs > call.timestampNs
  {
  }

  // ---------------------------------------------------------------- flush boundaries

  /** The retained histories after these windows, trimmed after each one. */
  function Retained(windows: seq<seq<Event>>): (r: (seq<Event>, seq<Event>)) {
    if windows == [] then ([], [])
    else
      var (blockIo, crossProc) := Retained(windows[..|windows| - 1]);
      var events := windows[|windows| - 1];
      (Newest(blockIo + BlockIoOf(events), BLOCK_IO_WIN_SIZE),
       Newest(crossProc + CandidatesOf(events), CROSS_PROC_WIN_SIZE))
  }

  lemma {:induction false} RetainedIsNewest(windows: seq<seq<Event>>)
    ensures Retained(windows) == (Newest(BlockIoOf(Concat(windows)), BLOCK_IO_WIN_SIZE),
                                  Newest(CandidatesOf(Concat(windows)), CROSS_PROC_WIN_SIZE))
  {
    if windows != [] {
      var n := |windows| - 1;
      RetainedIsNewest(windows[..n]);
      RetainedHistory(Concat(windows[..n]), windows[n]);
    }
  }

  /** Where the flushes fell makes no difference to what is retained. */
  lemma RetainedIgnoresBoundaries(windows1: seq<seq<Event>>, windows2: seq<seq<Event>>)
    requires Concat(windows1) == Concat(windows2)
    ensures Retained(windows1) == Retained(windows2)
  {
    RetainedIsNewest(windows1);
    RetainedIsNewest(windows2);
  }
}
