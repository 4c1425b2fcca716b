/** The console's graph, and the edges it infers between nodes. */
module ConsoleGraph {
  import opened KernelEvents
  import opened StableSort
  import opened Paths

  const CAUSAL_WINDOW_NS := 5_000_000

  datatype Layer = Domain | Kernel | Application

  datatype Node = Node(id: string, timestampNs: int, service: string, pid: int, layer: Layer, x: int, y: int)

  datatype GraphEdge = GraphEdge(
    id: string, sourceId: string, targetId: string, latencyMs: real, causeType: Option<string>)

  function EdgeKey(source: string, target: string): (key: string) { source + "->" + target }

  function LinksOf(edges: seq<GraphEdge>): (links: Links) {
    set e | e in edges :: (e.sourceId, e.targetId)
  }

  // ---------------------------------------------------------------- inferring edges

  predicate Related(src: Node, tgt: Node) {
    || src.service == tgt.service
    || src.pid == tgt.pid
    || (src.layer.Kernel? && !tgt.layer.Kernel?)
    || (src.layer.Application? && tgt.layer.Domain?)
  }

  predicate InWindow(src: Node, tgt: Node) { tgt.timestampNs - src.timestampNs <= CAUSAL_WINDOW_NS }

  predicate HasPair(edges: seq<GraphEdge>, source: string, target: string) {
    exists k :: 0 <= k < |edges| && edges[k].sourceId == source && edges[k].targetId == target
  }

  function EdgeBetween(src: Node, tgt: Node): (e: GraphEdge) {
    GraphEdge(EdgeKey(src.id, tgt.id), src.id, tgt.id, (tgt.timestampNs - src.timestampNs) as real / 1_000_000.0, None)
  }

  function ByTime(): (le: (Node, Node) -> bool) { (a: Node, b: Node) => a.timestampNs <= b.timestampNs }

  /** The edges after looking at one pair of nodes, in a scan that looks at every pair. */
  function Look(edges: seq<GraphEdge>, src: Node, tgt: Node): (r: seq<GraphEdge>) {
    if InWindow(src, tgt) && Related(src, tgt) && !HasPair(edges, src.id, tgt.id)
    then edges + [EdgeBetween(src, tgt)] else edges
  }

  function ScanRow(edges: seq<GraphEdge>, sorted: seq<Node>, i: nat, end: nat): (r: seq<GraphEdge>)
    requires i < end <= |sorted|
    decreases end
  {
    if end == i + 1 then edges else Look(ScanRow(edges, sorted, i, end - 1), sorted[i], sorted[end - 1])
  }

  /** The full pairwise scan of the first `n` nodes against all later ones. */
  function Scan(sorted: seq<Node>, n: nat): (r: seq<GraphEdge>)
    requires n <= |sorted|
  {
    if n == 0 then [] else ScanRow(Scan(sorted, n - 1), sorted, n - 1, |sorted|)
  }

  /** Once a row is out of the window, looking further changes nothing. */
  lemma {:induction false} RestOfRowIdle(edges: seq<GraphEdge>, sorted: seq<Node>, i: nat, j: nat, end: nat)
    requires i < j <= end <= |sorted| && SortedBy(sorted, ByTime())
    requires j < end ==> !InWindow(sorted[i], sorted[j])
    ensures ScanRow(edges, sorted, i, end) == ScanRow(edges, sorted, i, j)
    decreases end
  {
    if j < end {
      RestOfRowIdle(edges, sorted, i, j, end - 1);
      assert ByTime()(sorted[j], sorted[end - 1]) || j == end - 1;
    }
  }

  lemma ByTimeIsPreorder()
    ensures Preorder(ByTime())
  {
  }

  /** The loop with its early break gives the edges of the full pairwise scan. */
  method InferEdges(nodes: seq<Node>) returns (edges: seq<GraphEdge>)
    ensures edges == Scan(Sort(nodes, ByTime()), |nodes|)
  {
    var sorted := Sort(nodes, ByTime());
    ByTimeIsPreorder();
    SortSorted(nodes, ByTime());
    edges := [];
    for i := 0 to |sorted|
      invariant edges == Scan(sorted, i)
    {
      edges := InferRow(edges, sorted, i);
    }
  }

  method InferRow(before: seq<GraphEdge>, sorted: seq<Node>, i: nat) returns (edges: seq<GraphEdge>)
    requires i < |sorted| && SortedBy(sorted, ByTime())
    ensures edges == ScanRow(before, sorted, i, |sorted|)
  {
    edges := before;
    var j := i + 1;
    while j < |sorted|
      invariant i < j <= |sorted|
      invariant edges == ScanRow(before, sorted, i, j)
    {
      var src, tgt := sorted[i], sorted[j];
      if tgt.timestampNs - src.timestampNs > CAUSAL_WINDOW_NS {
        RestOfRowIdle(before, sorted, i, j, |sorted|);
        return;
      }
      if Related(src, tgt) && !HasPair(edges, src.id, tgt.id) {
        edges := edges + [EdgeBetween(src, tgt)];
      }
      j := j + 1;
    }
  }

  /** Two positions of the sorted list whose nodes are linked and at most 5 ms apart. */
  predicate Qualifies(sorted: seq<Node>, i: int, j: int) {
    && 0 <= i < j < |sorted|
    && var a, b := sorted[i], sorted[j];
       && b.timestampNs - a.timestampNs <= 5_000_000
       && (|| a.service == b.service || a.pid == b.pid
           || (a.layer == Kernel && b.layer in {Domain, Application})
           || (a.layer == Application && b.layer == Domain))
  }

  /** The edge from one node to another: its ids, and the time between them in milliseconds. */
  predicate Joins(e: GraphEdge, a: Node, b: Node) {
    && e.sourceId == a.id && e.targetId == b.id && e.id == a.id + "->" + b.id && e.causeType == None
    && e.latencyMs * 1_000_000.0 == (b.timestampNs - a.timestampNs) as real
  }

  ghost predicate PairsDistinct(edges: seq<GraphEdge>) {
    forall a, b :: 0 <= a < b < |edges| ==>
      (edges[a].sourceId, edges[a].targetId) != (edges[b].sourceId, edges[b].targetId)
  }

  ghost predicate FromQualifying(edges: seq<GraphEdge>, sorted: seq<Node>) {
    forall k :: 0 <= k < |edges| ==> IsMade(edges[k], sorted)
  }

  ghost predicate IsMade(e: GraphEdge, sorted: seq<Node>) {
    exists i, j :: Qualifies(sorted, i, j) && Joins(e, sorted[i], sorted[j])
  }

  ghost predicate IsSound(edges: seq<GraphEdge>, sorted: seq<Node>) {
    PairsDistinct(edges) && FromQualifying(edges, sorted)
  }

  lemma LookSound(edges: seq<GraphEdge>, sorted: seq<Node>, i: nat, j: nat)
    requires i < j < |sorted| && IsSound(edges, sorted)
    ensures IsSound(Look(edges, sorted[i], sorted[j]), sorted)
  {
    if InWindow(sorted[i], sorted[j]) && Related(sorted[i], sorted[j]) {
      assert Qualifies(sorted, i, j) && Joins(EdgeBetween(sorted[i], sorted[j]), sorted[i], sorted[j]);
    }
  }

  lemma {:induction false} ScanRowSound(edges: seq<GraphEdge>, sorted: seq<Node>, i: nat, end: nat)
    requires i < end <= |sorted| && IsSound(edges, sorted)
    ensures IsSound(ScanRow(edges, sorted, i, end), sorted)
    decreases end
  {
    if end > i + 1 {
      ScanRowSound(edges, sorted, i, end - 1);
      LookSound(ScanRow(edges, sorted, i, end - 1), sorted, i, end - 1);
      assert ScanRow(edges, sorted, i, end) == Look(ScanRow(edges, sorted, i, end - 1), sorted[i], sorted[end - 1]);
    }
  }

  lemma {:induction false} ScanSound(sorted: seq<Node>, n: nat)
    requires n <= |sorted|
    ensures IsSound(Scan(sorted, n), sorted)
  {
    if n > 0 {
      ScanSound(sorted, n - 1);
      ScanRowSound(Scan(sorted, n - 1), sorted, n - 1, |sorted|);
    }
  }

  lemma LookKeeps(edges: seq<GraphEdge>, src: Node, tgt: Node, source: string, target: string)
    requires HasPair(edges, source, target)
    ensures HasPair(Look(edges, src, tgt), source, target)
  {
    var k :| 0 <= k < |edges| && edges[k].sourceId == source && edges[k].targetId == target;
    assert Look(edges, src, tgt)[k] == edges[k];
  }

  lemma LookFinds(edges: seq<GraphEdge>, src: Node, tgt: Node)
    requires InWindow(src, tgt) && Related(src, tgt)
    ensures HasPair(Look(edges, src, tgt), src.id, tgt.id)
  {
    if !HasPair(edges, src.id, tgt.id) {
      assert Look(edges, src, tgt)[|edges|] == EdgeBetween(src, tgt);
    }
  }

  lemma {:induction false} ScanRowFinds(edges: seq<GraphEdge>, sorted: seq<Node>, i: nat, end: nat, j: nat,
                                        source: string, target: string)
    requires i < end <= |sorted|
    requires HasPair(edges, source, target)
             || (Qualifies(sorted, i, j) && j < end && sorted[i].id == source && sorted[j].id == target)
    ensures HasPair(ScanRow(edges, sorted, i, end), source, target)
    decreases end
  {
    if end > i + 1 {
      if j == end - 1 && !HasPair(edges, source, target) {
        LookFinds(ScanRow(edges, sorted, i, end - 1), sorted[i], sorted[j]);
      } else {
        ScanRowFinds(edges, sorted, i, end - 1, j, source, target);
        LookKeeps(ScanRow(edges, sorted, i, end - 1), sorted[i], sorted[end - 1], source, target);
      }
    }
  }

  lemma {:induction false} ScanFinds(sorted: seq<Node>, n: nat, i: nat, j: nat)
    requires i < n <= |sorted| && Qualifies(sorted, i, j)
    ensures HasPair(Scan(sorted, n), sorted[i].id, sorted[j].id)
  {
    if i < n - 1 {
      ScanFinds(sorted, n - 1, i, j);
    }
    ScanRowFinds(Scan(sorted, n - 1), sorted, n - 1, |sorted|, j, sorted[i].id, sorted[j].id);
  }

  /** The given nodes in time order, those of one time in the order given. */
  ghost predicate IsStableTimeOrder(sorted: seq<Node>, nodes: seq<Node>) {
    && multiset(sorted) == multiset(nodes) && SortedBy(sorted, ByTime())
    && forall a: Node :: Ties(sorted, a, ByTime()) == Ties(nodes, a, ByTime())
  }

  lemma SortIsStableTimeOrder(nodes: seq<Node>)
    ensures IsStableTimeOrder(Sort(nodes, ByTime()), nodes)
  {
    ByTimeIsPreorder();
    SortPermutes(nodes, ByTime());
    SortSorted(nodes, ByTime());
    forall a: Node
      ensures Ties(Sort(nodes, ByTime()), a, ByTime()) == Ties(nodes, a, ByTime())
    {
      SortStable(nodes, a, ByTime());
    }
  }

  /**
   * Inferred edges, declaratively: an id pair has an edge exactly when two related nodes with these
   * ids follow each other in stable time order within the window, and then it has one edge only.
   */
  lemma InferredEdgesExact(nodes: seq<Node>, source: string, target: string)
    ensures var sorted := Sort(nodes, ByTime());
            && IsStableTimeOrder(sorted, nodes)
            && PairsDistinct(Scan(sorted, |nodes|)) && FromQualifying(Scan(sorted, |nodes|), sorted)
            && (HasPair(Scan(sorted, |nodes|), source, target) <==>
                exists i, j :: Qualifies(sorted, i, j) && sorted[i].id == source && sorted[j].id == target)
  {
    SortIsStableTimeOrder(nodes);
    ScanSound(Sort(nodes, ByTime()), |nodes|);
    ScanExact(Sort(nodes, ByTime()), source, target);
  }

  lemma ScanExact(sorted: seq<Node>, source: string, target: string)
    ensures HasPair(Scan(sorted, |sorted|), source, target) <==>
            exists i, j :: Qualifies(sorted, i, j) && sorted[i].id == source && sorted[j].id == target
  {
    var edges := Scan(sorted, |sorted|);
    ScanSound(sorted, |sorted|);
    if HasPair(edges, source, target) {
      var k :| 0 <= k < |edges| && edges[k].sourceId == source && edges[k].targetId == target;
      var i, j :| Qualifies(sorted, i, j) && Joins(edges[k], sorted[i], sorted[j]);
    }
    if i, j :| Qualifies(sorted, i, j) && sorted[i].id == source && sorted[j].id == target {
      ScanFinds(sorted, |sorted|, i, j);
    }
  }
}
