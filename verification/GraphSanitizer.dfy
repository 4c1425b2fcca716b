/** Sanitising a graph before layout, and the paths highlighted in it. */
module GraphSanitizer {
  import opened KernelEvents
  import opened Sequences
  import opened Paths
  import opened ConsoleGraph
  import opened OrderedMap

  function ById(): (keyOf: Node -> string) { (n: Node) => n.id }

  function EdgeId(): (keyOf: GraphEdge -> string) { (e: GraphEdge) => e.id }

  /** One node per id: the last one given, at the place of the first. */
  function UniqueNodes(nodes: seq<Node>): (r: seq<Node>) { FromList(nodes, ById()) }

  function NodeOf(nodes: seq<Node>, id: string): (r: Option<Node>)
    ensures r.Some? ==> r.value.id == id
  {
    Find(nodes, ById(), id)
  }

  /** A node with the first id was given before any with the second. */
  ghost predicate FirstGiven(nodes: seq<Node>, first: string, second: string) {
    exists i :: 0 <= i < |nodes| && nodes[i].id == first && forall m :: 0 <= m <= i ==> nodes[m].id != second
  }

  /**
   * The unique nodes have distinct ids, all ids that were given, in the order in which they were
   * first given, and each the last data given for its id.
   */
  lemma UniqueNodesExact(nodes: seq<Node>)
    ensures DistinctKeys(UniqueNodes(nodes), ById())
    ensures forall id :: HasKey(UniqueNodes(nodes), ById(), id) <==> HasKey(nodes, ById(), id)
    ensures forall n :: n in UniqueNodes(nodes) ==>
              exists k :: 0 <= k < |nodes| && nodes[k] == n && forall m :: k < m < |nodes| ==> nodes[m].id != n.id
    ensures forall a, b :: 0 <= a < b < |UniqueNodes(nodes)| ==>
              FirstGiven(nodes, UniqueNodes(nodes)[a].id, UniqueNodes(nodes)[b].id)
  {
    forall a, b | 0 <= a < b < |UniqueNodes(nodes)|
      ensures FirstGiven(nodes, UniqueNodes(nodes)[a].id, UniqueNodes(nodes)[b].id)
    {
      var i := FromListByFirst(nodes, ById(), a, b);
      assert forall m :: 0 <= m <= i ==> ById()(nodes[m]) == nodes[m].id;
    }
    FromListDistinct(nodes, ById());
    forall id
      ensures HasKey(UniqueNodes(nodes), ById(), id) <==> HasKey(nodes, ById(), id)
    {
      FromListKeys(nodes, ById(), id);
    }
    forall n | n in UniqueNodes(nodes)
      ensures exists k :: 0 <= k < |nodes| && nodes[k] == n && forall m :: k < m < |nodes| ==> nodes[m].id != n.id
    {
      var k := EntryIsLast(nodes, ById(), n);
    }
  }

  // ---------------------------------------------------------------- valid edges

  /** What is assumed of the locale comparison of ids: a strict order. */
  ghost predicate StrictOrder(less: (string, string) -> bool) {
    Transitive(less) && forall v :: !less(v, v)
  }

  predicate PointsForward(less: (string, string) -> bool, source: Node, target: Node) {
    source.timestampNs < target.timestampNs || (source.timestampNs == target.timestampNs && less(source.id, target.id))
  }

  /** An edge between two different known nodes that points forward. */
  predicate ValidPair(less: (string, string) -> bool, nodes: seq<Node>, source: string, target: string) {
    var s, t := NodeOf(nodes, source), NodeOf(nodes, target);
    s.Some? && t.Some? && source != target && PointsForward(less, s.value, t.value)
  }

  /** A pair is valid when both nodes are known and the source is earlier, or as late with the smaller id. */
  lemma ValidPairMeaning(less: (string, string) -> bool, nodes: seq<Node>, a: string, b: string)
    requires DistinctKeys(nodes, ById())
    ensures ValidPair(less, nodes, a, b) <==>
            && a != b
            && exists i, j ::
                 && 0 <= i < |nodes| && 0 <= j < |nodes| && nodes[i].id == a && nodes[j].id == b
                 && (nodes[i].timestampNs < nodes[j].timestampNs
                     || (nodes[i].timestampNs == nodes[j].timestampNs && less(a, b)))
  {
    if ValidPair(less, nodes, a, b) {
      var i := IndexOf(nodes, NodeOf(nodes, a).value);
      var j := IndexOf(nodes, NodeOf(nodes, b).value);
      assert nodes[i].id == a && nodes[j].id == b;
    }
    if i, j :| && 0 <= i < |nodes| && 0 <= j < |nodes| && nodes[i].id == a && nodes[j].id == b
               && (nodes[i].timestampNs < nodes[j].timestampNs
                   || (nodes[i].timestampNs == nodes[j].timestampNs && less(a, b)))
    {
      FindEntry(nodes, ById(), i);
      FindEntry(nodes, ById(), j);
    }
  }

  function KeepEdge(less: (string, string) -> bool, nodes: seq<Node>, kept: seq<GraphEdge>, edge: GraphEdge)
    : (r: seq<GraphEdge>)
  {
    var key := EdgeKey(edge.sourceId, edge.targetId);
    if ValidPair(less, nodes, edge.sourceId, edge.targetId) && !HasKey(kept, EdgeId(), key)
    then kept + [edge.(id := key)] else kept
  }

  function CleanEdges(less: (string, string) -> bool, nodes: seq<Node>, edges: seq<GraphEdge>): (r: seq<GraphEdge>) {
    if edges == [] then []
    else KeepEdge(less, nodes, CleanEdges(less, nodes, edges[..|edges| - 1]), edges[|edges| - 1])
  }

  method SanitizeGraph(less: (string, string) -> bool, nodes: seq<Node>, edges: seq<GraphEdge>)
    returns (cleanNodes: seq<Node>, cleanEdges: seq<GraphEdge>)
    ensures cleanNodes == UniqueNodes(nodes)
    ensures cleanEdges == CleanEdges(less, UniqueNodes(nodes), edges)
  {
    cleanNodes := [];
    for k := 0 to |nodes|
      invariant cleanNodes == UniqueNodes(nodes[..k])
    {
      cleanNodes := Put(cleanNodes, ById(), nodes[k]);
      assert nodes[..k + 1][..k] == nodes[..k];
    }
    assert nodes[..|nodes|] == nodes;
    cleanEdges := [];
    for k := 0 to |edges|
      invariant cleanEdges == CleanEdges(less, cleanNodes, edges[..k])
    {
      var edge := edges[k];
      var source, target := NodeOf(cleanNodes, edge.sourceId), NodeOf(cleanNodes, edge.targetId);
      assert edges[..k + 1][..k] == edges[..k];
      if source.Some? && target.Some? && edge.sourceId != edge.targetId
         && PointsForward(less, source.value, target.value) {
        var key := EdgeKey(edge.sourceId, edge.targetId);
        if !HasKey(cleanEdges, EdgeId(), key) {
          cleanEdges := cleanEdges + [edge.(id := key)];
        }
      }
    }
    assert edges[..|edges|] == edges;
  }

  /** What every kept edge satisfies. */
  ghost predicate Clean(less: (string, string) -> bool, nodes: seq<Node>, edges: seq<GraphEdge>) {
    && (forall k :: 0 <= k < |edges| ==>
          && ValidPair(less, nodes, edges[k].sourceId, edges[k].targetId)
          && edges[k].id == EdgeKey(edges[k].sourceId, edges[k].targetId))
    && DistinctKeys(edges, EdgeId())
  }

  lemma {:induction false} CleanEdgesClean(less: (string, string) -> bool, nodes: seq<Node>, edges: seq<GraphEdge>)
    ensures Clean(less, nodes, CleanEdges(less, nodes, edges))
  {
    if edges != [] {
      CleanEdgesClean(less, nodes, edges[..|edges| - 1]);
    }
  }

  /** Cleaning a clean graph changes nothing. */
  lemma {:induction false} CleanEdgesFixed(less: (string, string) -> bool, nodes: seq<Node>, edges: seq<GraphEdge>)
    requires Clean(less, nodes, edges)
    ensures CleanEdges(less, nodes, edges) == edges
  {
    if edges != [] {
      var n := |edges| - 1;
      CleanPrefix(less, nodes, edges, n);
      CleanEdgesFixed(less, nodes, edges[..n]);
      LastIsKept(less, nodes, edges);
    }
  }

  lemma LastIsKept(less: (string, string) -> bool, nodes: seq<Node>, edges: seq<GraphEdge>)
    requires edges != [] && Clean(less, nodes, edges) && !HasKey(edges[..|edges| - 1], EdgeId(), edges[|edges| - 1].id)
    ensures KeepEdge(less, nodes, edges[..|edges| - 1], edges[|edges| - 1]) == edges
  {
    var n := |edges| - 1;
    KeepsClean(less, nodes, edges[..n], edges[n]);
    assert edges == edges[..n] + [edges[n]];
  }

  lemma KeepsClean(less: (string, string) -> bool, nodes: seq<Node>, kept: seq<GraphEdge>, edge: GraphEdge)
    requires ValidPair(less, nodes, edge.sourceId, edge.targetId) && edge.id == EdgeKey(edge.sourceId, edge.targetId)
    requires !HasKey(kept, EdgeId(), edge.id)
    ensures KeepEdge(less, nodes, kept, edge) == kept + [edge]
  {
    assert edge.(id := edge.id) == edge;
  }

  lemma CleanPrefix(less: (string, string) -> bool, nodes: seq<Node>, edges: seq<GraphEdge>, n: nat)
    requires Clean(less, nodes, edges) && n < |edges|
    ensures Clean(less, nodes, edges[..n]) && !HasKey(edges[..n], EdgeId(), edges[n].id)
  {
  }

  lemma SanitizeIdempotent(less: (string, string) -> bool, nodes: seq<Node>, edges: seq<GraphEdge>)
    ensures var n, e := UniqueNodes(nodes), CleanEdges(less, UniqueNodes(nodes), edges);
            UniqueNodes(n) == n && CleanEdges(less, UniqueNodes(n), e) == e
  {
    FromListDistinct(nodes, ById());
    FromListFixed(UniqueNodes(nodes), ById());
    CleanEdgesClean(less, UniqueNodes(nodes), edges);
    CleanEdgesFixed(less, UniqueNodes(nodes), CleanEdges(less, UniqueNodes(nodes), edges));
  }

  // ---------------------------------------------------------------- no cycles

  lemma NotBothWays(less: (string, string) -> bool, a: string, b: string)
    requires StrictOrder(less)
    ensures !(less(a, b) && less(b, a))
  {
    assert less(a, b) && less(b, a) ==> less(a, a);
  }

  lemma ValidPairsOrdered(less: (string, string) -> bool, nodes: seq<Node>)
    requires StrictOrder(less)
    ensures Transitive((a: string, b: string) => ValidPair(less, nodes, a, b))
  {
    var valid := (a: string, b: string) => ValidPair(less, nodes, a, b);
    forall a, b, c | valid(a, b) && valid(b, c)
      ensures valid(a, c)
    {
      NotBothWays(less, a, b);
    }
  }

  /** A sanitised graph has no cycle, whatever the input. */
  lemma SanitizedAcyclic(less: (string, string) -> bool, nodes: seq<Node>, edges: seq<GraphEdge>)
    requires StrictOrder(less)
    ensures Acyclic(LinksOf(CleanEdges(less, UniqueNodes(nodes), edges)))
  {
    var unique := UniqueNodes(nodes);
    var clean := CleanEdges(less, unique, edges);
    var valid := (a: string, b: string) => ValidPair(less, unique, a, b);
    CleanEdgesClean(less, unique, edges);
    ValidPairsOrdered(less, unique);
    OrderedIsAcyclic(LinksOf(clean), valid);
  }

  // ---------------------------------------------------------------- which edges are kept

  predicate ArrowFree(id: string) {
    forall k :: 0 <= k < |id| - 1 ==> !(id[k] == '-' && id[k + 1] == '>')
  }

  /** A shorter source puts its arrow where the longer one has none. */
  lemma ShorterSource(s1: string, t1: string, s2: string, t2: string)
    requires ArrowFree(s2) && |s1| < |s2|
    ensures EdgeKey(s1, t1) != EdgeKey(s2, t2)
  {
    var key1, key2, n := EdgeKey(s1, t1), EdgeKey(s2, t2), |s1|;
    assert key1[n] == '-' && key1[n + 1] == '>';
    assert key2[n] == s2[n];
    assert key2[n + 1] == if n + 1 < |s2| then s2[n + 1] else '-';
    assert key1[n] != key2[n] || key1[n + 1] != key2[n + 1];
  }

  /** Without an arrow in the source id the key determines the pair. */
  lemma KeyDeterminesPair(s1: string, t1: string, s2: string, t2: string)
    requires ArrowFree(s1) && ArrowFree(s2) && EdgeKey(s1, t1) == EdgeKey(s2, t2)
    ensures s1 == s2 && t1 == t2
  {
    SameLengthSources(s1, t1, s2, t2);
    var key := EdgeKey(s1, t1);
    assert s1 == key[..|s1|] && s2 == key[..|s2|];
    assert t1 == key[|s1| + 2..] && t2 == key[|s2| + 2..];
  }

  lemma SameLengthSources(s1: string, t1: string, s2: string, t2: string)
    requires ArrowFree(s1) && ArrowFree(s2)
    ensures EdgeKey(s1, t1) == EdgeKey(s2, t2) ==> |s1| == |s2|
  {
    if |s1| < |s2| {
      ShorterSource(s1, t1, s2, t2);
    } else if |s2| < |s1| {
      ShorterSource(s2, t2, s1, t1);
    }
  }

  /** Valid edges that share the key of this pair are edges of this pair. */
  ghost predicate KeyTellsPair(less: (string, string) -> bool, nodes: seq<Node>, edges: seq<GraphEdge>,
                               source: string, target: string)
  {
    forall k :: 0 <= k < |edges| && ValidPair(less, nodes, edges[k].sourceId, edges[k].targetId)
                && EdgeKey(edges[k].sourceId, edges[k].targetId) == EdgeKey(source, target) ==>
      IsPair(edges[k], source, target)
  }

  ghost predicate KeysTellPairs(less: (string, string) -> bool, nodes: seq<Node>, edges: seq<GraphEdge>) {
    forall m :: 0 <= m < |edges| && ValidPair(less, nodes, edges[m].sourceId, edges[m].targetId) ==>
      KeyTellsPair(less, nodes, edges, edges[m].sourceId, edges[m].targetId)
  }

  /** Source ids without an arrow are enough. */
  lemma ArrowFreeKeysTellPairs(less: (string, string) -> bool, nodes: seq<Node>, edges: seq<GraphEdge>)
    requires forall k :: 0 <= k < |edges| ==> ArrowFree(edges[k].sourceId)
    ensures KeysTellPairs(less, nodes, edges)
  {
    forall m, k | 0 <= m < |edges| && 0 <= k < |edges|
                  && EdgeKey(edges[k].sourceId, edges[k].targetId) == EdgeKey(edges[m].sourceId, edges[m].targetId)
      ensures IsPair(edges[k], edges[m].sourceId, edges[m].targetId)
    {
      KeyDeterminesPair(edges[k].sourceId, edges[k].targetId, edges[m].sourceId, edges[m].targetId);
    }
  }

  predicate IsPair(e: GraphEdge, source: string, target: string) { e.sourceId == source && e.targetId == target }

  /** The first edge given for a pair. */
  function FirstOf(edges: seq<GraphEdge>, source: string, target: string): (r: Option<GraphEdge>) {
    if edges == [] then None
    else
      var earlier := FirstOf(edges[..|edges| - 1], source, target);
      if earlier.None? && IsPair(edges[|edges| - 1], source, target) then Some(edges[|edges| - 1]) else earlier
  }

  lemma {:induction false} FirstOfIsFirst(edges: seq<GraphEdge>, k: nat, source: string, target: string)
    requires k < |edges| && IsPair(edges[k], source, target)
    requires forall m :: 0 <= m < k ==> !IsPair(edges[m], source, target)
    ensures FirstOf(edges, source, target) == Some(edges[k])
  {
    var n := |edges| - 1;
    if k < n {
      FirstOfIsFirst(edges[..n], k, source, target);
    } else {
      NoneIfAbsent(edges[..n], source, target);
    }
  }

  lemma {:induction false} NoneIfAbsent(edges: seq<GraphEdge>, source: string, target: string)
    requires forall m :: 0 <= m < |edges| ==> !IsPair(edges[m], source, target)
    ensures FirstOf(edges, source, target).None?
  {
    if edges != [] {
      NoneIfAbsent(edges[..|edges| - 1], source, target);
    }
  }

  lemma HasKeyAppend(edges: seq<GraphEdge>, e: GraphEdge, key: string)
    ensures HasKey(edges + [e], EdgeId(), key) <==> HasKey(edges, EdgeId(), key) || e.id == key
  {
    if HasKey(edges, EdgeId(), key) {
      var k :| 0 <= k < |edges| && edges[k].id == key;
      assert (edges + [e])[k].id == key;
    }
    assert (edges + [e])[|edges|] == e;
  }

  /** The key of a valid pair is taken exactly when an edge of that pair was given. */
  lemma {:induction false} KeyTaken(less: (string, string) -> bool, nodes: seq<Node>, edges: seq<GraphEdge>,
                                    source: string, target: string)
    requires ValidPair(less, nodes, source, target) && KeyTellsPair(less, nodes, edges, source, target)
    ensures HasKey(CleanEdges(less, nodes, edges), EdgeId(), EdgeKey(source, target))
            <==> FirstOf(edges, source, target).Some?
  {
    if edges != [] {
      var n := |edges| - 1;
      var front, last := edges[..n], edges[n];
      KeyTaken(less, nodes, front, source, target);
      var kept := last.(id := EdgeKey(last.sourceId, last.targetId));
      HasKeyAppend(CleanEdges(less, nodes, front), kept, EdgeKey(source, target));
      assert IsPair(last, source, target) ==> ValidPair(less, nodes, last.sourceId, last.targetId);
    }
  }

  /** The edge is the first one given for a valid pair, under the key of that pair. */
  ghost predicate IsFirstOfItsPair(less: (string, string) -> bool, nodes: seq<Node>, edges: seq<GraphEdge>,
                                   e: GraphEdge)
  {
    var first := FirstOf(edges, e.sourceId, e.targetId);
    && ValidPair(less, nodes, e.sourceId, e.targetId)
    && first.Some? && e == first.value.(id := EdgeKey(e.sourceId, e.targetId))
  }

  /** For every valid pair that occurs, exactly its first edge is kept; for any other pair, none. */
  lemma {:induction false} KeptExactlyFirst(less: (string, string) -> bool, nodes: seq<Node>, edges: seq<GraphEdge>,
                                            e: GraphEdge)
    requires KeysTellPairs(less, nodes, edges)
    ensures e in CleanEdges(less, nodes, edges) <==> IsFirstOfItsPair(less, nodes, edges, e)
  {
    if edges != [] {
      var n := |edges| - 1;
      var front, last := edges[..n], edges[n];
      KeysTellPairsPrefix(less, nodes, edges, n);
      KeptExactlyFirst(less, nodes, front, e);
      if ValidPair(less, nodes, last.sourceId, last.targetId) {
        KeyTaken(less, nodes, front, last.sourceId, last.targetId);
      }
    }
  }

  lemma KeysTellPairsPrefix(less: (string, string) -> bool, nodes: seq<Node>, edges: seq<GraphEdge>, n: nat)
    requires KeysTellPairs(less, nodes, edges) && n < |edges|
    ensures KeysTellPairs(less, nodes, edges[..n])
    ensures ValidPair(less, nodes, edges[n].sourceId, edges[n].targetId) ==>
              KeyTellsPair(less, nodes, edges[..n], edges[n].sourceId, edges[n].targetId)
  {
    forall m | 0 <= m <= n && ValidPair(less, nodes, edges[m].sourceId, edges[m].targetId)
      ensures KeyTellsPair(less, nodes, edges[..n], edges[m].sourceId, edges[m].targetId)
    {
      assert KeyTellsPair(less, nodes, edges, edges[m].sourceId, edges[m].targetId);
    }
  }

  /** The condition is exact: when two valid pairs share a key, one of them loses its edge. */
  lemma KeptExactlyFirstIff(less: (string, string) -> bool, nodes: seq<Node>, edges: seq<GraphEdge>)
    ensures (forall e :: e in CleanEdges(less, nodes, edges) <==> IsFirstOfItsPair(less, nodes, edges, e))
            <==> KeysTellPairs(less, nodes, edges)
  {
    if KeysTellPairs(less, nodes, edges) {
      forall e
        ensures e in CleanEdges(less, nodes, edges) <==> IsFirstOfItsPair(less, nodes, edges, e)
      {
        KeptExactlyFirst(less, nodes, edges, e);
      }
    }
    if forall e :: e in CleanEdges(less, nodes, edges) <==> IsFirstOfItsPair(less, nodes, edges, e) {
      forall m, k | 0 <= m < |edges| && 0 <= k < |edges|
                    && ValidPair(less, nodes, edges[m].sourceId, edges[m].targetId)
                    && ValidPair(less, nodes, edges[k].sourceId, edges[k].targetId)
                    && EdgeKey(edges[k].sourceId, edges[k].targetId) == EdgeKey(edges[m].sourceId, edges[m].targetId)
        ensures IsPair(edges[k], edges[m].sourceId, edges[m].targetId)
      {
        var a := KeptFor(less, nodes, edges, k);
        var b := KeptFor(less, nodes, edges, m);
        SameKeySameEdge(less, nodes, edges, a, b);
      }
    }
  }

  /** Of two valid edges with one key only the first is kept. */
  lemma SecondOfKeyIsDropped(less: (string, string) -> bool, nodes: seq<Node>, first: GraphEdge, second: GraphEdge)
    requires ValidPair(less, nodes, first.sourceId, first.targetId)
    requires EdgeKey(first.sourceId, first.targetId) == EdgeKey(second.sourceId, second.targetId)
    ensures var key := EdgeKey(first.sourceId, first.targetId);
            CleanEdges(less, nodes, [first, second]) == [first.(id := key)]
  {
    var kept := [first.(id := EdgeKey(first.sourceId, first.targetId))];
    assert [first, second][..1] == [first] && [first][..0] == [];
    assert CleanEdges(less, nodes, [first]) == kept;
    assert EdgeId()(kept[0]) == EdgeKey(second.sourceId, second.targetId);
  }

  function PlainNode(id: string, time: int): (n: Node) { Node(id, time, "", 0, Kernel, 0, 0) }

  function PlainEdge(source: string, target: string): (e: GraphEdge) { GraphEdge("", source, target, 0.0, None) }

  const ARROW_NODES := [PlainNode("a->b", 1), PlainNode("c", 2), PlainNode("a", 3), PlainNode("b->c", 4)]

  lemma ArrowNodesDistinct()
    ensures DistinctKeys(ARROW_NODES, ById())
  {
    var ids := ["a->b", "c", "a", "b->c"];
    assert |ids[0]| == |ids[3]| == 4 && |ids[1]| == |ids[2]| == 1;
    assert ids[0][0] == 'a' && ids[3][0] == 'b' && ids[1][0] == 'c' && ids[2][0] == 'a';
    assert forall k :: 0 <= k < 4 ==> ById()(ARROW_NODES[k]) == ids[k];
  }

  lemma ArrowPairValid(less: (string, string) -> bool, i: nat, j: nat)
    requires i < j < 4
    ensures ValidPair(less, ARROW_NODES, ARROW_NODES[i].id, ARROW_NODES[j].id)
  {
    ArrowNodesDistinct();
    FindEntry(ARROW_NODES, ById(), i);
    FindEntry(ARROW_NODES, ById(), j);
    assert ById()(ARROW_NODES[i]) != ById()(ARROW_NODES[j]);
  }

  lemma ArrowKeysCollide()
    ensures EdgeKey("a->b", "c") == "a->b->c" == EdgeKey("a", "b->c") && "a->b" != "a"
  {
    assert |"a->b"| == 4;
  }

  lemma CollisionNotTold(less: (string, string) -> bool, nodes: seq<Node>, first: GraphEdge, second: GraphEdge)
    requires ValidPair(less, nodes, first.sourceId, first.targetId)
    requires ValidPair(less, nodes, second.sourceId, second.targetId)
    requires EdgeKey(first.sourceId, first.targetId) == EdgeKey(second.sourceId, second.targetId)
    requires first.sourceId != second.sourceId
    ensures !KeysTellPairs(less, nodes, [first, second])
  {
    var edges := [first, second];
    assert edges[0] == first && edges[1] == second;
    assert !KeyTellsPair(less, nodes, edges, edges[1].sourceId, edges[1].targetId);
  }

  /** An input on which it fails: two valid pairs with one key, of which the second loses its edge. */
  lemma CollidingKeysLoseAnEdge(less: (string, string) -> bool)
    ensures UniqueNodes(ARROW_NODES) == ARROW_NODES
    ensures ValidPair(less, ARROW_NODES, "a->b", "c") && ValidPair(less, ARROW_NODES, "a", "b->c")
    ensures var first, second := PlainEdge("a->b", "c"), PlainEdge("a", "b->c");
            && CleanEdges(less, ARROW_NODES, [first, second]) == [first.(id := "a->b->c")]
            && !KeysTellPairs(less, ARROW_NODES, [first, second])
  {
    ArrowKeysCollide();
    ArrowPairValid(less, 0, 1);
    ArrowPairValid(less, 2, 3);
    SecondOfKeyIsDropped(less, ARROW_NODES, PlainEdge("a->b", "c"), PlainEdge("a", "b->c"));
    CollisionNotTold(less, ARROW_NODES, PlainEdge("a->b", "c"), PlainEdge("a", "b->c"));
    ArrowNodesUnique();
  }

  lemma ArrowNodesUnique()
    ensures UniqueNodes(ARROW_NODES) == ARROW_NODES
  {
    ArrowNodesDistinct();
    FromListFixed(ARROW_NODES, ById());
  }

  /** The edge that a given valid edge's pair should keep. */
  lemma KeptFor(less: (string, string) -> bool, nodes: seq<Node>, edges: seq<GraphEdge>, k: nat) returns (e: GraphEdge)
    requires k < |edges| && ValidPair(less, nodes, edges[k].sourceId, edges[k].targetId)
    ensures IsFirstOfItsPair(less, nodes, edges, e)
    ensures IsPair(e, edges[k].sourceId, edges[k].targetId) && e.id == EdgeKey(edges[k].sourceId, edges[k].targetId)
  {
    var source, target := edges[k].sourceId, edges[k].targetId;
    FirstExists(edges, k);
    e := FirstOf(edges, source, target).value.(id := EdgeKey(source, target));
  }

  lemma {:induction false} FirstExists(edges: seq<GraphEdge>, k: nat)
    requires k < |edges|
    ensures var first := FirstOf(edges, edges[k].sourceId, edges[k].targetId);
            first.Some? && IsPair(first.value, edges[k].sourceId, edges[k].targetId)
  {
    var n := |edges| - 1;
    if k < n {
      FirstExists(edges[..n], k);
    } else {
      FirstIsPair(edges[..n], edges[k].sourceId, edges[k].targetId);
    }
  }

  lemma {:induction false} FirstIsPair(edges: seq<GraphEdge>, source: string, target: string)
    ensures var first := FirstOf(edges, source, target); first.Some? ==> IsPair(first.value, source, target)
  {
    if edges != [] {
      FirstIsPair(edges[..|edges| - 1], source, target);
    }
  }

  lemma SameKeySameEdge(less: (string, string) -> bool, nodes: seq<Node>, edges: seq<GraphEdge>,
                        a: GraphEdge, b: GraphEdge)
    requires a in CleanEdges(less, nodes, edges) && b in CleanEdges(less, nodes, edges) && a.id == b.id
    ensures a == b
  {
    var clean := CleanEdges(less, nodes, edges);
    CleanEdgesClean(less, nodes, edges);
    var i := IndexOf(clean, a);
    var j := IndexOf(clean, b);
    assert EdgeId()(clean[i]) == EdgeId()(clean[j]);
  }

  // ---------------------------------------------------------------- highlighted paths

  function StepFrom(e: GraphEdge, backwards: bool): (id: string) { if backwards then e.targetId else e.sourceId }

  function StepTo(e: GraphEdge, backwards: bool): (id: string) { if backwards then e.sourceId else e.targetId }

  function StepLinks(edges: seq<GraphEdge>, backwards: bool): (links: Links) {
    set e | e in edges :: (StepFrom(e, backwards), StepTo(e, backwards))
  }

  function Targets(edges: seq<GraphEdge>, backwards: bool): (ids: set<string>) {
    set e | e in edges :: StepTo(e, backwards)
  }

  /** Everything found so far is reachable, and whatever is not queued has been followed. */
  ghost predicate SearchState(edges: seq<GraphEdge>, backwards: bool, start: string,
                              visited: set<string>, queue: seq<string>)
  {
    && visited <= Targets(edges, backwards)
    && (forall v :: v in visited ==> Reaches(StepLinks(edges, backwards), start, v))
    && (forall v :: v in queue ==> v == start || v in visited)
    && forall e :: e in edges && (StepFrom(e, backwards) == start || StepFrom(e, backwards) in visited) ==>
         StepFrom(e, backwards) in queue || StepTo(e, backwards) in visited
  }

  lemma FoundIsReachable(edges: seq<GraphEdge>, backwards: bool, start: string, e: GraphEdge)
    requires e in edges
    requires StepFrom(e, backwards) == start || Reaches(StepLinks(edges, backwards), start, StepFrom(e, backwards))
    ensures Reaches(StepLinks(edges, backwards), start, StepTo(e, backwards))
  {
    var links := StepLinks(edges, backwards);
    assert (StepFrom(e, backwards), StepTo(e, backwards)) in links;
    if StepFrom(e, backwards) == start {
      ReachesByLink(links, start, StepTo(e, backwards));
    } else {
      ReachesOneMore(links, start, StepFrom(e, backwards), StepTo(e, backwards));
    }
  }

  /** Breadth-first search over the edges, in one direction; cycles do not matter. */
  method Search(start: string, edges: seq<GraphEdge>, backwards: bool) returns (visited: set<string>)
    ensures forall v :: v in visited <==> Reaches(StepLinks(edges, backwards), start, v)
  {
    visited := {};
    var queue := [start];
    while queue != []
      invariant SearchState(edges, backwards, start, visited, queue)
      decreases |Targets(edges, backwards) - visited|, |queue|
    {
      var cur := queue[0];
      ghost var before, length := visited, |queue|;
      visited, queue := Follow(edges, backwards, start, visited, queue);
      if visited != before {
        Shrinks(Targets(edges, backwards), before, visited);
      }
    }
    SearchComplete(edges, backwards, start, visited);
  }

  lemma Shrinks(all: set<string>, before: set<string>, after: set<string>)
    requires before < after <= all
    ensures |all - after| < |all - before|
  {
    var v :| v in after && v !in before;
    assert all - after <= all - before - {v};
    SubsetCard(all - after, all - before - {v});
  }

  lemma SearchComplete(edges: seq<GraphEdge>, backwards: bool, start: string, visited: set<string>)
    requires SearchState(edges, backwards, start, visited, [])
    ensures forall v :: v in visited <==> Reaches(StepLinks(edges, backwards), start, v)
  {
    var links := StepLinks(edges, backwards);
    forall v | Reaches(links, start, v)
      ensures v in visited
    {
      var path :| Connects(links, path, start, v);
      ClosedHoldsPath(links, start, visited, path);
    }
  }

  /** One round: takes the head of the queue and queues its unvisited neighbours. */
  method Follow(edges: seq<GraphEdge>, backwards: bool, start: string, visited: set<string>, queue: seq<string>)
    returns (visited': set<string>, queue': seq<string>)
    requires queue != [] && SearchState(edges, backwards, start, visited, queue)
    ensures SearchState(edges, backwards, start, visited', queue')
    ensures visited < visited' || (visited' == visited && queue' == queue[1..])
  {
    var cur := queue[0];
    visited', queue' := visited, queue[1..];
    for k := 0 to |edges|
      invariant visited <= visited' <= Targets(edges, backwards)
      invariant visited' == visited ==> queue' == queue[1..]
      invariant forall v :: v in visited' ==> Reaches(StepLinks(edges, backwards), start, v)
      invariant forall v :: v in queue' ==> v == start || v in visited'
      invariant forall v :: v in queue && v != cur ==> v in queue'
      invariant forall v :: v in visited' && v !in visited ==> v in queue'
      invariant forall m :: 0 <= m < k && StepFrom(edges[m], backwards) == cur ==>
                  StepTo(edges[m], backwards) in visited'
    {
      var e := edges[k];
      if StepFrom(e, backwards) == cur && StepTo(e, backwards) !in visited' {
        FoundIsReachable(edges, backwards, start, e);
        visited', queue' := visited' + {StepTo(e, backwards)}, queue' + [StepTo(e, backwards)];
      }
    }
    forall e | e in edges && (StepFrom(e, backwards) == start || StepFrom(e, backwards) in visited')
      ensures StepFrom(e, backwards) in queue' || StepTo(e, backwards) in visited'
    {
      var m :| 0 <= m < |edges| && edges[m] == e;
    }
  }

  lemma StepLinksReversed(edges: seq<GraphEdge>)
    ensures StepLinks(edges, false) == LinksOf(edges) && StepLinks(edges, true) == Reversed(LinksOf(edges))
  {
    forall l
      ensures l in StepLinks(edges, true) <==> l in Reversed(LinksOf(edges))
    {
      if l in StepLinks(edges, true) {
        var e :| e in edges && (e.targetId, e.sourceId) == l;
        assert (e.sourceId, e.targetId) in LinksOf(edges);
      }
    }
  }

  /** The highlighted ids: the node, all that reach it, and all it reaches. */
  method GetPathIds(nodeId: string, edges: seq<GraphEdge>) returns (ids: set<string>)
    ensures forall v :: v in ids <==>
              v == nodeId || Reaches(LinksOf(edges), v, nodeId) || Reaches(LinksOf(edges), nodeId, v)
  {
    var ancestors := Search(nodeId, edges, true);
    var descendants := Search(nodeId, edges, false);
    StepLinksReversed(edges);
    forall v
      ensures v in ancestors <==> Reaches(LinksOf(edges), v, nodeId)
    {
      ReversedReachesIff(LinksOf(edges), v, nodeId);
    }
    ids := ancestors + {nodeId} + descendants;
  }

  /** On a sanitised graph the two directions share no node, and neither leads back to the start. */
  lemma DirectionsDisjoint(less: (string, string) -> bool, nodes: seq<Node>, edges: seq<GraphEdge>,
                           start: string, v: string)
    requires StrictOrder(less)
    ensures var links := LinksOf(CleanEdges(less, UniqueNodes(nodes), edges));
            !Reaches(links, start, start) && !(Reaches(links, v, start) && Reaches(links, start, v))
  {
    SanitizedAcyclic(less, nodes, edges);
    var links := LinksOf(CleanEdges(less, UniqueNodes(nodes), edges));
    if Reaches(links, v, start) && Reaches(links, start, v) {
      ReachesTransitive(links, start, v, start);
    }
  }
}
