/**
 * The thread pass and the process pass over one window, and the declarative description of the
 * pairs they link.
 */
module WindowLinks {
  import opened KernelEvents
  import opened CausalRules
  import opened Sequences

  const LOOK_BACK := 10

  datatype Pass = ByThread | ByProcess {
    function Key(ev: Event): uint32 { if ByThread? then ev.tid else ev.pid }
  }

  /** An edge together with the window positions of the two events it was made from. */
  datatype Link = Link(i: nat, j: nat, edge: Edge)

  function LinkEdges(links: seq<Link>): (edges: seq<Edge>) {
    Map((l: Link) => l.edge, links)
  }

  lemma LinkEdgesAppend(a: seq<Link>, b: seq<Link>)
    ensures LinkEdges(a + b) == LinkEdges(a) + LinkEdges(b)
  {
  }

  // ---------------------------------------------------------------- declarative description

  /** The members of event `j`'s group that arrived at or after `i` and before `j`. */
  ghost function Between(events: seq<Event>, pass: Pass, i: nat, j: nat): set<nat>
    requires j < |events|
  {
    set k: nat | i <= k < j && pass.Key(events[k]) == pass.Key(events[j])
  }

  /** The pass links event `l.i` with the later arrival `l.j`. */
  ghost predicate Linked(events: seq<Event>, pass: Pass, l: Link) {
    && l.i < l.j < |events|
    && pass.Key(events[l.i]) == pass.Key(events[l.j])
    && |Between(events, pass, l.i, l.j)| <= LOOK_BACK
    && (pass.ByProcess? ==> events[l.i].tid != events[l.j].tid)
    && TryCreateEdge(events[l.i], events[l.j], pass.ByProcess?) == Some(l.edge)
  }

  /** `links` lists exactly the linked pairs, each once. */
  ghost predicate ExactLinks(events: seq<Event>, pass: Pass, links: seq<Link>) {
    && NoDup(links)
    && forall l :: l in links <==> Linked(events, pass, l)
  }

  // ---------------------------------------------------------------- what the loops build

  /** The indices below `n` whose event has this key, in arrival order. */
  function Members(events: seq<Event>, pass: Pass, key: uint32, n: nat): (g: seq<nat>)
    requires n <= |events|
    ensures forall x :: 0 <= x < |g| ==> g[x] < n
  {
    if n == 0 then []
    else if pass.Key(events[n - 1]) == key then Members(events, pass, key, n - 1) + [n - 1]
    else Members(events, pass, key, n - 1)
  }

  function Group(events: seq<Event>, pass: Pass, key: uint32): (g: seq<nat>)
    ensures forall x :: 0 <= x < |g| ==> g[x] < |events|
  {
    Members(events, pass, key, |events|)
  }

  /** Zero or one link: the body of the innermost loop. */
  function Attempt(events: seq<Event>, pass: Pass, i: nat, j: nat): (links: seq<Link>)
    requires i < |events| && j < |events|
    ensures links == [] || (|links| == 1 && links[0].i == i && links[0].j == j)
  {
    if pass.ByProcess? && events[i].tid == events[j].tid then []
    else
      match TryCreateEdge(events[i], events[j], pass.ByProcess?)
      case None => []
      case Some(edge) => [Link(i, j, edge)]
  }

  /** Links from position `y` of a group back to position `x`, nearest first. */
  function BackLinks(events: seq<Event>, pass: Pass, g: seq<nat>, y: nat, x: nat): (links: seq<Link>)
    requires x <= y < |g|
    requires forall m :: 0 <= m < |g| ==> g[m] < |events|
    decreases y - x
  {
    if x == y then [] else BackLinks(events, pass, g, y, x + 1) + Attempt(events, pass, g[x], g[y])
  }

  function Limit(y: nat): (limit: nat)
    ensures limit <= y
  {
    if y < LOOK_BACK then 0 else y - LOOK_BACK
  }

  /** Links into the first `n` positions of a group. */
  function GroupLinks(events: seq<Event>, pass: Pass, g: seq<nat>, n: nat): (links: seq<Link>)
    requires n <= |g|
    requires forall m :: 0 <= m < |g| ==> g[m] < |events|
  {
    if n == 0 then []
    else GroupLinks(events, pass, g, n - 1) + BackLinks(events, pass, g, n - 1, Limit(n - 1))
  }

  /** Links of all groups when the group map is iterated in this order of keys. */
  function PassLinks(events: seq<Event>, pass: Pass, order: seq<uint32>): (links: seq<Link>) {
    if order == [] then []
    else
      var g := Group(events, pass, order[|order| - 1]);
      PassLinks(events, pass, order[..|order| - 1]) + GroupLinks(events, pass, g, |g|)
  }

  /** An order in which a map with one entry per key that occurs can be iterated. */
  ghost predicate IterationOrder(events: seq<Event>, pass: Pass, order: seq<uint32>) {
    && NoDup(order)
    && forall key: uint32 :: key in order <==> Group(events, pass, key) != []
  }

  // ---------------------------------------------------------------- the loops

  method GroupIndices(events: seq<Event>, pass: Pass) returns (groups: map<uint32, seq<nat>>)
    ensures forall key: uint32 :: key in groups <==> Group(events, pass, key) != []
    ensures forall key :: key in groups ==> groups[key] == Group(events, pass, key)
  {
    groups := map[];
    for n := 0 to |events|
      invariant forall key: uint32 :: key in groups <==> Members(events, pass, key, n) != []
      invariant forall key :: key in groups ==> groups[key] == Members(events, pass, key, n)
    {
      var key := pass.Key(events[n]);
      var members := if key in groups then groups[key] else [];
      groups := groups[key := members + [n]];
    }
  }

  method LinkBack(events: seq<Event>, pass: Pass, g: seq<nat>, y: nat) returns (edges: seq<Edge>)
    requires y < |g|
    requires forall m :: 0 <= m < |g| ==> g[m] < |events|
    ensures edges == LinkEdges(BackLinks(events, pass, g, y, Limit(y)))
  {
    edges := [];
    var x := y;
    while x > Limit(y)
      invariant Limit(y) <= x <= y
      invariant edges == LinkEdges(BackLinks(events, pass, g, y, x))
    {
      x := x - 1;
      var i, j := g[x], g[y];
      LinkEdgesAppend(BackLinks(events, pass, g, y, x + 1), Attempt(events, pass, i, j));
      if !(pass.ByProcess? && events[i].tid == events[j].tid) {
        var edge := TryCreateEdge(events[i], events[j], pass.ByProcess?);
        if edge.Some? {
          edges := edges + [edge.value];
        }
      }
    }
  }

  method LinkGroup(events: seq<Event>, pass: Pass, g: seq<nat>) returns (edges: seq<Edge>)
    requires forall m :: 0 <= m < |g| ==> g[m] < |events|
    ensures edges == LinkEdges(GroupLinks(events, pass, g, |g|))
  {
    edges := [];
    for y := 0 to |g|
      invariant edges == LinkEdges(GroupLinks(events, pass, g, y))
    {
      var more := LinkBack(events, pass, g, y);
      LinkEdgesAppend(GroupLinks(events, pass, g, y), BackLinks(events, pass, g, y, Limit(y)));
      edges := edges + more;
    }
  }

  lemma PassLinksStep(events: seq<Event>, pass: Pass, order: seq<uint32>, key: uint32)
    ensures LinkEdges(PassLinks(events, pass, order + [key]))
         == LinkEdges(PassLinks(events, pass, order))
            + LinkEdges(GroupLinks(events, pass, Group(events, pass, key), |Group(events, pass, key)|))
  {
    assert (order + [key])[..|order|] == order;
  }

  method LinkGroups(events: seq<Event>, pass: Pass) returns (edges: seq<Edge>, ghost order: seq<uint32>)
    ensures IterationOrder(events, pass, order)
    ensures edges == LinkEdges(PassLinks(events, pass, order))
  {
    var groups := GroupIndices(events, pass);
    edges, order := [], [];
    var keys := groups.Keys;
    while keys != {}
      invariant keys <= groups.Keys
      invariant NoDup(order)
      invariant forall key :: key in order <==> key in groups && key !in keys
      invariant edges == LinkEdges(PassLinks(events, pass, order))
    {
      var key :| key in keys;
      var more := LinkGroup(events, pass, groups[key]);
      PassLinksStep(events, pass, order, key);
      NoDupAppend(order, [key]);
      keys, edges, order := keys - {key}, edges + more, order + [key];
    }
  }

  // ---------------------------------------------------------------- the loops meet the description

  lemma {:induction false} MembersExact(events: seq<Event>, pass: Pass, key: uint32, n: nat, k: nat)
    requires n <= |events|
    ensures k in Members(events, pass, key, n) <==> k < n && pass.Key(events[k]) == key
  {
    if n > 0 { MembersExact(events, pass, key, n - 1, k); }
  }

  lemma {:induction false} MembersAscend(events: seq<Event>, pass: Pass, key: uint32, n: nat)
    requires n <= |events|
    ensures Ascending(Members(events, pass, key, n))
  {
    if n > 0 {
      MembersAscend(events, pass, key, n - 1);
      var rest := Members(events, pass, key, n - 1);
      assert Ascending(rest + [n - 1]);
    }
  }

  /** Positions in a group count how many members lie between. */
  lemma PositionDistance(events: seq<Event>, pass: Pass, key: uint32, x: nat, y: nat)
    requires x <= y < |Group(events, pass, key)|
    ensures var g := Group(events, pass, key); |Between(events, pass, g[x], g[y])| == y - x
  {
    var g := Group(events, pass, key);
    MembersAscend(events, pass, key, |events|);
    assert forall m :: 0 <= m < y - x ==> g[x..y][m] == g[x + m];
    ElementsCard(g[x..y]);
    MembersExact(events, pass, key, |events|, g[y]);
    forall k: nat
      ensures k in Between(events, pass, g[x], g[y]) <==> k in g[x..y]
    {
      MembersExact(events, pass, key, |events|, k);
    }
    assert Between(events, pass, g[x], g[y]) == Elements(g[x..y]);
  }

  lemma {:induction false} BackLinkOrigin(
      events: seq<Event>, pass: Pass, g: seq<nat>, y: nat, x: nat, l: Link) returns (m: nat)
    requires x <= y < |g|
    requires forall m :: 0 <= m < |g| ==> g[m] < |events|
    requires l in BackLinks(events, pass, g, y, x)
    ensures x <= m < y && l in Attempt(events, pass, g[m], g[y]) && l.i == g[m] && l.j == g[y]
    decreases y - x
  {
    if l in Attempt(events, pass, g[x], g[y]) {
      m := x;
    } else {
      m := BackLinkOrigin(events, pass, g, y, x + 1, l);
    }
  }

  lemma {:induction false} BackLinkPresent(
      events: seq<Event>, pass: Pass, g: seq<nat>, y: nat, x: nat, m: nat, l: Link)
    requires x <= m < y < |g|
    requires forall m :: 0 <= m < |g| ==> g[m] < |events|
    requires l in Attempt(events, pass, g[m], g[y])
    ensures l in BackLinks(events, pass, g, y, x)
    decreases m - x
  {
    if x < m {
      BackLinkPresent(events, pass, g, y, x + 1, m, l);
    }
  }

  lemma {:induction false} GroupLinkTarget(
      events: seq<Event>, pass: Pass, g: seq<nat>, n: nat, l: Link) returns (y: nat)
    requires n <= |g|
    requires forall m :: 0 <= m < |g| ==> g[m] < |events|
    requires l in GroupLinks(events, pass, g, n)
    ensures y < n && l in BackLinks(events, pass, g, y, Limit(y)) && l.j == g[y]
  {
    if l in BackLinks(events, pass, g, n - 1, Limit(n - 1)) {
      y := n - 1;
      var _ := BackLinkOrigin(events, pass, g, y, Limit(y), l);
    } else {
      y := GroupLinkTarget(events, pass, g, n - 1, l);
    }
  }

  lemma {:induction false} GroupLinkPresent(
      events: seq<Event>, pass: Pass, g: seq<nat>, n: nat, y: nat, l: Link)
    requires y < n <= |g|
    requires forall m :: 0 <= m < |g| ==> g[m] < |events|
    requires l in BackLinks(events, pass, g, y, Limit(y))
    ensures l in GroupLinks(events, pass, g, n)
  {
    var last := BackLinks(events, pass, g, n - 1, Limit(n - 1));
    assert GroupLinks(events, pass, g, n) == GroupLinks(events, pass, g, n - 1) + last;
    if y < n - 1 {
      GroupLinkPresent(events, pass, g, n - 1, y, l);
    }
  }

  lemma {:induction false} InPassLinks(events: seq<Event>, pass: Pass, order: seq<uint32>, l: Link)
    ensures l in PassLinks(events, pass, order) <==>
            exists key :: key in order
                          && l in GroupLinks(events, pass, Group(events, pass, key), |Group(events, pass, key)|)
  {
    if order != [] {
      var front, last := order[..|order| - 1], order[|order| - 1];
      assert order == front + [last];
      InPassLinks(events, pass, front, l);
    }
  }

  lemma GroupLinksSound(events: seq<Event>, pass: Pass, key: uint32, l: Link)
    requires l in GroupLinks(events, pass, Group(events, pass, key), |Group(events, pass, key)|)
    ensures Linked(events, pass, l) && pass.Key(events[l.j]) == key
  {
    var g := Group(events, pass, key);
    var y := GroupLinkTarget(events, pass, g, |g|, l);
    var x := BackLinkOrigin(events, pass, g, y, Limit(y), l);
    PositionDistance(events, pass, key, x, y);
    MembersAscend(events, pass, key, |events|);
    MembersExact(events, pass, key, |events|, g[x]);
    MembersExact(events, pass, key, |events|, g[y]);
    AttemptSound(events, pass, g[x], g[y], l);
  }

  lemma AttemptSound(events: seq<Event>, pass: Pass, i: nat, j: nat, l: Link)
    requires i < j < |events| && l in Attempt(events, pass, i, j)
    requires pass.Key(events[i]) == pass.Key(events[j]) && |Between(events, pass, i, j)| <= LOOK_BACK
    ensures Linked(events, pass, l)
  {
  }

  lemma GroupPositions(events: seq<Event>, pass: Pass, key: uint32, i: nat, j: nat) returns (x: nat, y: nat)
    requires i < j < |events| && pass.Key(events[i]) == pass.Key(events[j]) == key
    ensures x < y < |Group(events, pass, key)|
    ensures Group(events, pass, key)[x] == i && Group(events, pass, key)[y] == j
  {
    var g := Group(events, pass, key);
    MembersExact(events, pass, key, |events|, i);
    MembersExact(events, pass, key, |events|, j);
    x :| 0 <= x < |g| && g[x] == i;
    y :| 0 <= y < |g| && g[y] == j;
    MembersAscend(events, pass, key, |events|);
  }

  lemma GroupLinksComplete(events: seq<Event>, pass: Pass, key: uint32, l: Link)
    requires Linked(events, pass, l) && pass.Key(events[l.j]) == key
    ensures l in GroupLinks(events, pass, Group(events, pass, key), |Group(events, pass, key)|)
  {
    var g := Group(events, pass, key);
    var x, y := GroupPositions(events, pass, key, l.i, l.j);
    PositionDistance(events, pass, key, x, y);
    assert Attempt(events, pass, g[x], g[y]) == [l];
    BackLinkPresent(events, pass, g, y, Limit(y), x, l);
    GroupLinkPresent(events, pass, g, |g|, y, l);
  }

  lemma {:induction false} BackLinksNoDup(events: seq<Event>, pass: Pass, g: seq<nat>, y: nat, x: nat)
    requires x <= y < |g| && Ascending(g)
    requires forall m :: 0 <= m < |g| ==> g[m] < |events|
    ensures NoDup(BackLinks(events, pass, g, y, x))
    decreases y - x
  {
    if x < y {
      BackLinksNoDup(events, pass, g, y, x + 1);
      forall l | l in BackLinks(events, pass, g, y, x + 1)
        ensures l !in Attempt(events, pass, g[x], g[y])
      {
        var m := BackLinkOrigin(events, pass, g, y, x + 1, l);
        assert l.i == g[m] > g[x];
      }
      NoDupAppend(BackLinks(events, pass, g, y, x + 1), Attempt(events, pass, g[x], g[y]));
    }
  }

  lemma {:induction false} GroupLinksNoDup(events: seq<Event>, pass: Pass, g: seq<nat>, n: nat)
    requires n <= |g| && Ascending(g)
    requires forall m :: 0 <= m < |g| ==> g[m] < |events|
    ensures NoDup(GroupLinks(events, pass, g, n))
  {
    if n > 0 {
      GroupLinksNoDup(events, pass, g, n - 1);
      BackLinksNoDup(events, pass, g, n - 1, Limit(n - 1));
      BackLinksAreNew(events, pass, g, n - 1);
      NoDupAppend(GroupLinks(events, pass, g, n - 1), BackLinks(events, pass, g, n - 1, Limit(n - 1)));
    }
  }

  lemma BackLinksAreNew(events: seq<Event>, pass: Pass, g: seq<nat>, y: nat)
    requires y < |g| && Ascending(g)
    requires forall m :: 0 <= m < |g| ==> g[m] < |events|
    ensures forall l :: l in GroupLinks(events, pass, g, y) ==> l !in BackLinks(events, pass, g, y, Limit(y))
  {
    var last := BackLinks(events, pass, g, y, Limit(y));
    forall l | l in last
      ensures l !in GroupLinks(events, pass, g, y)
    {
      BackLinkIsNew(events, pass, g, y, l);
    }
  }

  /** The links into one position are not among those into earlier ones. */
  lemma BackLinkIsNew(events: seq<Event>, pass: Pass, g: seq<nat>, y: nat, l: Link)
    requires y < |g| && Ascending(g)
    requires forall m :: 0 <= m < |g| ==> g[m] < |events|
    requires l in BackLinks(events, pass, g, y, Limit(y))
    ensures l !in GroupLinks(events, pass, g, y)
  {
    var _ := BackLinkOrigin(events, pass, g, y, Limit(y), l);
    if l in GroupLinks(events, pass, g, y) {
      var _ := GroupLinkTarget(events, pass, g, y, l);
    }
  }

  lemma {:induction false} PassLinksNoDup(events: seq<Event>, pass: Pass, order: seq<uint32>)
    requires NoDup(order)
    ensures NoDup(PassLinks(events, pass, order))
  {
    if order != [] {
      var front, last := order[..|order| - 1], order[|order| - 1];
      var g := Group(events, pass, last);
      PassLinksNoDup(events, pass, front);
      MembersAscend(events, pass, last, |events|);
      GroupLinksNoDup(events, pass, g, |g|);
      forall l | l in PassLinks(events, pass, front)
        ensures l !in GroupLinks(events, pass, g, |g|)
      {
        InPassLinks(events, pass, front, l);
        var key :| key in front && l in GroupLinks(events, pass, Group(events, pass, key), |Group(events, pass, key)|);
        GroupLinksSound(events, pass, key, l);
        if l in GroupLinks(events, pass, g, |g|) {
          GroupLinksSound(events, pass, last, l);
        }
      }
      NoDupAppend(PassLinks(events, pass, front), GroupLinks(events, pass, g, |g|));
    }
  }

  /** Whatever the iteration order, a pass makes exactly the described links, each once. */
  lemma PassLinksExact(events: seq<Event>, pass: Pass, order: seq<uint32>)
    requires IterationOrder(events, pass, order)
    ensures ExactLinks(events, pass, PassLinks(events, pass, order))
  {
    PassLinksNoDup(events, pass, order);
    forall l
      ensures l in PassLinks(events, pass, order) <==> Linked(events, pass, l)
    {
      InPassLinks(events, pass, order, l);
      if l in PassLinks(events, pass, order) {
        var key :| key in order && l in GroupLinks(events, pass, Group(events, pass, key), |Group(events, pass, key)|);
        GroupLinksSound(events, pass, key, l);
      }
      if Linked(events, pass, l) {
        var key := pass.Key(events[l.j]);
        GroupLinksComplete(events, pass, key, l);
        MembersExact(events, pass, key, |events|, l.j);
        assert key in order;
      }
    }
  }

  /** Two runs over one window that iterate the group map differently make the same multiset of edges. */
  lemma PassEdgesDeterministic(events: seq<Event>, pass: Pass, order1: seq<uint32>, order2: seq<uint32>)
    requires IterationOrder(events, pass, order1) && IterationOrder(events, pass, order2)
    ensures multiset(LinkEdges(PassLinks(events, pass, order1)))
         == multiset(LinkEdges(PassLinks(events, pass, order2)))
  {
    var a, b := PassLinks(events, pass, order1), PassLinks(events, pass, order2);
    PassLinksExact(events, pass, order1);
    PassLinksExact(events, pass, order2);
    assert Elements(a) == Elements(b);
    SameElementsSameMultiset(a, b);
    MapPermutation((l: Link) => l.edge, a, b);
  }

  /** The later event and the number of members between identify a link among all links of a pass. */
  ghost function Slot(events: seq<Event>, pass: Pass, l: Link): (slot: nat)
    requires Linked(events, pass, l)
    ensures slot < LOOK_BACK * |events|
  {
    assert l.i in Between(events, pass, l.i, l.j);
    LOOK_BACK * l.j + |Between(events, pass, l.i, l.j)| - 1
  }

  lemma SlotInjective(events: seq<Event>, pass: Pass, l1: Link, l2: Link)
    requires Linked(events, pass, l1) && Linked(events, pass, l2) && l1 != l2
    ensures Slot(events, pass, l1) != Slot(events, pass, l2)
  {
    if Slot(events, pass, l1) == Slot(events, pass, l2) {
      assert l1.i in Between(events, pass, l1.i, l1.j) && l2.i in Between(events, pass, l2.i, l2.j);
      assert l1.j == l2.j;
      var near, far := if l1.i < l2.i then l2 else l1, if l1.i < l2.i then l1 else l2;
      assert near.i != far.i;
      var nearSet, farSet := Between(events, pass, near.i, near.j), Between(events, pass, far.i, far.j);
      assert nearSet <= farSet - {far.i};
      SubsetCard(nearSet, farSet - {far.i});
      assert false;
    }
  }

  /** A pass makes at most ten links per event. */
  lemma PassLinksBounded(events: seq<Event>, pass: Pass, links: seq<Link>)
    requires ExactLinks(events, pass, links)
    ensures |links| <= LOOK_BACK * |events|
  {
    var slots := seq(|links|, k requires 0 <= k < |links| => assert links[k] in links; Slot(events, pass, links[k]));
    forall m, n | 0 <= m < n < |slots|
      ensures slots[m] != slots[n]
    {
      assert links[m] in links && links[n] in links;
      SlotInjective(events, pass, links[m], links[n]);
    }
    BoundedNoDup(slots, LOOK_BACK * |events|);
  }

  /**
   * The two passes together: a pair of positions gets at most one edge, and the window at most
   * twenty edges per event.
   */
  lemma WindowLinksBounded(events: seq<Event>, byThread: seq<Link>, byProcess: seq<Link>)
    requires ExactLinks(events, ByThread, byThread) && ExactLinks(events, ByProcess, byProcess)
    ensures var all := byThread + byProcess;
            forall m, n :: 0 <= m < n < |all| ==> (all[m].i, all[m].j) != (all[n].i, all[n].j)
    ensures |byThread + byProcess| <= 2 * LOOK_BACK * |events|
  {
    PassLinksBounded(events, ByThread, byThread);
    PassLinksBounded(events, ByProcess, byProcess);
    var all := byThread + byProcess;
    forall m, n | 0 <= m < n < |all|
      ensures (all[m].i, all[m].j) != (all[n].i, all[n].j)
    {
      LinkedBy(events, byThread, byProcess, m);
      LinkedBy(events, byThread, byProcess, n);
    }
  }

  lemma LinkedBy(events: seq<Event>, byThread: seq<Link>, byProcess: seq<Link>, m: nat)
    requires ExactLinks(events, ByThread, byThread) && ExactLinks(events, ByProcess, byProcess)
    requires m < |byThread + byProcess|
    ensures Linked(events, if m < |byThread| then ByThread else ByProcess, (byThread + byProcess)[m])
  {
    if m < |byThread| {
      assert byThread[m] in byThread;
    } else {
      assert byProcess[m - |byThread|] in byProcess;
    }
  }
}
