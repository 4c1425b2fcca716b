/** The grid that the console falls back to when the layered layout fails. */
module FallbackLayout {
  import opened Sequences
  import opened StableSort
  import opened ConsoleGraph

  const NODE_W := 140
  const NODE_H := 52
  const COLUMN_GAP := NODE_W + 90
  const ROW_GAP := NODE_H + 90

  /** The smallest number whose square reaches `n`. */
  function CeilSqrt(n: nat): (c: nat)
    ensures n <= c * c && (c > 0 ==> (c - 1) * (c - 1) < n)
  {
    if n == 0 then 0
    else
      var c := CeilSqrt(n - 1);
      if n <= c * c then c else NextSquare(c, n); c + 1
  }

  lemma NextSquare(c: nat, n: nat)
    requires n > 0 && n - 1 <= c * c < n
    ensures n <= (c + 1) * (c + 1) && c * c < n
  {
    assert (c + 1) * (c + 1) == c * c + 2 * c + 1;
  }

  function Columns(n: nat): (columns: nat)
    ensures columns >= 1 && n <= columns * columns
    ensures n > 0 ==> (columns - 1) * (columns - 1) < n
  {
    if n == 0 then 1 else CeilSqrt(n)
  }

  /** Earlier first, ties by id; `less` is the locale comparison. */
  function ByTimeThenId(less: (string, string) -> bool): (le: (Node, Node) -> bool) {
    (a: Node, b: Node) => a.timestampNs < b.timestampNs || (a.timestampNs == b.timestampNs && !less(b.id, a.id))
  }

  function Place(node: Node, index: nat, columns: nat): (r: Node)
    requires columns > 0
  {
    node.(x := 90 + (index % columns) * COLUMN_GAP, y := 70 + (index / columns) * ROW_GAP)
  }

  function Layout(less: (string, string) -> bool, nodes: seq<Node>): (placed: seq<Node>)
    ensures |placed| == |nodes|
  {
    var sorted := Sort(nodes, ByTimeThenId(less));
    seq(|sorted|, i requires 0 <= i < |sorted| => Place(sorted[i], i, Columns(|sorted|)))
  }

  // ---------------------------------------------------------------- what the grid guarantees

  lemma DivMod(i: nat, c: nat)
    requires c > 0
    ensures i == c * (i / c) + i % c && 0 <= i % c < c
  {
  }

  lemma FactorsOrder(c: nat, p: nat, q: nat)
    ensures p <= q ==> c * p <= c * q
  {
  }

  lemma SmallerRow(i: nat, j: nat, c: nat)
    requires i <= j && c > 0
    ensures i / c <= j / c
  {
    DivMod(i, c);
    DivMod(j, c);
    FactorsOrder(c, j / c + 1, i / c);
    assert c * (j / c + 1) == c * (j / c) + c;
  }

  /** Reading the grid row by row gives back the order of placement. */
  lemma ReadingOrder(i: nat, j: nat, c: nat)
    requires i < j && c > 0
    ensures i / c < j / c || (i / c == j / c && i % c < j % c)
  {
    SmallerRow(i, j, c);
    DivMod(i, c);
    DivMod(j, c);
  }

  /** The grid starts near the corner; the next cell is one column further, or the first of the next row. */
  lemma GridSteps(less: (string, string) -> bool, nodes: seq<Node>, i: nat)
    requires i < |nodes|
    ensures var placed := Layout(less, nodes);
            && (i == 0 ==> placed[i].x == 90 && placed[i].y == 70)
            && (i + 1 < |nodes| ==>
                  || (placed[i + 1].x == placed[i].x + 230 && placed[i + 1].y == placed[i].y)
                  || (placed[i + 1].x == 90 && placed[i + 1].y == placed[i].y + 142
                      && placed[i].x == 90 + (Columns(|nodes|) - 1) * 230))
  {
    var sorted := Sort(nodes, ByTimeThenId(less));
    var c := Columns(|sorted|);
    if i + 1 < |nodes| {
      CellStep(sorted[i], sorted[i + 1], i, c);
    }
    if i == 0 {
      QuotientIs(0, c, 0, 0);
    }
  }

  lemma CellStep(a: Node, b: Node, i: nat, c: nat)
    requires c > 0
    ensures var a', b' := Place(a, i, c), Place(b, i + 1, c);
            || (b'.x == a'.x + 230 && b'.y == a'.y)
            || (b'.x == 90 && b'.y == a'.y + 142 && a'.x == 90 + (c - 1) * 230)
  {
    DivMod(i, c);
    NextCell(i, c, i / c, i % c);
    StepBetween(Place(a, i, c), Place(b, i + 1, c), i / c, i % c, (i + 1) / c, (i + 1) % c, c);
  }

  lemma StepBetween(a: Node, b: Node, rowA: nat, colA: nat, rowB: nat, colB: nat, c: nat)
    requires a.x == 90 + colA * COLUMN_GAP && a.y == 70 + rowA * ROW_GAP
    requires b.x == 90 + colB * COLUMN_GAP && b.y == 70 + rowB * ROW_GAP
    requires if colA < c - 1 then rowB == rowA && colB == colA + 1 else rowB == rowA + 1 && colB == 0 && colA == c - 1
    ensures || (b.x == a.x + 230 && b.y == a.y)
            || (b.x == 90 && b.y == a.y + 142 && a.x == 90 + (c - 1) * 230)
  {
  }

  lemma NextCell(i: nat, c: nat, row: nat, col: nat)
    requires c > 0 && i == c * row + col && col < c
    ensures if col < c - 1 then (i + 1) / c == row && (i + 1) % c == col + 1
            else (i + 1) / c == row + 1 && (i + 1) % c == 0
  {
    if col < c - 1 {
      QuotientIs(i + 1, c, row, col + 1);
    } else {
      assert c * (row + 1) == c * row + c;
      QuotientIs(i + 1, c, row + 1, 0);
    }
  }

  lemma QuotientIs(i: nat, c: nat, q: nat, rest: nat)
    requires c > 0 && i == c * q + rest && rest < c
    ensures i / c == q && i % c == rest
  {
    DivMod(i, c);
    SameQuotient(c, q, rest, i / c, i % c);
  }

  lemma SameQuotient(c: nat, q: nat, rest: nat, p: nat, other: nat)
    requires c * q + rest == c * p + other && rest < c && other < c
    ensures q == p && rest == other
  {
    FactorsOrder(c, q + 1, p);
    FactorsOrder(c, p + 1, q);
    assert c * (q + 1) == c * q + c && c * (p + 1) == c * p + c;
  }

  /** Two rectangles of node size at these positions have no point in common. */
  predicate Apart(a: Node, b: Node) {
    || a.x + NODE_W < b.x || b.x + NODE_W < a.x
    || a.y + NODE_H < b.y || b.y + NODE_H < a.y
  }

  predicate ReadBefore(a: Node, b: Node) { a.y < b.y || (a.y == b.y && a.x < b.x) }

  /** Two cells of the grid, the first read before the second. */
  lemma CellsApart(a: Node, b: Node, rowA: nat, colA: nat, rowB: nat, colB: nat)
    requires a.x == 90 + colA * COLUMN_GAP && a.y == 70 + rowA * ROW_GAP
    requires b.x == 90 + colB * COLUMN_GAP && b.y == 70 + rowB * ROW_GAP
    requires rowA < rowB || (rowA == rowB && colA < colB)
    ensures Apart(a, b) && ReadBefore(a, b)
  {
  }

  lemma PlacedApart(a: Node, b: Node, i: nat, j: nat, c: nat)
    requires i < j && c > 0
    ensures Apart(Place(a, i, c), Place(b, j, c)) && ReadBefore(Place(a, i, c), Place(b, j, c))
  {
    ReadingOrder(i, j, c);
    CellsApart(Place(a, i, c), Place(b, j, c), i / c, i % c, j / c, j % c);
  }

  /** No two nodes overlap, and they are read in order: rows top down, each from left to right. */
  lemma NoOverlap(less: (string, string) -> bool, nodes: seq<Node>, i: nat, j: nat)
    requires i < j < |nodes|
    ensures var placed := Layout(less, nodes);
            Apart(placed[i], placed[j]) && ReadBefore(placed[i], placed[j])
  {
    var sorted := Sort(nodes, ByTimeThenId(less));
    PlacedApart(sorted[i], sorted[j], i, j, Columns(|sorted|));
  }

  lemma RowInSquare(i: nat, c: nat)
    requires i < c * c
    ensures c > 0 && i / c < c
  {
    DivMod(i, c);
    FactorsOrder(c, c, i / c);
  }

  /** The grid has no more rows than columns. */
  lemma RowsFit(n: nat, i: nat)
    requires i < n
    ensures i / Columns(n) < Columns(n)
  {
    RowInSquare(i, Columns(n));
  }

  /** What is assumed of the locale comparison here: a strict weak order. */
  ghost predicate StrictWeakOrder(less: (string, string) -> bool) {
    && (forall a, b :: less(a, b) ==> !less(b, a))
    && forall a, b, c :: !less(a, b) && !less(b, c) ==> !less(a, c)
  }

  lemma ByTimeThenIdIsPreorder(less: (string, string) -> bool)
    requires StrictWeakOrder(less)
    ensures Preorder(ByTimeThenId(less))
  {
    var le := ByTimeThenId(less);
    forall a, b
      ensures le(a, b) || le(b, a)
    {
      assert less(a.id, b.id) ==> !less(b.id, a.id);
    }
    forall a, b, c | le(a, b) && le(b, c)
      ensures le(a, c)
    {
      assert !less(c.id, b.id) && !less(b.id, a.id) ==> !less(c.id, a.id);
    }
  }

  /** A node without its position. */
  function Unplaced(): (forget: Node -> Node) { (n: Node) => n.(x := 0, y := 0) }

  /** The placed nodes are the given ones, moved, in order of time and then id. */
  lemma LayoutSorted(less: (string, string) -> bool, nodes: seq<Node>)
    requires StrictWeakOrder(less)
    ensures var placed := Layout(less, nodes);
            && (forall i, j :: 0 <= i < j < |placed| ==> ByTimeThenId(less)(placed[i], placed[j]))
            && multiset(Map(Unplaced(), placed)) == multiset(Map(Unplaced(), nodes))
  {
    var le := ByTimeThenId(less);
    var sorted, placed := Sort(nodes, le), Layout(less, nodes);
    ByTimeThenIdIsPreorder(less);
    SortSorted(nodes, le);
    SortPermutes(nodes, le);
    MapPermutation(Unplaced(), sorted, nodes);
    assert Map(Unplaced(), placed) == Map(Unplaced(), sorted);
    forall i, j | 0 <= i < j < |placed|
      ensures le(placed[i], placed[j])
    {
      assert le(sorted[i], sorted[j]);
    }
  }
}
