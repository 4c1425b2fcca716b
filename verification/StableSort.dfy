/** The stable sort that the console relies on, as insertion sort. */
module StableSort {
  import opened Sequences

  /** A comparison that a sort can use: total and transitive. */
  ghost predicate Preorder<T(!new)>(le: (T, T) -> bool) {
    && (forall x, y :: le(x, y) || le(y, x))
    && forall x, y, z :: le(x, y) && le(y, z) ==> le(x, z)
  }

  ghost predicate SortedBy<T>(s: seq<T>, le: (T, T) -> bool) {
    forall i, j :: 0 <= i < j < |s| ==> le(s[i], s[j])
  }

  /** Places a later element behind everything that is not greater. */
  function Insert<T>(s: seq<T>, x: T, le: (T, T) -> bool): (r: seq<T>)
    ensures |r| == |s| + 1
  {
    if s == [] then [x]
    else if le(s[|s| - 1], x) then s + [x]
    else Insert(s[..|s| - 1], x, le) + [s[|s| - 1]]
  }

  function Sort<T>(s: seq<T>, le: (T, T) -> bool): (r: seq<T>)
    ensures |r| == |s|
  {
    if s == [] then [] else Insert(Sort(s[..|s| - 1], le), s[|s| - 1], le)
  }

  lemma SnocMultiset<T>(s: seq<T>)
    requires s != []
    ensures multiset(s) == multiset(s[..|s| - 1]) + multiset{s[|s| - 1]}
  {
    assert s == s[..|s| - 1] + [s[|s| - 1]];
  }

  lemma {:induction false} InsertPermutes<T>(s: seq<T>, x: T, le: (T, T) -> bool)
    ensures multiset(Insert(s, x, le)) == multiset(s) + multiset{x}
  {
    if s != [] && !le(s[|s| - 1], x) {
      InsertPermutes(s[..|s| - 1], x, le);
      SnocMultiset(s);
    }
  }

  lemma {:induction false} SortPermutes<T>(s: seq<T>, le: (T, T) -> bool)
    ensures multiset(Sort(s, le)) == multiset(s)
  {
    if s != [] {
      SortPermutes(s[..|s| - 1], le);
      InsertPermutes(Sort(s[..|s| - 1], le), s[|s| - 1], le);
      SnocMultiset(s);
    }
  }

  lemma InSort<T>(s: seq<T>, le: (T, T) -> bool, x: T)
    ensures x in Sort(s, le) <==> x in s
  {
    SortPermutes(s, le);
    assert x in s <==> x in multiset(s);
    assert x in Sort(s, le) <==> x in multiset(Sort(s, le));
  }

  lemma {:induction false} InsertSorted<T(!new)>(s: seq<T>, x: T, le: (T, T) -> bool)
    requires Preorder(le) && SortedBy(s, le)
    ensures SortedBy(Insert(s, x, le), le)
    ensures forall y :: y in Insert(s, x, le) ==> y in s || y == x
  {
    if s != [] {
      var front, last := s[..|s| - 1], s[|s| - 1];
      if le(last, x) {
        forall i | 0 <= i < |s| ensures le(s[i], x) {}
      } else {
        InsertSorted(front, x, le);
        forall i | 0 <= i < |Insert(front, x, le)| ensures le(Insert(front, x, le)[i], last) {
          assert Insert(front, x, le)[i] in front || Insert(front, x, le)[i] == x;
        }
      }
    }
  }

  lemma {:induction false} SortSorted<T(!new)>(s: seq<T>, le: (T, T) -> bool)
    requires Preorder(le)
    ensures SortedBy(Sort(s, le), le)
  {
    if s != [] {
      SortSorted(s[..|s| - 1], le);
      InsertSorted(Sort(s[..|s| - 1], le), s[|s| - 1], le);
    }
  }

  /** Elements that compare equal to `a`. */
  function Ties<T(!new)>(s: seq<T>, a: T, le: (T, T) -> bool): (r: seq<T>) {
    Filter(s, (x: T) => le(x, a) && le(a, x))
  }

  lemma TiesSnoc<T(!new)>(s: seq<T>, x: T, a: T, le: (T, T) -> bool)
    ensures Ties(s + [x], a, le) == Ties(s, a, le) + (if le(x, a) && le(a, x) then [x] else [])
  {
    assert (s + [x])[..|s|] == s;
  }

  lemma {:induction false} InsertStable<T(!new)>(s: seq<T>, x: T, a: T, le: (T, T) -> bool)
    requires Preorder(le) && SortedBy(s, le)
    ensures Ties(Insert(s, x, le), a, le) == Ties(s + [x], a, le)
  {
    if s != [] && !le(s[|s| - 1], x) {
      var front, last := s[..|s| - 1], s[|s| - 1];
      InsertStable(front, x, a, le);
      TiesSnoc(Insert(front, x, le), last, a, le);
      TiesSnoc(front, x, a, le);
      TiesSnoc(front, last, a, le);
      TiesSnoc(s, x, a, le);
      assert s == front + [last];
    }
  }

  /** Elements that compare equal keep their order. */
  lemma {:induction false} SortStable<T(!new)>(s: seq<T>, a: T, le: (T, T) -> bool)
    requires Preorder(le)
    ensures Ties(Sort(s, le), a, le) == Ties(s, a, le)
  {
    if s != [] {
      var front, last := s[..|s| - 1], s[|s| - 1];
      SortStable(front, a, le);
      SortSorted(front, le);
      InsertStable(Sort(front, le), last, a, le);
      TiesSnoc(Sort(front, le), last, a, le);
      TiesSnoc(front, last, a, le);
      assert s == front + [last];
    }
  }
}
