/** Facts about sequences that several components share. */
module Sequences {

  ghost predicate NoDup<T>(s: seq<T>) {
    forall i, j :: 0 <= i < j < |s| ==> s[i] != s[j]
  }

  /** The last `max` elements, or all of them when there are fewer. */
  function Newest<T>(s: seq<T>, max: nat): (r: seq<T>)
    ensures |r| <= max && |r| <= |s|
  {
    if |s| <= max then s else s[|s| - max..]
  }

  function Filter<T(!new)>(s: seq<T>, p: T -> bool): (r: seq<T>)
    ensures forall x :: x in r <==> x in s && p(x)
  {
    if s == [] then []
    else
      var rest := Filter(s[..|s| - 1], p);
      assert s == s[..|s| - 1] + [s[|s| - 1]];
      if p(s[|s| - 1]) then rest + [s[|s| - 1]] else rest
  }

  function Concat<T>(ss: seq<seq<T>>): (r: seq<T>) {
    if ss == [] then [] else Concat(ss[..|ss| - 1]) + ss[|ss| - 1]
  }

  function Map<A, B>(f: A -> B, s: seq<A>): (r: seq<B>)
    ensures |r| == |s|
    ensures forall i :: 0 <= i < |s| ==> r[i] == f(s[i])
  {
    seq(|s|, i requires 0 <= i < |s| => f(s[i]))
  }

  function Elements<T>(s: seq<T>): (r: set<T>) {
    set x | x in s
  }

  /** Trimming before more elements arrive loses nothing a single final trim would keep. */
  lemma NewestAbsorbs<T>(a: seq<T>, b: seq<T>, max: nat)
    ensures Newest(Newest(a, max) + b, max) == Newest(a + b, max)
  {
    if |a| > max {
      SuffixOfAppend(a, b, |a| - max, |b|);
    }
  }

  lemma SuffixOfAppend<T>(a: seq<T>, b: seq<T>, cut: nat, more: nat)
    requires cut <= |a| && cut + more <= |a| + |b|
    ensures (a[cut..] + b)[more..] == (a + b)[cut + more..]
  {
    assert a[cut..] + b == (a + b)[cut..];
  }

  lemma {:induction false} FilterConcat<T(!new)>(a: seq<T>, b: seq<T>, p: T -> bool)
    ensures Filter(a + b, p) == Filter(a, p) + Filter(b, p)
  {
    if b == [] {
      assert a + b == a;
    } else {
      var front, last := b[..|b| - 1], b[|b| - 1];
      assert (a + b)[..|a + b| - 1] == a + front;
      FilterConcat(a, front, p);
    }
  }

  lemma {:induction false} FilterShorter<T(!new)>(s: seq<T>, p: T -> bool)
    ensures |Filter(s, p)| <= |s|
  {
    if s != [] {
      FilterShorter(s[..|s| - 1], p);
    }
  }

  lemma {:induction false} ElementsCard<T>(s: seq<T>)
    requires NoDup(s)
    ensures |Elements(s)| == |s|
  {
    if s != [] {
      var front, last := s[..|s| - 1], s[|s| - 1];
      ElementsCard(front);
      assert last !in Elements(front);
      assert Elements(s) == Elements(front) + {last};
    }
  }

  lemma NoDupAppend<T>(a: seq<T>, b: seq<T>)
    requires NoDup(a) && NoDup(b)
    requires forall x :: x in a ==> x !in b
    ensures NoDup(a + b)
  {
    forall i, j | 0 <= i < j < |a + b|
      ensures (a + b)[i] != (a + b)[j]
    {
      if i < |a| <= j {
        assert a[i] in a && b[j - |a|] in b;
      }
    }
  }

  /** A duplicate-free sequence of numbers below `bound` has at most `bound` elements. */
  lemma {:induction false} BoundedNoDup(s: seq<nat>, bound: nat)
    requires NoDup(s)
    requires forall x :: x in s ==> x < bound
    ensures |s| <= bound
  {
    ElementsCard(s);
    SubsetCard(Elements(s), Below(bound));
  }

  function Below(bound: nat): (r: set<nat>)
    ensures |r| == bound
    ensures forall x: nat :: x in r <==> x < bound
  {
    if bound == 0 then {} else Below(bound - 1) + {bound - 1}
  }

  lemma {:induction false} SubsetCard<T>(a: set<T>, b: set<T>)
    requires a <= b
    ensures |a| <= |b|
    decreases a
  {
    if a != {} {
      var x :| x in a;
      SubsetCard(a - {x}, b - {x});
    }
  }

  /** Duplicate-free sequences with the same elements are permutations of each other. */
  lemma {:induction false} SameElementsSameMultiset<T>(a: seq<T>, b: seq<T>)
    requires NoDup(a) && NoDup(b)
    requires Elements(a) == Elements(b)
    ensures multiset(a) == multiset(b)
  {
    forall x
      ensures multiset(a)[x] == multiset(b)[x]
    {
      NoDupMultiplicity(a, x);
      NoDupMultiplicity(b, x);
      assert x in Elements(a) <==> x in a;
      assert x in Elements(b) <==> x in b;
    }
  }

  lemma {:induction false} NoDupMultiplicity<T>(s: seq<T>, x: T)
    requires NoDup(s)
    ensures multiset(s)[x] == if x in s then 1 else 0
  {
    if s != [] {
      var front, last := s[..|s| - 1], s[|s| - 1];
      assert s == front + [last];
      NoDupMultiplicity(front, x);
      assert last !in front;
    }
  }

  /** A permutation of a duplicate-free sequence is duplicate-free. */
  lemma NoDupPermutation<T>(a: seq<T>, b: seq<T>)
    requires NoDup(a) && multiset(a) == multiset(b)
    ensures NoDup(b)
  {
    forall i, j | 0 <= i < j < |b|
      ensures b[i] != b[j]
    {
      if b[i] == b[j] {
        assert b == b[..i] + [b[i]] + b[i + 1..j] + [b[j]] + b[j + 1..];
        NoDupMultiplicity(a, b[i]);
      }
    }
  }

  lemma RemoveAt<T>(s: seq<T>, i: nat)
    requires i < |s|
    ensures multiset(s) == multiset(s[..i] + s[i + 1..]) + multiset{s[i]}
  {
    assert s == s[..i] + [s[i]] + s[i + 1..];
  }

  lemma MapRemoveAt<A, B>(f: A -> B, s: seq<A>, i: nat)
    requires i < |s|
    ensures multiset(Map(f, s)) == multiset(Map(f, s[..i] + s[i + 1..])) + multiset{f(s[i])}
  {
    RemoveAt(Map(f, s), i);
    assert Map(f, s)[..i] + Map(f, s)[i + 1..] == Map(f, s[..i] + s[i + 1..]);
  }

  lemma Cancel<T>(a: multiset<T>, b: multiset<T>, x: T)
    requires a + multiset{x} == b + multiset{x}
    ensures a == b
  {
    assert a == (a + multiset{x}) - multiset{x};
    assert b == (b + multiset{x}) - multiset{x};
  }

  /** Permutations that lose the same element remain permutations. */
  lemma PermutationWithout<T>(a: seq<T>, b: seq<T>, i: nat)
    requires multiset(a) == multiset(b) && a != [] && i < |b| && b[i] == a[0]
    ensures multiset(a[..0] + a[1..]) == multiset(b[..i] + b[i + 1..])
  {
    RemoveAt(a, 0);
    RemoveAt(b, i);
    Cancel(multiset(a[..0] + a[1..]), multiset(b[..i] + b[i + 1..]), a[0]);
  }

  lemma FirstElsewhere<T>(a: seq<T>, b: seq<T>) returns (i: nat)
    requires multiset(a) == multiset(b) && a != []
    ensures i < |b| && b[i] == a[0]
  {
    assert a[0] in multiset(a);
    assert a[0] in multiset(b);
    i := IndexOf(b, a[0]);
  }

  /** Mapping a function over two permutations gives permutations. */
  lemma {:induction false} MapPermutation<A, B>(f: A -> B, a: seq<A>, b: seq<A>)
    requires multiset(a) == multiset(b)
    ensures multiset(Map(f, a)) == multiset(Map(f, b))
    decreases |a|
  {
    if a == [] {
      assert |multiset(b)| == 0;
    } else {
      var i := FirstElsewhere(a, b);
      PermutationWithout(a, b, i);
      MapPermutation(f, a[..0] + a[1..], b[..i] + b[i + 1..]);
      MapRemoveAt(f, a, 0);
      MapRemoveAt(f, b, i);
    }
  }

  // ---------------------------------------------------------------- positions of a filter

  /** The positions below `n` whose element satisfies `p`, in order. */
  function Positions<T>(s: seq<T>, p: T -> bool, n: nat): (r: seq<nat>)
    requires n <= |s|
  {
    if n == 0 then []
    else if p(s[n - 1]) then Positions(s, p, n - 1) + [n - 1] else Positions(s, p, n - 1)
  }

  ghost predicate Ascending(r: seq<nat>) { forall x, y :: 0 <= x < y < |r| ==> r[x] < r[y] }

  lemma {:induction false} PositionsExact<T>(s: seq<T>, p: T -> bool, n: nat)
    requires n <= |s|
    ensures Ascending(Positions(s, p, n))
    ensures forall k: nat :: k in Positions(s, p, n) <==> k < n && p(s[k])
  {
    if n > 0 {
      PositionsExact(s, p, n - 1);
      var rest := Positions(s, p, n - 1);
      assert forall x :: 0 <= x < |rest| ==> rest[x] in rest;
    }
  }

  lemma {:induction false} FilterIsPositions<T(!new)>(s: seq<T>, p: T -> bool, n: nat)
    requires n <= |s|
    ensures |Filter(s[..n], p)| == |Positions(s, p, n)|
    ensures forall i :: 0 <= i < |Positions(s, p, n)| ==>
              Positions(s, p, n)[i] < |s| && Filter(s[..n], p)[i] == s[Positions(s, p, n)[i]]
  {
    if n > 0 {
      FilterIsPositions(s, p, n - 1);
      assert s[..n][..n - 1] == s[..n - 1];
    }
  }

  /** The later positions that satisfy `p`. */
  ghost function LaterOnes<T>(s: seq<T>, p: T -> bool, k: nat): (later: set<nat>) {
    set q: nat | k < q < |s| && p(s[q])
  }

  /** A position is among the newest `max` exactly when fewer than `max` later ones satisfy `p`. */
  lemma NewestPositions<T>(s: seq<T>, p: T -> bool, max: nat, k: nat)
    ensures k in Newest(Positions(s, p, |s|), max) <==> k < |s| && p(s[k]) && |LaterOnes(s, p, k)| < max
  {
    var r := Positions(s, p, |s|);
    PositionsExact(s, p, |s|);
    InNewest(r, max, k);
    if k in r {
      var i := IndexOf(r, k);
      LaterAreTail(s, p, i);
      NewestByIndex(r, max, i);
    }
  }

  lemma InNewest<T>(s: seq<T>, max: nat, x: T)
    ensures x in Newest(s, max) ==> x in s
  {
  }

  lemma LaterAreTail<T>(s: seq<T>, p: T -> bool, i: nat)
    requires i < |Positions(s, p, |s|)|
    ensures |LaterOnes(s, p, Positions(s, p, |s|)[i])| == |Positions(s, p, |s|)| - 1 - i
  {
    var r := Positions(s, p, |s|);
    var tail := r[i + 1..];
    PositionsExact(s, p, |s|);
    assert NoDup(tail);
    ElementsCard(tail);
    forall q: nat
      ensures q in Elements(tail) <==> q in LaterOnes(s, p, r[i])
    {
      if q in tail {
        var j := IndexOf(tail, q);
        assert r[i + 1 + j] in r;
      }
      if q in LaterOnes(s, p, r[i]) {
        var j := IndexOf(r, q);
        InSuffix(r, i + 1, j);
      }
    }
    assert Elements(tail) == LaterOnes(s, p, r[i]);
  }

  lemma NewestByIndex(r: seq<nat>, max: nat, i: nat)
    requires Ascending(r) && i < |r|
    ensures r[i] in Newest(r, max) <==> |r| - 1 - i < max
  {
    var cut := |r| - |Newest(r, max)|;
    assert Newest(r, max) == r[cut..];
    if r[i] in r[cut..] {
      var j := IndexOf(r[cut..], r[i]);
      assert r[cut + j] == r[i];
    }
    InSuffix(r, cut, i);
  }

  lemma InSuffix<T>(s: seq<T>, cut: nat, i: nat)
    requires cut <= |s| && i < |s|
    ensures i >= cut ==> s[i] in s[cut..]
  {
    if i >= cut {
      assert s[cut..][i - cut] == s[i];
    }
  }

  lemma IndexOf<T>(s: seq<T>, x: T) returns (i: nat)
    requires x in s
    ensures i < |s| && s[i] == x
  {
    i :| 0 <= i < |s| && s[i] == x;
  }
}
