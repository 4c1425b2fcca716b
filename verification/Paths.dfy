/** Walks in a directed graph whose vertices are ids. */
module Paths {

  type Links = set<(string, string)>

  /** A walk along at least one link. */
  ghost predicate IsPath(links: Links, path: seq<string>) {
    |path| >= 2 && forall k :: 0 <= k < |path| - 1 ==> (path[k], path[k + 1]) in links
  }

  ghost predicate Connects(links: Links, path: seq<string>, a: string, b: string) {
    IsPath(links, path) && path[0] == a && path[|path| - 1] == b
  }

  ghost predicate Reaches(links: Links, a: string, b: string) {
    exists path :: Connects(links, path, a, b)
  }

  ghost predicate Acyclic(links: Links) {
    forall v :: !Reaches(links, v, v)
  }

  ghost predicate Transitive(before: (string, string) -> bool) {
    forall a, b, c :: before(a, b) && before(b, c) ==> before(a, c)
  }

  /** Links that respect a transitive order make paths that respect it. */
  lemma {:induction false} PathRespects(links: Links, before: (string, string) -> bool, path: seq<string>)
    requires Transitive(before) && forall l :: l in links ==> before(l.0, l.1)
    requires IsPath(links, path)
    ensures before(path[0], path[|path| - 1])
  {
    var n := |path| - 1;
    assert (path[n - 1], path[n - 1 + 1]) in links;
    if n > 1 {
      PathRespects(links, before, path[..n]);
      assert before(path[0], path[n - 1]);
    }
  }

  lemma ReachRespects(links: Links, before: (string, string) -> bool, a: string, b: string)
    requires Transitive(before) && forall l :: l in links ==> before(l.0, l.1)
    requires Reaches(links, a, b)
    ensures before(a, b)
  {
    var path :| Connects(links, path, a, b);
    PathRespects(links, before, path);
  }

  /** A graph whose links respect a strict order has no cycle. */
  lemma OrderedIsAcyclic(links: Links, before: (string, string) -> bool)
    requires Transitive(before) && forall l :: l in links ==> before(l.0, l.1)
    requires forall v :: !before(v, v)
    ensures Acyclic(links)
  {
    forall v
      ensures !Reaches(links, v, v)
    {
      if Reaches(links, v, v) {
        ReachRespects(links, before, v, v);
      }
    }
  }

  lemma ReachesByLink(links: Links, a: string, b: string)
    requires (a, b) in links
    ensures Reaches(links, a, b)
  {
    assert Connects(links, [a, b], a, b);
  }

  lemma ReachesOneMore(links: Links, a: string, b: string, c: string)
    requires Reaches(links, a, b) && (b, c) in links
    ensures Reaches(links, a, c)
  {
    var path :| Connects(links, path, a, b);
    var longer := path + [c];
    forall k | 0 <= k < |longer| - 1
      ensures (longer[k], longer[k + 1]) in links
    {
      if k < |path| - 1 {
        assert (path[k], path[k + 1]) in links;
      }
    }
    assert Connects(links, longer, a, c);
  }

  lemma ReachesTransitive(links: Links, a: string, b: string, c: string)
    requires Reaches(links, a, b) && Reaches(links, b, c)
    ensures Reaches(links, a, c)
  {
    var p :| Connects(links, p, a, b);
    var q :| Connects(links, q, b, c);
    var path := p + q[1..];
    forall k | 0 <= k < |path| - 1
      ensures (path[k], path[k + 1]) in links
    {
      if k < |p| - 1 {
        assert (p[k], p[k + 1]) in links;
      } else {
        var m := k - (|p| - 1);
        assert (q[m], q[m + 1]) in links;
      }
    }
    assert Connects(links, path, a, c);
  }

  lemma PartReaches(links: Links, path: seq<string>, i: nat, j: nat)
    requires IsPath(links, path) && i < j < |path|
    ensures Reaches(links, path[i], path[j])
  {
    var part := path[i..j + 1];
    forall m | 0 <= m < |part| - 1
      ensures (part[m], part[m + 1]) in links
    {
      assert (path[i + m], path[i + m + 1]) in links;
    }
    assert Connects(links, part, path[i], path[j]);
  }

  /** A set that holds the successors of `a` and of its own members holds everything `a` reaches. */
  lemma {:induction false} ClosedHoldsPath(links: Links, a: string, closed: set<string>, path: seq<string>)
    requires forall l :: l in links && (l.0 == a || l.0 in closed) ==> l.1 in closed
    requires IsPath(links, path) && path[0] == a
    ensures path[|path| - 1] in closed
  {
    var n := |path| - 1;
    assert (path[n - 1], path[n - 1 + 1]) in links;
    if n > 1 {
      ClosedHoldsPath(links, a, closed, path[..n]);
      assert path[n - 1] in closed;
    }
  }

  // ---------------------------------------------------------------- reversal

  function Reversed(links: Links): (r: Links) {
    set l | l in links :: (l.1, l.0)
  }

  lemma ReversedReaches(links: Links, a: string, b: string)
    requires Reaches(links, a, b)
    ensures Reaches(Reversed(links), b, a)
  {
    var path :| Connects(links, path, a, b);
    var back := seq(|path|, k requires 0 <= k < |path| => path[|path| - 1 - k]);
    forall k | 0 <= k < |back| - 1
      ensures (back[k], back[k + 1]) in Reversed(links)
    {
      var m := |path| - 2 - k;
      assert (path[m], path[m + 1]) in links;
    }
    assert Connects(Reversed(links), back, b, a);
  }

  lemma ReversedReachesIff(links: Links, a: string, b: string)
    ensures Reaches(Reversed(links), b, a) <==> Reaches(links, a, b)
  {
    if Reaches(links, a, b) {
      ReversedReaches(links, a, b);
    }
    if Reaches(Reversed(links), b, a) {
      ReversedReaches(Reversed(links), b, a);
      assert Reversed(Reversed(links)) == links by {
        forall l
          ensures l in Reversed(Reversed(links)) <==> l in links
        {
          if l in links {
            assert (l.1, l.0) in Reversed(links);
          }
        }
      }
    }
  }
}
