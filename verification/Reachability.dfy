/** Finite directed graphs and reachability. Every component that walks a graph (import chunks,
    pack groups, Git objects) states its result against these definitions. */
module Reachability {

  /** Successor sets. A vertex that is not a key has no outgoing edges. */
  type Graph<T> = map<T, set<T>>

  function Succ<T>(g: Graph<T>, v: T): set<T> {
    if v in g then g[v] else {}
  }

  ghost predicate IsPath<T>(g: Graph<T>, p: seq<T>) {
    && |p| > 0
    && forall i | 0 < i < |p| :: p[i] in Succ(g, p[i - 1])
  }

  ghost predicate Reaches<T(!new)>(g: Graph<T>, u: T, v: T) {
    exists p :: IsPath(g, p) && p[0] == u && p[|p| - 1] == v
  }

  /** v can be reached from u along at least one edge. */
  ghost predicate ReachesPlus<T(!new)>(g: Graph<T>, u: T, v: T) {
    exists w :: w in Succ(g, u) && Reaches(g, w, v)
  }

  ghost predicate Mutual<T(!new)>(g: Graph<T>, u: T, v: T) {
    Reaches(g, u, v) && Reaches(g, v, u)
  }

  /** Every edge that leaves a vertex of s ends in s. */
  ghost predicate Closed<T>(g: Graph<T>, s: set<T>) {
    forall v | v in s :: Succ(g, v) <= s
  }

  ghost predicate Acyclic<T(!new)>(g: Graph<T>) {
    forall v :: !ReachesPlus(g, v, v)
  }

  lemma ReachesSelf<T(!new)>(g: Graph<T>, v: T)
    ensures Reaches(g, v, v)
  {
    assert IsPath(g, [v]) && [v][0] == v;
  }

  lemma ReachesTransitive<T(!new)>(g: Graph<T>, u: T, v: T, w: T)
    requires Reaches(g, u, v) && Reaches(g, v, w)
    ensures Reaches(g, u, w)
  {
    var p :| IsPath(g, p) && p[0] == u && p[|p| - 1] == v;
    var q :| IsPath(g, q) && q[0] == v && q[|q| - 1] == w;
    var r := p + q[1..];
    forall i | 0 < i < |r|
      ensures r[i] in Succ(g, r[i - 1])
    {
      if i >= |p| {
        assert q[i - |p| + 1] in Succ(g, q[i - |p|]);
      }
    }
    assert IsPath(g, r) && r[0] == u && r[|r| - 1] == w;
  }

  lemma ReachesEdge<T(!new)>(g: Graph<T>, u: T, v: T)
    requires v in Succ(g, u)
    ensures Reaches(g, u, v)
  {
    assert IsPath(g, [u, v]) && [u, v][0] == u;
  }

  lemma ReachesStep<T(!new)>(g: Graph<T>, u: T, v: T, w: T)
    requires v in Succ(g, u) && Reaches(g, v, w)
    ensures Reaches(g, u, w)
  {
    ReachesEdge(g, u, v);
    ReachesTransitive(g, u, v, w);
  }

  /** A closed set that holds the start of a path holds all of it. */
  lemma PathStaysInside<T(!new)>(g: Graph<T>, s: set<T>, p: seq<T>, k: nat)
    requires Closed(g, s) && IsPath(g, p) && p[0] in s && k < |p|
    ensures p[k] in s
  {
    if k > 0 {
      PathStaysInside(g, s, p, k - 1);
      assert p[k] in Succ(g, p[k - 1]);
    }
  }

  lemma ClosedHoldsReachable<T(!new)>(g: Graph<T>, s: set<T>, u: T, v: T)
    requires Closed(g, s) && u in s && Reaches(g, u, v)
    ensures v in s
  {
    var p :| IsPath(g, p) && p[0] == u && p[|p| - 1] == v;
    PathStaysInside(g, s, p, |p| - 1);
  }

  /** A walk that goes somewhere else starts with an edge. */
  lemma ReachesFirstStep<T(!new)>(g: Graph<T>, u: T, v: T)
    requires Reaches(g, u, v) && u != v
    ensures ReachesPlus(g, u, v)
  {
    var p :| IsPath(g, p) && p[0] == u && p[|p| - 1] == v;
    var q := p[1..];
    assert p[1] in Succ(g, p[0]);
    forall i | 0 < i < |q|
      ensures q[i] in Succ(g, q[i - 1])
    {
      assert p[i + 1] in Succ(g, p[i + 1 - 1]);
    }
    assert IsPath(g, q) && q[0] == p[1] && q[|q| - 1] == v;
    assert q[0] in Succ(g, u) && Reaches(g, q[0], v);
  }

  lemma ReachesPlusReaches<T(!new)>(g: Graph<T>, u: T, v: T)
    requires ReachesPlus(g, u, v)
    ensures Reaches(g, u, v)
  {
    var w :| w in Succ(g, u) && Reaches(g, w, v);
    ReachesStep(g, u, w, v);
  }

  lemma ReachesPlusTransitive<T(!new)>(g: Graph<T>, u: T, v: T, w: T)
    requires ReachesPlus(g, u, v) && Reaches(g, v, w)
    ensures ReachesPlus(g, u, w)
  {
    var x :| x in Succ(g, u) && Reaches(g, x, v);
    ReachesTransitive(g, x, v, w);
  }
}
