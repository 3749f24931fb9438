/** Finite directed graphs given as adjacency lists, and the notions a search over
    them is specified by: walks, reachability and strongly connected components. */
module Graphs {

  /** A name that is not a key of the graph is a node without successors. */
  type Graph<T> = map<T, seq<T>>

  function Successors<T>(g: Graph<T>, u: T): seq<T> {
    if u in g then g[u] else []
  }

  /** Every name the graph mentions, as a key or as a successor. */
  ghost function Nodes<T>(g: Graph<T>): set<T> {
    g.Keys + set u, v | u in g && v in g[u] :: v
  }

  ghost predicate IsWalk<T>(g: Graph<T>, p: seq<T>, u: T, v: T) {
    && |p| > 0 && p[0] == u && p[|p| - 1] == v
    && forall i :: 0 <= i < |p| - 1 ==> p[i + 1] in Successors(g, p[i])
  }

  ghost predicate Reach<T(!new)>(g: Graph<T>, u: T, v: T) {
    exists p :: IsWalk(g, p, u, v)
  }

  /** All members are mutually reachable, and nothing outside is mutually reachable with a member. */
  ghost predicate IsComponent<T(!new)>(g: Graph<T>, c: set<T>) {
    && c != {}
    && forall u, v :: u in c ==> (v in c <==> Reach(g, u, v) && Reach(g, v, u))
  }

  lemma ReachSelf<T(!new)>(g: Graph<T>, u: T)
    ensures Reach(g, u, u)
  {
    assert IsWalk(g, [u], u, u);
  }

  lemma ReachEdge<T(!new)>(g: Graph<T>, u: T, v: T)
    requires v in Successors(g, u)
    ensures Reach(g, u, v)
  {
    assert IsWalk(g, [u, v], u, v);
  }

  lemma ReachTransitive<T(!new)>(g: Graph<T>, u: T, v: T, w: T)
    requires Reach(g, u, v) && Reach(g, v, w)
    ensures Reach(g, u, w)
  {
    var p :| IsWalk(g, p, u, v);
    var q :| IsWalk(g, q, v, w);
    var r := p[..|p| - 1] + q;
    forall i | 0 <= i < |r| - 1
      ensures r[i + 1] in Successors(g, r[i])
    {
      if i < |p| - 1 {
        assert r[i] == p[i] && r[i + 1] == p[i + 1];
      } else {
        assert r[i] == q[i - (|p| - 1)] && r[i + 1] == q[i + 1 - (|p| - 1)];
      }
    }
    assert IsWalk(g, r, u, w);
  }

  /** A walk out of a set has an edge that leaves the set. */
  lemma LeavingEdge<T(!new)>(g: Graph<T>, s: set<T>, u: T, v: T) returns (x: T, y: T)
    requires Reach(g, u, v) && u in s && v !in s
    ensures x in s && y !in s && y in Successors(g, x) && Reach(g, y, v)
  {
    var p :| IsWalk(g, p, u, v);
    var i := 0;
    while p[i + 1] in s
      invariant 0 <= i < |p| - 1 && p[i] in s
      decreases |p| - i
    {
      i := i + 1;
    }
    x, y := p[i], p[i + 1];
    assert IsWalk(g, p[i + 1..], y, v);
  }

  /** A set that contains its members' successors contains whatever they reach. */
  lemma ClosedUnderReach<T(!new)>(g: Graph<T>, s: set<T>, u: T, v: T)
    requires forall a, b :: a in s && b in Successors(g, a) ==> b in s
    requires u in s && Reach(g, u, v)
    ensures v in s
  {
    if v !in s {
      var x, y := LeavingEdge(g, s, u, v);
    }
  }
}
