/** Directed graphs over the nodes 0..n-1, as seen by all control-flow analyses.
    The compiler keeps successors and predecessors in hash sets whose iteration order is
    arbitrary; here they are sequences in an arbitrary order, so that everything proved
    about a walk over them holds for every iteration order. */
module Graphs {

  datatype Graph = Graph(succs: seq<seq<nat>>, preds: seq<seq<nat>>) {
    ghost predicate Valid() {
      && |succs| == |preds|
      && (forall u, v | 0 <= u < |succs| && v in succs[u] :: v < |succs|)
      && (forall u, v | 0 <= v < |preds| && u in preds[v] :: u < |preds|)
      && (forall u, v | 0 <= u < |succs| && 0 <= v < |preds| :: v in succs[u] <==> u in preds[v])
    }

    /** The same graph with all edges turned around. */
    function Reverse(): Graph {
      Graph(preds, succs)
    }

    ghost predicate Edge(u: nat, v: nat) {
      u < |succs| && v in succs[u]
    }
  }

  /** p lists the nodes of a walk along edges of g. */
  ghost predicate IsWalk(g: Graph, p: seq<nat>) {
    && |p| > 0
    && p[0] < |g.succs|
    && (forall i | 0 <= i < |p| - 1 :: g.Edge(p[i], p[i + 1]))
  }

  ghost predicate WalkFromTo(g: Graph, p: seq<nat>, u: nat, v: nat) {
    IsWalk(g, p) && p[0] == u && p[|p| - 1] == v
  }

  ghost predicate Reaches(g: Graph, u: nat, v: nat) {
    exists p :: WalkFromTo(g, p, u, v)
  }

  lemma WalkInRange(g: Graph, p: seq<nat>, i: nat)
    requires g.Valid() && IsWalk(g, p) && i < |p|
    ensures p[i] < |g.succs|
  {
    if i > 0 {
      WalkInRange(g, p, i - 1);
      assert g.Edge(p[i - 1], p[i - 1 + 1]);
    }
  }

  lemma ReachesSelf(g: Graph, u: nat)
    requires u < |g.succs|
    ensures Reaches(g, u, u)
  {
    assert WalkFromTo(g, [u], u, u);
  }

  lemma ReachesEdge(g: Graph, u: nat, v: nat)
    requires g.Valid() && g.Edge(u, v)
    ensures Reaches(g, u, v)
  {
    assert WalkFromTo(g, [u, v], u, v);
  }

  lemma ReachesTrans(g: Graph, u: nat, v: nat, w: nat)
    requires Reaches(g, u, v) && Reaches(g, v, w)
    ensures Reaches(g, u, w)
  {
    var p :| WalkFromTo(g, p, u, v);
    var q :| WalkFromTo(g, q, v, w);
    var r := p + q[1..];
    forall i | 0 <= i < |r| - 1
      ensures g.Edge(r[i], r[i + 1])
    {
      if i < |p| - 1 {
        assert g.Edge(p[i], p[i + 1]);
      } else {
        assert g.Edge(q[i - (|p| - 1)], q[i - (|p| - 1) + 1]);
      }
    }
    assert WalkFromTo(g, r, u, w);
  }

  /** A walk leaving a set that is closed under the edges would have to use an edge that leaves it. */
  lemma ClosedUnderReach(g: Graph, s: set<nat>, u: nat, v: nat)
    requires g.Valid()
    requires forall x, y | x in s && g.Edge(x, y) :: y in s
    requires u in s && Reaches(g, u, v)
    ensures v in s
  {
    var p :| WalkFromTo(g, p, u, v);
    ClosedWalk(g, s, p, |p| - 1);
  }

  lemma ClosedWalk(g: Graph, s: set<nat>, p: seq<nat>, i: nat)
    requires g.Valid()
    requires forall x, y | x in s && g.Edge(x, y) :: y in s
    requires IsWalk(g, p) && p[0] in s && i < |p|
    ensures p[i] in s
  {
    if i > 0 {
      ClosedWalk(g, s, p, i - 1);
      assert g.Edge(p[i - 1], p[i - 1 + 1]);
    }
  }

  /** {0, ..., n-1} */
  ghost function Range(n: nat): (r: set<nat>)
    ensures forall x: nat :: x in r <==> x < n
    ensures |r| == n
  {
    if n == 0 then {} else Range(n - 1) + {n - 1}
  }

  lemma SubsetSize(a: set<nat>, b: set<nat>)
    requires a <= b
    ensures |a| <= |b|
    ensures |a| == |b| ==> a == b
  {
    assert b == a + (b - a);
    assert |b| == |a| + |b - a|;
  }
}
