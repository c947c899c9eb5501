/** Reverse post-order numbering of a control-flow graph by depth-first search. */
module Numbering {
  import opened Graphs
  import opened Dominance

  const UNVISITED := -1
  const ACTIVE := -2

  ghost predicate White(index: seq<int>, v: nat) {
    v < |index| && index[v] == UNVISITED
  }

  ghost predicate Gray(index: seq<int>, v: nat) {
    v < |index| && index[v] == ACTIVE
  }

  ghost predicate Black(index: seq<int>, v: nat) {
    v < |index| && index[v] >= 0
  }

  /** The finished nodes carry the indices i..N-1, each once, and rpo inverts index. */
  ghost predicate Numbered(index: seq<int>, rpo: seq<nat>, i: nat) {
    && |index| == |rpo| && i <= |index|
    && (forall v: nat | v < |index| :: index[v] == UNVISITED || index[v] == ACTIVE || i <= index[v] < |index|)
    && (forall v: nat | Black(index, v) :: rpo[index[v]] == v)
    && (forall k | i <= k < |rpo| :: Black(index, rpo[k]) && index[rpo[k]] == k)
  }

  /** An edge either leads to a larger index or back to a node that reaches its source. */
  ghost predicate Forward(g: Graph, index: seq<int>, u: nat, v: nat) {
    u < |index| && v < |index| && ((Black(index, v) && index[u] < index[v]) || Reaches(g, v, u))
  }

  ghost predicate Ordered(g: Graph, index: seq<int>) {
    forall u: nat, v: nat | Black(index, u) && g.Edge(u, v) :: v < |index| && !White(index, v)
        && Forward(g, index, u, v)
  }

  ghost predicate Before(index: seq<int>, u: nat, v: nat)
    requires v < |index|
  {
    Gray(index, u) || (Black(index, u) && index[u] < index[v])
  }

  /** Some predecessor of v is, or will be, numbered before v. */
  ghost predicate HasParent(g: Graph, index: seq<int>, v: nat) {
    v < |index| && exists u: nat :: g.Edge(u, v) && Before(index, u, v)
  }

  ghost predicate Parented(g: Graph, index: seq<int>, entry: nat) {
    forall v: nat {:trigger HasParent(g, index, v)} | Black(index, v) && v != entry :: HasParent(g, index, v)
  }

  ghost function Finished(index: seq<int>): (r: set<nat>)
    ensures forall v: nat :: v in r <==> Black(index, v)
  {
    set v | v in Range(|index|) && index[v] >= 0
  }

  ghost function Whites(index: seq<int>): (r: set<nat>)
    ensures forall v: nat :: v in r <==> White(index, v)
  {
    set v | v in Range(|index|) && index[v] == UNVISITED
  }

  ghost predicate Inv(g: Graph, index: seq<int>, rpo: seq<nat>, entry: nat, i: nat) {
    && g.Valid() && |index| == |g.succs|
    && Numbered(index, rpo, i)
    && |Finished(index)| == |index| - i
    && Ordered(g, index)
    && Parented(g, index, entry)
  }

  /** What a finished visit leaves of the earlier state. */
  ghost predicate Extends(before: seq<int>, after: seq<int>) {
    && |before| == |after|
    && (forall v: nat | v < |before| && before[v] != UNVISITED :: after[v] == before[v])
    && (forall v: nat | v < |before| && before[v] == UNVISITED :: after[v] != ACTIVE)
  }

  lemma FinishCount(index: seq<int>, i: nat, n: nat)
    requires i <= |index| && |Finished(index)| == |index| - i && Gray(index, n)
    ensures i > 0 && |Finished(index[n := i - 1])| == |index| - (i - 1)
  {
    SubsetSize(Finished(index), Range(|index|));
    assert n in Range(|index|) && n !in Finished(index);
    assert Finished(index[n := i - 1]) == Finished(index) + {n};
  }

  lemma FinishNumbered(index: seq<int>, rpo: seq<nat>, i: nat, n: nat)
    requires Numbered(index, rpo, i) && 0 < i && Gray(index, n)
    ensures Numbered(index[n := i - 1], rpo[i - 1 := n], i - 1)
  {
    var index', rpo' := index[n := i - 1], rpo[i - 1 := n];
    forall v: nat | Black(index', v)
      ensures rpo'[index'[v]] == v
    {
      if v != n { assert Black(index, v); }
    }
    forall k | i - 1 <= k < |rpo|
      ensures Black(index', rpo'[k]) && index'[rpo'[k]] == k
    {
      if k >= i { assert Black(index, rpo[k]); }
    }
  }

  lemma FinishOrdered(g: Graph, index: seq<int>, rpo: seq<nat>, i: nat, n: nat)
    requires Numbered(index, rpo, i) && 0 < i && Gray(index, n) && |index| == |g.succs|
    requires g.Valid() && Ordered(g, index)
    requires forall v: nat | g.Edge(n, v) :: !White(index, v)
    requires forall v: nat | Gray(index, v) :: Reaches(g, v, n)
    ensures Ordered(g, index[n := i - 1])
  {
    var index' := index[n := i - 1];
    forall u: nat, v: nat | Black(index', u) && g.Edge(u, v)
      ensures v < |index| && !White(index', v) && Forward(g, index', u, v)
    {
      if u == n {
        if v == n || Gray(index, v) {
          assert Reaches(g, v, n);
        } else {
          assert Black(index, v);
        }
      } else {
        assert Black(index, u);
        assert Forward(g, index, u, v);
      }
    }
  }

  lemma FinishParented(g: Graph, index: seq<int>, rpo: seq<nat>, entry: nat, i: nat, n: nat)
    requires Numbered(index, rpo, i) && 0 < i && Gray(index, n) && Parented(g, index, entry)
    requires n == entry || exists u: nat :: g.Edge(u, n) && Gray(index, u) && u != n
    ensures Parented(g, index[n := i - 1], entry)
  {
    var index' := index[n := i - 1];
    forall v: nat | Black(index', v) && v != entry
      ensures HasParent(g, index', v)
    {
      if v == n {
        var u: nat :| g.Edge(u, n) && Gray(index, u) && u != n;
        assert Before(index', u, v);
      } else {
        assert Black(index, v);
        assert HasParent(g, index, v);
        var u: nat :| g.Edge(u, v) && Before(index, u, v);
        assert Before(index', u, v);
      }
    }
  }

  /** The state just after n was marked as being visited. */
  lemma Start(g: Graph, index: seq<int>, rpo: seq<nat>, entry: nat, i: nat, n: nat)
    requires Inv(g, index, rpo, entry, i) && White(index, n)
    requires forall v: nat | Gray(index, v) :: Reaches(g, v, n)
    ensures Inv(g, index[n := ACTIVE], rpo, entry, i)
    ensures forall v: nat | Gray(index[n := ACTIVE], v) :: Reaches(g, v, n)
    ensures Whites(index[n := ACTIVE]) < Whites(index)
  {
    var index' := index[n := ACTIVE];
    ReachesSelf(g, n);
    assert n in Whites(index) && n !in Whites(index');
    assert Finished(index') == Finished(index);
    forall v: nat | Black(index', v) && v != entry
      ensures HasParent(g, index', v)
    {
      assert HasParent(g, index, v);
      var u: nat :| g.Edge(u, v) && Before(index, u, v);
      assert Before(index', u, v);
    }
    forall u: nat, v: nat | Black(index', u) && g.Edge(u, v)
      ensures v < |index| && !White(index', v) && Forward(g, index', u, v)
    {
      assert Black(index, u);
      assert Forward(g, index, u, v);
    }
  }

  class Rpo {
    const g: Graph
    const entry: nat
    var index: array<int>
    var rpo: array<nat>

    ghost predicate Layout()
      reads this
    {
      g.Valid() && entry < |g.succs| && index.Length == rpo.Length == |g.succs| && index as object != rpo
    }

    /** Every node carries its own index; see IsNumbering. */
    constructor (g: Graph, entry: nat)
      requires g.Valid() && entry < |g.succs|
      requires forall v: nat | v < |g.succs| :: Reaches(g, entry, v)
      ensures this.g == g && this.entry == entry && fresh(index) && fresh(rpo)
      ensures IsNumbering(g, entry, index[..], rpo[..])
    {
      this.g := g;
      this.entry := entry;
      index := new int[|g.succs|](_ => UNVISITED);
      rpo := new nat[|g.succs|](_ => 0);
      new;
      assert Finished(index[..]) == {};
      var i := PostOrderVisit(entry, |g.succs|);
      AllFinished(g, index[..], rpo[..], entry, i);
    }

    method Number(n: nat, i: nat)
      requires Layout() && n < index.Length && i < rpo.Length
      modifies index, rpo
      ensures index[..] == old(index[..])[n := i] && rpo[..] == old(rpo[..])[i := n]
    {
      index[n] := i;
      rpo[i] := n;
    }

    method PostOrderVisit(n: nat, i0: nat) returns (i: nat)
      requires Layout() && Inv(g, index[..], rpo[..], entry, i0)
      requires White(index[..], n)
      requires forall v: nat | Gray(index[..], v) :: Reaches(g, v, n)
      requires n == entry || exists u: nat :: g.Edge(u, n) && Gray(index[..], u)
      modifies index, rpo
      ensures Inv(g, index[..], rpo[..], entry, i)
      ensures Extends(old(index[..]), index[..])
      ensures index[n] == i
      decreases Whites(index[..]), 0
    {
      ghost var s := index[..];
      Start(g, s, rpo[..], entry, i0, n);
      SetActive(n);
      i := VisitSuccs(n, i0);
      FinishVisit(n, i, s);
      i := i - 1;
      Number(n, i);
    }

    method SetActive(n: nat)
      requires Layout() && n < index.Length
      modifies index
      ensures index[..] == old(index[..])[n := ACTIVE]
    {
      index[n] := ACTIVE;
    }

    method VisitSuccs(n: nat, i0: nat) returns (i: nat)
      requires Layout() && Inv(g, index[..], rpo[..], entry, i0)
      requires Gray(index[..], n)
      requires forall v: nat | Gray(index[..], v) :: Reaches(g, v, n)
      modifies index, rpo
      ensures Inv(g, index[..], rpo[..], entry, i)
      ensures Extends(old(index[..]), index[..])
      ensures forall j | 0 <= j < |g.succs[n]| :: !White(index[..], g.succs[n][j])
      decreases Whites(index[..]), 1
    {
      i := i0;
      ghost var s := index[..];
      for k := 0 to |g.succs[n]|
        invariant Inv(g, index[..], rpo[..], entry, i)
        invariant Extends(s, index[..])
        invariant forall j | 0 <= j < k :: !White(index[..], g.succs[n][j])
      {
        var succ := g.succs[n][k];
        assert g.Edge(n, succ);
        if index[succ] == UNVISITED {
          GraysReach(g, s, index[..], n, succ);
          assert Gray(index[..], n);
          ghost var t := index[..];
          assert Whites(t) <= Whites(s);
          i := PostOrderVisit(succ, i);
          ExtendsTrans(s, t, index[..]);
        }
      }
    }

    lemma FinishVisit(n: nat, i: nat, s: seq<int>)
      requires Layout() && Inv(g, index[..], rpo[..], entry, i)
      requires White(s, n) && Extends(s[n := ACTIVE], index[..])
      requires forall j | 0 <= j < |g.succs[n]| :: !White(index[..], g.succs[n][j])
      requires forall v: nat | Gray(s[n := ACTIVE], v) :: Reaches(g, v, n)
      requires n == entry || exists u: nat :: g.Edge(u, n) && Gray(s, u)
      ensures i > 0 && Inv(g, index[..][n := i - 1], rpo[..][i - 1 := n], entry, i - 1)
      ensures Extends(s, index[..][n := i - 1])
    {
      FinishCount(index[..], i, n);
      ExtendsFinish(s, index[..], n, i - 1);
      FinishNumbered(index[..], rpo[..], i, n);
      FinishOrdered(g, index[..], rpo[..], i, n);
      if n != entry {
        var u: nat :| g.Edge(u, n) && Gray(s, u);
        assert Gray(s[n := ACTIVE], u) && Gray(index[..], u);
      }
      FinishParented(g, index[..], rpo[..], entry, i, n);
    }
  }

  lemma ExtendsTrans(r: seq<int>, s: seq<int>, t: seq<int>)
    requires Extends(r, s) && Extends(s, t)
    ensures Extends(r, t)
  {}

  lemma ExtendsFinish(s: seq<int>, t: seq<int>, n: nat, i: nat)
    requires White(s, n) && Extends(s[n := ACTIVE], t)
    ensures Extends(s, t[n := i])
  {}

  /** What is being visited reaches n, hence also the successor to be visited next. */
  lemma GraysReach(g: Graph, s: seq<int>, index: seq<int>, n: nat, succ: nat)
    requires g.Valid() && Extends(s, index) && g.Edge(n, succ)
    requires forall v: nat | Gray(s, v) :: Reaches(g, v, n)
    ensures forall v: nat | Gray(index, v) :: Reaches(g, v, succ)
  {
    forall v: nat | Gray(index, v)
      ensures Reaches(g, v, succ)
    {
      assert Gray(s, v);
      ReachesEdge(g, n, succ);
      ReachesTrans(g, v, n, succ);
    }
  }

  ghost predicate HasEarlierPred(g: Graph, index: seq<int>, v: nat)
    requires v < |index|
  {
    exists u: nat :: u < |index| && g.Edge(u, v) && index[u] < index[v]
  }

  /** The result: a bijection between nodes and 0..N-1 that starts at the entry, gives every other
      node a predecessor with a smaller index, and turns back only along cycles. */
  ghost predicate IsNumbering(g: Graph, entry: nat, index: seq<int>, rpo: seq<nat>) {
    && g.Valid() && entry < |g.succs| && |index| == |rpo| == |g.succs|
    && (forall v: nat | v < |index| :: 0 <= index[v] < |rpo| && rpo[index[v]] == v)
    && (forall k | 0 <= k < |rpo| :: rpo[k] < |index| && index[rpo[k]] == k)
    && index[entry] == 0
    && (forall v: nat | v < |index| && v != entry :: HasEarlierPred(g, index, v))
    && (forall u: nat, v: nat | g.Edge(u, v) && index[v] <= index[u] :: Reaches(g, v, u))
  }

  lemma AllFinished(g: Graph, index: seq<int>, rpo: seq<nat>, entry: nat, i: nat)
    requires Inv(g, index, rpo, entry, i) && entry < |index| && index[entry] == i
    requires forall v: nat :: !Gray(index, v)
    requires forall v: nat | v < |g.succs| :: Reaches(g, entry, v)
    ensures IsNumbering(g, entry, index, rpo)
  {
    forall v: nat | v < |index|
      ensures Black(index, v)
    {
      forall x, y | x in Finished(index) && g.Edge(x, y)
        ensures y in Finished(index)
      {
        assert !White(index, y) && !Gray(index, y);
      }
      ClosedUnderReach(g, Finished(index), entry, v);
    }
    assert Finished(index) == Range(|index|);
    forall v: nat | v < |index|
      ensures 0 <= index[v] < |rpo| && rpo[index[v]] == v
    {
      assert Black(index, v);
    }
    forall v: nat | v < |index| && v != entry
      ensures HasEarlierPred(g, index, v)
    {
      assert HasParent(g, index, v);
    }
    forall u: nat, v: nat | g.Edge(u, v) && index[v] <= index[u]
      ensures Reaches(g, v, u)
    {
      assert Forward(g, index, u, v);
    }
  }

  function Indices(index: seq<int>, s: seq<nat>): (r: seq<nat>)
    ensures |r| == |s|
  {
    seq(|s|, i requires 0 <= i < |s| => if s[i] < |index| && index[s[i]] >= 0 then index[s[i]] else 0)
  }

  /** The lists of neighbours, renumbered and listed in the order of the new numbers. */
  function Relist(index: seq<int>, rpo: seq<nat>, lists: seq<seq<nat>>): (r: seq<seq<nat>>)
    ensures |r| == |rpo|
  {
    seq(|rpo|, k requires 0 <= k < |rpo| => if rpo[k] < |lists| then Indices(index, lists[rpo[k]]) else [])
  }

  /** The graph with every node replaced by its index: what Map<index> and Set<index> of the analyses work on. */
  function Renumber(g: Graph, index: seq<int>, rpo: seq<nat>): (r: Graph) {
    Graph(Relist(index, rpo, g.succs), Relist(index, rpo, g.preds))
  }

  lemma RelistHas(index: seq<int>, rpo: seq<nat>, lists: seq<seq<nat>>, u: nat, l: nat)
    requires |index| == |rpo| == |lists| && u < |index|
    requires forall v: nat | v < |index| :: 0 <= index[v] < |rpo| && rpo[index[v]] == v
    requires forall x | x in lists[u] :: x < |index|
    ensures l in Relist(index, rpo, lists)[index[u]]
      <==> l < |rpo| && rpo[l] in lists[u] && rpo[l] < |index| && index[rpo[l]] == l
  {
    var s := lists[u];
    if l in Indices(index, s) {
      var i :| 0 <= i < |s| && Indices(index, s)[i] == l;
      assert s[i] in s;
    }
    if l < |rpo| && rpo[l] in s && rpo[l] < |index| && index[rpo[l]] == l {
      var i :| 0 <= i < |s| && s[i] == rpo[l];
      assert Indices(index, s)[i] == l;
    }
  }

  lemma RenumberEdge(g: Graph, entry: nat, index: seq<int>, rpo: seq<nat>, u: nat, l: nat)
    requires IsNumbering(g, entry, index, rpo) && u < |index|
    ensures Renumber(g, index, rpo).Edge(index[u], l) <==> l < |rpo| && g.Edge(u, rpo[l])
    ensures l in Renumber(g, index, rpo).preds[index[u]] <==> l < |rpo| && g.Edge(rpo[l], u)
  {
    assert forall x | x in g.succs[u] :: g.Edge(u, x);
    RelistHas(index, rpo, g.succs, u, l);
    RelistHas(index, rpo, g.preds, u, l);
  }

  lemma ValidByEdges(g: Graph, r: Graph, rpo: seq<nat>)
    requires |r.succs| == |r.preds| == |rpo|
    requires forall k: nat, l: nat {:trigger l in r.succs[k]} | k < |rpo| ::
               l in r.succs[k] <==> l < |rpo| && g.Edge(rpo[k], rpo[l])
    requires forall k: nat, l: nat {:trigger l in r.preds[k]} | k < |rpo| ::
               l in r.preds[k] <==> l < |rpo| && g.Edge(rpo[l], rpo[k])
    ensures r.Valid()
  {}

  /** The renumbered graph is what the dominator and loop analyses ask for. */
  lemma RenumberIsRpo(g: Graph, entry: nat, index: seq<int>, rpo: seq<nat>)
    requires IsNumbering(g, entry, index, rpo)
    ensures IsRpo(Renumber(g, index, rpo))
  {
    var r := Renumber(g, index, rpo);
    forall k: nat, l: nat | k < |rpo|
      ensures l in r.succs[k] <==> l < |rpo| && g.Edge(rpo[k], rpo[l])
      ensures l in r.preds[k] <==> l < |rpo| && g.Edge(rpo[l], rpo[k])
    {
      RenumberEdge(g, entry, index, rpo, rpo[k], l);
    }
    ValidByEdges(g, r, rpo);
    forall k: nat | 0 < k < |r.preds|
      ensures HasLowerPred(r, k)
    {
      assert HasEarlierPred(g, index, rpo[k]);
      var u: nat :| u < |index| && g.Edge(u, rpo[k]) && index[u] < index[rpo[k]];
      assert index[u] in r.preds[k];
    }
  }

  /** d lies on every walk from the entry to n, in a graph that was not renumbered. */
  ghost predicate DomFrom(g: Graph, entry: nat, d: nat, n: nat) {
    forall p | WalkFromTo(g, p, entry, n) :: d in p
  }

  lemma RenumberWalk(g: Graph, entry: nat, index: seq<int>, rpo: seq<nat>, p: seq<nat>, n: nat)
    requires IsNumbering(g, entry, index, rpo) && WalkFromTo(g, p, entry, n)
    ensures forall i | 0 <= i < |p| :: p[i] < |index|
    ensures WalkFromTo(Renumber(g, index, rpo), Indices(index, p), 0, index[n])
  {
    forall i | 0 <= i < |p|
      ensures p[i] < |index|
    {
      WalkInRange(g, p, i);
    }
    RenumberSteps(g, entry, index, rpo, p);
  }

  lemma RenumberSteps(g: Graph, entry: nat, index: seq<int>, rpo: seq<nat>, p: seq<nat>)
    requires IsNumbering(g, entry, index, rpo) && IsWalk(g, p) && forall i | 0 <= i < |p| :: p[i] < |index|
    ensures IsWalk(Renumber(g, index, rpo), Indices(index, p))
  {
    var q := Indices(index, p);
    forall i | 0 <= i < |q| - 1
      ensures Renumber(g, index, rpo).Edge(q[i], q[i + 1])
    {
      assert g.Edge(p[i], p[i + 1]);
      RenumberEdge(g, entry, index, rpo, p[i], index[p[i + 1]]);
    }
  }

  lemma UnnumberWalk(g: Graph, entry: nat, index: seq<int>, rpo: seq<nat>, q: seq<nat>, n: nat)
    requires IsNumbering(g, entry, index, rpo) && n < |index|
    requires WalkFromTo(Renumber(g, index, rpo), q, 0, index[n])
    ensures forall i | 0 <= i < |q| :: q[i] < |rpo|
    ensures WalkFromTo(g, seq(|q|, i requires 0 <= i < |q| => rpo[q[i]]), entry, n)
  {
    var r := Renumber(g, index, rpo);
    RenumberIsRpo(g, entry, index, rpo);
    forall i | 0 <= i < |q|
      ensures q[i] < |rpo|
    {
      WalkInRange(r, q, i);
    }
    var p := seq(|q|, i requires 0 <= i < |q| => rpo[q[i]]);
    forall i | 0 <= i < |p| - 1
      ensures g.Edge(p[i], p[i + 1])
    {
      assert r.Edge(q[i], q[i + 1]);
      RenumberEdge(g, entry, index, rpo, p[i], q[i + 1]);
    }
    assert rpo[index[entry]] == entry;
  }

  /** Dominance does not depend on the numbering. */
  lemma RenumberDom(g: Graph, entry: nat, index: seq<int>, rpo: seq<nat>, d: nat, n: nat)
    requires IsNumbering(g, entry, index, rpo) && d < |index| && n < |index|
    ensures DomFrom(g, entry, d, n) <==> Dom(Renumber(g, index, rpo), index[d], index[n])
  {
    var r := Renumber(g, index, rpo);
    if DomFrom(g, entry, d, n) {
      forall q | WalkFromTo(r, q, 0, index[n])
        ensures index[d] in q
      {
        UnnumberWalk(g, entry, index, rpo, q, n);
        var p := seq(|q|, i requires 0 <= i < |q| => rpo[q[i]]);
        var i :| 0 <= i < |p| && p[i] == d;
        assert index[rpo[q[i]]] == q[i];
      }
    }
    if Dom(r, index[d], index[n]) {
      forall p | WalkFromTo(g, p, entry, n)
        ensures d in p
      {
        RenumberWalk(g, entry, index, rpo, p, n);
        var i :| 0 <= i < |p| && Indices(index, p)[i] == index[d];
        assert rpo[index[p[i]]] == p[i];
      }
    }
  }
}
