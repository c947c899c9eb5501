/** Immediate dominators by iteration over reverse post-order (Cooper et al. 2001).
    Nodes are identified with their reverse post-order index, 0 being the entry. */
module Trees {
  import opened Graphs

  /** A parent array in which every node but the root has a parent of smaller index. */
  ghost predicate IsTree(t: seq<nat>) {
    |t| > 0 && t[0] == 0 && forall n | 0 < n < |t| :: t[n] < n
  }

  /** n, its parent, the parent of that, ... down to the root. */
  ghost function Anc(t: seq<nat>, n: nat): set<nat>
    requires IsTree(t) && n < |t|
    decreases n
  {
    if n == 0 then {0} else {n} + Anc(t, t[n])
  }

  lemma {:induction false} AncBound(t: seq<nat>, n: nat)
    requires IsTree(t) && n < |t|
    ensures forall a | a in Anc(t, n) :: a <= n
    ensures n in Anc(t, n) && 0 in Anc(t, n)
    decreases n
  {
    if n > 0 { AncBound(t, t[n]); }
  }

  lemma {:induction false} AncTrans(t: seq<nat>, a: nat, n: nat)
    requires IsTree(t) && n < |t| && a in Anc(t, n)
    ensures a < |t| && Anc(t, a) <= Anc(t, n)
    decreases n
  {
    if a != n { AncTrans(t, a, t[n]); }
  }

  /** The ancestors of a node form a chain ordered by index. */
  lemma {:induction false} AncChain(t: seq<nat>, a: nat, b: nat, n: nat)
    requires IsTree(t) && n < |t| && a in Anc(t, n) && b in Anc(t, n) && a <= b
    ensures b < |t| && a in Anc(t, b)
    decreases n
  {
    AncBound(t, n);
    if b != n {
      AncBound(t, t[n]);
      AncChain(t, a, b, t[n]);
    }
  }

  /** Hooking k, with everything below it, further up its own ancestor chain: nodes that are not
      below k keep their ancestors, nodes below k lose exactly the ancestors of the old parent
      that are not ancestors of the new one. */
  lemma {:induction false} Rehook(t: seq<nat>, k: nat, up: nat, x: nat)
    requires IsTree(t) && 0 < k < |t| && up in Anc(t, t[k]) && x < |t|
    ensures up < k && IsTree(t[k := up])
    ensures k !in Anc(t, x) ==> Anc(t[k := up], x) == Anc(t, x)
    ensures k in Anc(t, x) ==> Anc(t[k := up], x) == Anc(t, x) - (Anc(t, t[k]) - Anc(t, up))
    decreases x
  {
    AncBound(t, t[k]);
    AncTrans(t, up, t[k]);
    AncBound(t, x);
    var t' := t[k := up];
    if x == 0 {
    } else if x == k {
      AncBound(t, up);
      Rehook(t, k, up, up);
    } else {
      Rehook(t, k, up, t[x]);
      if k in Anc(t, x) { AncBound(t, t[x]); }
    }
  }
}

/** Dominance, independently of any algorithm. */
module Dominance {
  import opened Graphs

  /** What the numbering of the control-flow graph provides. */
  ghost predicate IsRpo(g: Graph) {
    && g.Valid()
    && |g.succs| > 0
    && forall n | 0 < n < |g.preds| :: HasLowerPred(g, n)
  }

  ghost predicate HasLowerPred(g: Graph, n: nat)
    requires n < |g.preds|
  {
    exists p :: p in g.preds[n] && p < n
  }

  /** d lies on every walk from the entry to n. */
  ghost predicate Dom(g: Graph, d: nat, n: nat) {
    forall p | WalkFromTo(g, p, 0, n) :: d in p
  }

  lemma {:induction false} EntryReaches(g: Graph, n: nat)
    requires IsRpo(g) && n < |g.succs|
    ensures Reaches(g, 0, n)
    decreases n
  {
    if n == 0 {
      ReachesSelf(g, 0);
    } else {
      assert HasLowerPred(g, n);
      var p :| p in g.preds[n] && p < n;
      EntryReaches(g, p);
      ReachesEdge(g, p, n);
      ReachesTrans(g, 0, p, n);
    }
  }

  lemma DomSelf(g: Graph, n: nat)
    ensures Dom(g, n, n)
  {}

  lemma DomEntry(g: Graph, d: nat)
    requires IsRpo(g) && Dom(g, d, 0)
    ensures d == 0
  {
    assert WalkFromTo(g, [0], 0, 0);
  }

  lemma ExtendWalk(g: Graph, w: seq<nat>, p: nat, n: nat)
    requires g.Valid() && WalkFromTo(g, w, 0, p) && g.Edge(p, n)
    ensures WalkFromTo(g, w + [n], 0, n)
  {
    var q := w + [n];
    forall i | 0 <= i < |q| - 1
      ensures g.Edge(q[i], q[i + 1])
    {
      if i < |w| - 1 { assert g.Edge(w[i], w[i + 1]); }
    }
  }

  /** A strict dominator of n dominates every predecessor of n. */
  lemma DomPred(g: Graph, d: nat, n: nat, p: nat)
    requires g.Valid() && Dom(g, d, n) && d != n && g.Edge(p, n)
    ensures Dom(g, d, p)
  {
    forall w | WalkFromTo(g, w, 0, p)
      ensures d in w
    {
      ExtendWalk(g, w, p, n);
      assert d in w + [n];
    }
  }

  /** Conversely, what dominates every predecessor of a node other than the entry dominates the node. */
  lemma DomAllPreds(g: Graph, d: nat, n: nat)
    requires g.Valid() && n != 0
    requires forall p | g.Edge(p, n) :: Dom(g, d, p)
    ensures Dom(g, d, n)
  {
    forall w | WalkFromTo(g, w, 0, n)
      ensures d in w
    {
      var k := |w| - 1;
      assert g.Edge(w[k - 1], w[k - 1 + 1]);
      forall i | 0 <= i < k - 1
        ensures g.Edge(w[..k][i], w[..k][i + 1])
      {
        assert g.Edge(w[i], w[i + 1]);
      }
      assert WalkFromTo(g, w[..k], 0, w[k - 1]);
      assert d in w[..k];
    }
  }
}

module DomTrees {
  import opened Graphs
  import opened Trees
  import opened Dominance

  /** a is a tree ancestor of every predecessor of n. */
  ghost predicate Common(g: Graph, t: seq<nat>, n: nat, a: nat)
    requires g.Valid() && IsTree(t) && |t| == |g.preds| && n < |t|
  {
    forall p | p in g.preds[n] :: a in Anc(t, p)
  }

  ghost predicate Shape(g: Graph, t: seq<nat>) {
    IsRpo(g) && IsTree(t) && |t| == |g.preds|
  }

  /** Strict dominators of n dominate its parent. */
  ghost predicate KeepsDoms(g: Graph, t: seq<nat>) {
    Shape(g, t) && forall d, n | 0 < n < |t| && d != n && Dom(g, d, n) :: Dom(g, d, t[n])
  }

  /** Common ancestors of n's predecessors are ancestors of n's parent. */
  ghost predicate KeepsCommon(g: Graph, t: seq<nat>) {
    Shape(g, t) && forall n, a | 0 < n < |t| && Common(g, t, n, a) :: a in Anc(t, t[n])
  }

  /** n's parent lies on the tree path of a predecessor of smaller index. */
  ghost predicate OnLowPath(g: Graph, t: seq<nat>, n: nat)
    requires Shape(g, t) && n < |t|
  {
    exists p :: p in g.preds[n] && p < n && t[n] in Anc(t, p)
  }

  /** Every node is fine, or it is still to be visited in the current pass, which stands at k. */
  ghost predicate Pending(g: Graph, t: seq<nat>, k: nat) {
    Shape(g, t) && forall n | 0 < n < |t| :: OnLowPath(g, t, n) || (t[n] < k <= n)
  }

  ghost predicate Inv(g: Graph, t: seq<nat>, k: nat) {
    KeepsDoms(g, t) && KeepsCommon(g, t) && Pending(g, t, k)
  }

  /** up is the least common ancestor of all predecessors of n. */
  ghost predicate IsMeet(g: Graph, t: seq<nat>, n: nat, up: nat)
    requires Shape(g, t) && n < |t|
  {
    up < |t| && forall a :: a in Anc(t, up) <==> Common(g, t, n, a)
  }

  lemma MeetIsAncestor(g: Graph, t: seq<nat>, n: nat, up: nat)
    requires Inv(g, t, n) && 0 < n < |t| && IsMeet(g, t, n, up)
    ensures up in Anc(t, t[n]) && up <= t[n] && IsTree(t[n := up])
    ensures exists p :: p in g.preds[n] && p < n && up in Anc(t, p)
  {
    AncBound(t, up);
    assert Common(g, t, n, up);
    AncBound(t, t[n]);
    assert HasLowerPred(g, n);
    var p :| p in g.preds[n] && p < n;
    assert up in Anc(t, p);
  }

  /** A dominator of p that lies above x on the chain of p also dominates x. */
  lemma {:induction false} DomAlongChain(g: Graph, t: seq<nat>, d: nat, x: nat, p: nat)
    requires KeepsDoms(g, t) && p < |t| && Dom(g, d, p) && x in Anc(t, p) && d <= x
    ensures Dom(g, d, x)
    decreases p
  {
    AncBound(t, p);
    if x != p {
      AncBound(t, t[p]);
      DomAlongChain(g, t, d, x, t[p]);
    }
  }

  /** Dominators are tree ancestors, all through the computation. */
  lemma {:induction false} DomIsAncestor(g: Graph, t: seq<nat>, d: nat, n: nat)
    requires KeepsDoms(g, t) && n < |t| && Dom(g, d, n)
    ensures d in Anc(t, n)
    decreases n
  {
    if n == 0 {
      DomEntry(g, d);
    } else if d != n {
      DomIsAncestor(g, t, d, t[n]);
    }
  }

  lemma StepKeepsDoms(g: Graph, t: seq<nat>, k: nat, up: nat)
    requires Inv(g, t, k) && 0 < k < |t| && IsMeet(g, t, k, up)
    ensures KeepsDoms(g, t[k := up])
  {
    MeetIsAncestor(g, t, k, up);
    var p :| p in g.preds[k] && p < k && up in Anc(t, p);
    forall d | d != k && Dom(g, d, k)
      ensures Dom(g, d, up)
    {
      forall q | q in g.preds[k]
        ensures d in Anc(t, q)
      {
        DomPred(g, d, k, q);
        DomIsAncestor(g, t, d, q);
      }
      assert Common(g, t, k, d);
      AncBound(t, up);
      DomPred(g, d, k, p);
      DomAlongChain(g, t, d, up, p);
    }
  }

  /** Ancestor sets only shrink. */
  lemma StepShrinks(g: Graph, t: seq<nat>, k: nat, up: nat, x: nat)
    requires Shape(g, t) && 0 < k < |t| && up in Anc(t, t[k]) && x < |t|
    ensures up < k && IsTree(t[k := up]) && Anc(t[k := up], x) <= Anc(t, x)
  {
    Rehook(t, k, up, x);
  }

  lemma StepKeepsCommon(g: Graph, t: seq<nat>, k: nat, up: nat, n: nat, a: nat)
    requires Inv(g, t, k) && 0 < k < |t| && IsMeet(g, t, k, up) && 0 < n < |t|
    requires up < k && Shape(g, t[k := up]) && Common(g, t[k := up], n, a)
    ensures a in Anc(t[k := up], t[k := up][n])
  {
    MeetIsAncestor(g, t, k, up);
    var t' := t[k := up];
    forall p | p in g.preds[n]
      ensures a in Anc(t, p)
    {
      StepShrinks(g, t, k, up, p);
    }
    assert Common(g, t, n, a);
    if n == k {
      AncBound(t, up);
      Rehook(t, k, up, up);
    } else {
      assert a in Anc(t, t[n]);
      Rehook(t, k, up, t[n]);
      if k in Anc(t, t[n]) {
        AncBound(t, t[n]);
        var p :| p in g.preds[n] && p < n && t[n] in Anc(t, p);
        AncTrans(t, t[n], p);
        Rehook(t, k, up, p);
      }
    }
  }

  lemma StepPending(g: Graph, t: seq<nat>, k: nat, up: nat, n: nat)
    requires Inv(g, t, k) && 0 < k < |t| && IsMeet(g, t, k, up) && 0 < n < |t|
    requires Shape(g, t[k := up])
    ensures OnLowPath(g, t[k := up], n) || t[k := up][n] < k + 1 <= n
  {
    MeetIsAncestor(g, t, k, up);
    var t' := t[k := up];
    if n == k {
      var p :| p in g.preds[k] && p < k && up in Anc(t, p);
      AncBound(t, p);
      Rehook(t, k, up, p);
      assert p in g.preds[n] && p < n && t'[n] in Anc(t', p);
    } else if OnLowPath(g, t, n) {
      var p :| p in g.preds[n] && p < n && t[n] in Anc(t, p);
      Rehook(t, k, up, p);
      if t[n] in Anc(t', p) {
        assert OnLowPath(g, t', n);
      } else {
        AncBound(t, p);
        AncBound(t, t[k]);
      }
    }
  }

  lemma StepKeepsInv(g: Graph, t: seq<nat>, k: nat, up: nat)
    requires Inv(g, t, k) && 0 < k < |t| && IsMeet(g, t, k, up)
    ensures up <= t[k] && Inv(g, t[k := up], k + 1)
  {
    MeetIsAncestor(g, t, k, up);
    var t' := t[k := up];
    assert Shape(g, t');
    StepKeepsDoms(g, t, k, up);
    forall n, a | 0 < n < |t'| && Common(g, t', n, a)
      ensures a in Anc(t', t'[n])
    {
      StepKeepsCommon(g, t, k, up, n, a);
    }
    forall n | 0 < n < |t'|
      ensures OnLowPath(g, t', n) || t'[n] < k + 1 <= n
    {
      StepPending(g, t, k, up, n);
    }
  }

  /** Nothing left to do: every parent is the meet of the predecessors. */
  ghost predicate Stable(g: Graph, t: seq<nat>, k: nat) {
    Shape(g, t) && forall n | 0 < n < k && n < |t| :: IsMeet(g, t, n, t[n])
  }

  lemma {:induction false} AncestorOnWalk(g: Graph, t: seq<nat>, a: nat, n: nat, w: seq<nat>)
    requires Stable(g, t, |t|) && n < |t| && a in Anc(t, n) && WalkFromTo(g, w, 0, n)
    ensures a in w
    decreases |w|
  {
    if n == 0 {
    } else if a != n {
      var k := |w| - 1;
      assert g.Edge(w[k - 1], w[k - 1 + 1]);
      WalkInRange(g, w, k - 1);
      assert Common(g, t, n, a);
      forall i | 0 <= i < k - 1
        ensures g.Edge(w[..k][i], w[..k][i + 1])
      {
        assert g.Edge(w[i], w[i + 1]);
      }
      AncestorOnWalk(g, t, a, w[k - 1], w[..k]);
    }
  }

  /** When the iteration stops, the tree ancestors of n are exactly its dominators. */
  lemma FixpointIsDominance(g: Graph, t: seq<nat>, d: nat, n: nat)
    requires KeepsDoms(g, t) && Stable(g, t, |t|) && n < |t|
    ensures d in Anc(t, n) <==> Dom(g, d, n)
  {
    if d in Anc(t, n) {
      forall w | WalkFromTo(g, w, 0, n)
        ensures d in w
      {
        AncestorOnWalk(g, t, d, n, w);
      }
    }
    if Dom(g, d, n) { DomIsAncestor(g, t, d, n); }
  }

  /** t is the dominator tree of g. */
  ghost predicate IsDomTree(g: Graph, t: seq<nat>) {
    Shape(g, t) && forall d: nat, n: nat | n < |t| :: d in Anc(t, n) <==> Dom(g, d, n)
  }

  /** i is the closest strict dominator of n. */
  ghost predicate IsIdom(g: Graph, i: nat, n: nat) {
    && i != n && Dom(g, i, n)
    && forall d | d != n && Dom(g, d, n) :: Dom(g, d, i)
  }

  lemma ParentIsIdom(g: Graph, t: seq<nat>, n: nat)
    requires IsDomTree(g, t) && 0 < n < |t|
    ensures IsIdom(g, t[n], n)
    ensures forall i | IsIdom(g, i, n) :: i == t[n]
  {
    AncBound(t, n);
    AncBound(t, t[n]);
    forall i | IsIdom(g, i, n)
      ensures i == t[n]
    {
      assert Dom(g, t[n], i) && Dom(g, i, t[n]);
      AncTrans(t, i, t[n]);
      AncBound(t, i);
    }
  }

  function Sum(s: seq<nat>): (r: nat) {
    if s == [] then 0 else Sum(s[..|s| - 1]) + s[|s| - 1]
  }

  lemma {:induction false} SumUpdate(s: seq<nat>, k: nat, v: nat)
    requires k < |s|
    ensures Sum(s[k := v]) == Sum(s) - s[k] + v
  {
    var m := |s| - 1;
    if k < m {
      SumUpdate(s[..m], k, v);
      assert s[k := v][..m] == s[..m][k := v];
    } else {
      assert s[k := v][..m] == s[..m];
    }
  }

  /** The nodes 1..k-1 whose parent is m, in ascending order. */
  function Kids(t: seq<nat>, m: nat, k: nat): (r: seq<nat>)
    requires k <= |t|
    ensures forall c :: c in r <==> 0 < c < k && t[c] == m
    ensures forall i, j | 0 <= i < j < |r| :: r[i] < r[j]
  {
    if k <= 1 then [] else
    var r := Kids(t, m, k - 1);
    assert forall i | 0 <= i < |r| :: r[i] in r;
    if t[k - 1] == m then r + [k - 1] else r
  }

  function TreeDepth(t: seq<nat>, n: nat): (r: nat)
    requires IsTree(t) && n < |t|
    decreases n
  {
    if n == 0 then 0 else 1 + TreeDepth(t, t[n])
  }

  lemma {:induction false} DepthCountsAncestors(t: seq<nat>, n: nat)
    requires IsTree(t) && n < |t|
    ensures |Anc(t, n)| == TreeDepth(t, n) + 1
    decreases n
  {
    if n > 0 {
      AncBound(t, t[n]);
      DepthCountsAncestors(t, t[n]);
    }
  }

  /** Below a proper descendant relation there is a child that leads the way. */
  lemma {:induction false} ChildTowards(t: seq<nat>, n: nat, x: nat) returns (c: nat)
    requires IsTree(t) && x < |t| && n in Anc(t, x) && x != n
    ensures n < c < |t| && t[c] == n && c in Anc(t, x)
    decreases x
  {
    AncBound(t, x);
    if t[x] == n {
      c := x;
    } else {
      c := ChildTowards(t, n, t[x]);
    }
  }

  class DomTree {
    const cfg: Graph
    var idoms: array<nat>
    var children: array<seq<nat>>
    var depth: array<nat>

    ghost predicate Layout()
      reads this
    {
      && IsRpo(cfg)
      && idoms.Length == children.Length == depth.Length == |cfg.preds|
      && idoms != depth
    }

    /** The parents form the dominator tree; children and depths agree with it. */
    ghost predicate Valid()
      reads this, idoms, children, depth
    {
      && Layout()
      && IsDomTree(cfg, idoms[..])
      && (forall m | 0 <= m < children.Length :: children[m] == Kids(idoms[..], m, idoms.Length))
      && (forall n | 0 <= n < depth.Length :: depth[n] == TreeDepth(idoms[..], n))
    }

    constructor (g: Graph)
      requires IsRpo(g)
      ensures Valid() && cfg == g && fresh(idoms) && fresh(children) && fresh(depth)
    {
      cfg := g;
      idoms := new nat[|g.preds|](_ => 0);
      children := new seq<nat>[|g.preds|](_ => []);
      depth := new nat[|g.preds|](_ => 0);
      new;
      Create();
      Depth(0, 0);
      forall n | 0 <= n < depth.Length
        ensures depth[n] == TreeDepth(idoms[..], n)
      {
        AncBound(idoms[..], n);
      }
    }

    method Create()
      requires Layout() && (forall m | 0 <= m < children.Length :: children[m] == [])
      modifies idoms, children
      ensures IsDomTree(cfg, idoms[..])
      ensures forall m | 0 <= m < children.Length :: children[m] == Kids(idoms[..], m, idoms.Length)
    {
      idoms[0] := 0;
      FirstIdoms();
      Iterate();
      assert IsTree(idoms[..]);
      assert forall n | 0 <= n < idoms.Length :: idoms[n] == idoms[..][n];
      LinkChildren();
    }

    method LinkChildren()
      requires Layout() && (forall m | 0 <= m < children.Length :: children[m] == [])
      requires forall n | 0 <= n < idoms.Length :: idoms[n] < idoms.Length
      modifies children
      ensures forall m | 0 <= m < children.Length :: children[m] == Kids(idoms[..], m, idoms.Length)
    {
      ghost var t := idoms[..];
      for n := 1 to idoms.Length
        invariant idoms[..] == t
        invariant forall m | 0 <= m < children.Length :: children[m] == Kids(t, m, n)
      {
        children[idoms[n]] := children[idoms[n]] + [n];
      }
    }

    /** All parents are set to the first predecessor found that comes earlier. */
    method FirstIdoms()
      requires Layout() && idoms[0] == 0
      modifies idoms
      ensures Inv(cfg, idoms[..], 1)
    {
      for n := 1 to idoms.Length
        invariant idoms[0] == 0
        invariant forall m | 0 < m < n :: idoms[m] < m && idoms[m] in cfg.preds[m]
      {
        assert HasLowerPred(cfg, n);
        var i := 0;
        while cfg.preds[n][i] >= n
          invariant i < |cfg.preds[n]|
          invariant forall j | 0 <= j < i :: cfg.preds[n][j] >= n
          decreases |cfg.preds[n]| - i
        {
          i := i + 1;
        }
        idoms[n] := cfg.preds[n][i];
      }
      FirstIdomsInv(cfg, idoms[..]);
    }

    /** Passes over the nodes in reverse post-order until nothing changes. */
    method Iterate()
      requires Layout() && Inv(cfg, idoms[..], 1)
      modifies idoms
      ensures IsDomTree(cfg, idoms[..])
    {
      var todo := true;
      while todo
        invariant Inv(cfg, idoms[..], 1)
        invariant !todo ==> Stable(cfg, idoms[..], idoms.Length)
        decreases Sum(idoms[..]), todo
      {
        todo := Pass();
      }
      forall d: nat, n: nat | n < idoms.Length
        ensures d in Anc(idoms[..], n) <==> Dom(cfg, d, n)
      {
        FixpointIsDominance(cfg, idoms[..], d, n);
      }
    }

    /** One pass; every change strictly lowers an index. */
    method Pass() returns (todo: bool)
      requires Layout() && Inv(cfg, idoms[..], 1)
      modifies idoms
      ensures Inv(cfg, idoms[..], 1)
      ensures todo ==> Sum(idoms[..]) < old(Sum(idoms[..]))
      ensures !todo ==> idoms[..] == old(idoms[..]) && Stable(cfg, idoms[..], idoms.Length)
    {
      todo := false;
      for n := 1 to idoms.Length
        invariant Inv(cfg, idoms[..], n)
        invariant todo ==> Sum(idoms[..]) < old(Sum(idoms[..]))
        invariant !todo ==> idoms[..] == old(idoms[..]) && Stable(cfg, idoms[..], n)
      {
        var newIdom := NewIdom(n);
        ghost var t := idoms[..];
        StepKeepsInv(cfg, t, n, newIdom);
        if idoms[n] != newIdom {
          SumUpdate(t, n, newIdom);
          idoms[n] := newIdom;
          assert idoms[..] == t[n := newIdom];
          todo := true;
        } else {
          assert t == t[n := newIdom];
        }
      }
    }

    /** The meet of all predecessors of n in the current tree. */
    method NewIdom(n: nat) returns (newIdom: nat)
      requires Layout() && Shape(cfg, idoms[..]) && 0 < n < idoms.Length
      ensures IsMeet(cfg, idoms[..], n, newIdom)
    {
      assert HasLowerPred(cfg, n);
      assert forall j | 0 <= j < |cfg.preds[n]| :: cfg.preds[n][j] in cfg.preds[n];
      newIdom := cfg.preds[n][0];
      for i := 1 to |cfg.preds[n]|
        invariant newIdom < idoms.Length
        invariant forall a :: a in Anc(idoms[..], newIdom) <==>
                              forall j | 0 <= j < i :: a in Anc(idoms[..], cfg.preds[n][j])
      {
        newIdom := LeastCommonAncestor(newIdom, cfg.preds[n][i]);
      }
    }

    /** The common ancestors of i and j are the ancestors of the result. */
    method LeastCommonAncestor(i0: nat, j0: nat) returns (i: nat)
      requires IsTree(idoms[..]) && i0 < idoms.Length && j0 < idoms.Length
      ensures i < idoms.Length
      ensures Anc(idoms[..], i) == Anc(idoms[..], i0) * Anc(idoms[..], j0)
    {
      i := i0;
      var j: nat := j0;
      while i != j
        invariant i < idoms.Length && j < idoms.Length
        invariant Anc(idoms[..], i) * Anc(idoms[..], j) == Anc(idoms[..], i0) * Anc(idoms[..], j0)
        decreases i + j
      {
        ghost var i1: nat, j1: nat := i, j;
        while i < j
          invariant i < idoms.Length && j < idoms.Length
          invariant Anc(idoms[..], i) * Anc(idoms[..], j) == Anc(idoms[..], i0) * Anc(idoms[..], j0)
          invariant j <= j1
          decreases j
        {
          AncBound(idoms[..], i);
          j := idoms[j];
        }
        while j < i
          invariant i < idoms.Length && j < idoms.Length
          invariant Anc(idoms[..], i) * Anc(idoms[..], j) == Anc(idoms[..], i0) * Anc(idoms[..], j0)
          invariant i <= i1
          decreases i
        {
          AncBound(idoms[..], j);
          i := idoms[i];
        }
      }
    }

    /** Stores the depth of n and of everything below it. */
    method Depth(n: nat, i: nat)
      requires Layout() && IsTree(idoms[..]) && n < idoms.Length && i == TreeDepth(idoms[..], n)
      requires forall m | 0 <= m < children.Length :: children[m] == Kids(idoms[..], m, idoms.Length)
      modifies depth
      ensures forall x | 0 <= x < depth.Length ::
                depth[x] == if n in Anc(idoms[..], x) then TreeDepth(idoms[..], x) else old(depth[x])
      decreases idoms.Length - n
    {
      ghost var t := idoms[..];
      AncBound(t, n);
      depth[n] := i;
      for k := 0 to |children[n]|
        invariant forall x | 0 <= x < depth.Length ::
            depth[x] == if x == n || Below(t, x, children[n][..k]) then TreeDepth(t, x) else old(depth[x])
      {
        var child := children[n][k];
        assert child in children[n];
        AncBound(t, child);
        Depth(child, i + 1);
        assert children[n][..k + 1] == children[n][..k] + [child];
      }
      forall x | 0 <= x < depth.Length
        ensures n in Anc(t, x) <==> x == n || Below(t, x, children[n])
      {
        if n in Anc(t, x) && x != n {
          var c := ChildTowards(t, n, x);
        }
        if Below(t, x, children[n]) {
          var c :| c in children[n] && c in Anc(t, x);
          AncTrans(t, c, x);
          AncBound(t, n);
        }
      }
    }
  }

  /** x is in the subtree of one of the given nodes. */
  ghost predicate Below(t: seq<nat>, x: nat, cs: seq<nat>)
    requires IsTree(t) && x < |t|
  {
    exists c :: c in cs && c in Anc(t, x)
  }

  lemma FirstIdomsInv(g: Graph, t: seq<nat>)
    requires Shape(g, t) && forall n | 0 < n < |t| :: t[n] in g.preds[n]
    ensures Inv(g, t, 1)
  {
    forall d, n | 0 < n < |t| && d != n && Dom(g, d, n)
      ensures Dom(g, d, t[n])
    {
      DomPred(g, d, n, t[n]);
    }
    forall n | 0 < n < |t|
      ensures OnLowPath(g, t, n)
    {
      AncBound(t, t[n]);
    }
  }
}
