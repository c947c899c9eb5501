/** Loop nesting forests after Steensgaard: strongly connected components are searched again and
    again, each time without the edges into the headers found so far. */
module LoopForests {
  import opened Wrappers
  import opened Graphs
  import opened Dominance
  import opened Components
  import opened Tarjan

  /** A node of the forest. Nodes live in one sequence and refer to each other by position. */
  datatype Base =
    | Leaf(parent: int, depth: nat, node: nat, index: nat)
    | Head(parent: int, depth: nat, cfNodes: seq<nat>, children: seq<nat>)
  {
    function CfNodes(): seq<nat> {
      if Leaf? then [node] else cfNodes
    }
  }

  const NO_PARENT := -1

  /** n is the entry of the graph or has a predecessor outside c. */
  ghost predicate IsEntry(g: Graph, c: set<nat>, n: nat) {
    n == 0 || exists p: nat :: g.Edge(p, n) && p !in c
  }

  /** The nodes of q at which c can be entered. */
  ghost function Entries(g: Graph, q: seq<nat>, c: set<nat>): (r: seq<nat>)
    ensures forall n {:trigger n in r} :: n in r <==> n in q && IsEntry(g, c, n)
  {
    if q == [] then [] else
    var n := q[|q| - 1];
    assert q == q[..|q| - 1] + [n];
    Entries(g, q[..|q| - 1], c) + if IsEntry(g, c, n) then [n] else []
  }

  lemma {:induction false} EntriesNoDup(g: Graph, q: seq<nat>, c: set<nat>)
    requires NoDup(q)
    ensures NoDup(Entries(g, q, c))
  {
    if q != [] {
      var m := |q| - 1;
      EntriesNoDup(g, q[..m], c);
      var r := Entries(g, q[..m], c);
      forall i | 0 <= i < |r|
        ensures r[i] != q[m]
      {
        assert r[i] in r;
        assert r[i] in q[..m];
        var j :| 0 <= j < m && q[..m][j] == r[i];
      }
    }
  }

  lemma EntriesSnoc(g: Graph, q: seq<nat>, b: nat, i: nat, c: set<nat>)
    requires b <= i < |q|
    ensures Entries(g, q[b..i + 1], c) == Entries(g, q[b..i], c) + if IsEntry(g, c, q[i]) then [q[i]] else []
  {
    assert q[b..i + 1][..i - b] == q[b..i];
  }

  /** A single node without a step to itself: not a loop. */
  ghost predicate Trivial(g: Graph, s: set<nat>, c: set<nat>) {
    exists n: nat :: c == {n} && !Step(g, s, n, n)
  }

  /** b represents the component c of the graph with steps into s only. */
  ghost predicate Represents(g: Graph, s: set<nat>, b: Base, c: set<nat>, parent: int, depth: nat) {
    && IsScc(g, s, c)
    && b.parent == parent && b.depth == depth
    && (b.Leaf? <==> Trivial(g, s, c))
    && (b.Leaf? ==> c == {b.node})
    && NoDup(b.CfNodes())
    && (forall n {:trigger n in b.CfNodes()} {:trigger IsEntry(g, c, n)} ::
          n in b.CfNodes() <==> n in c && IsEntry(g, c, n))
  }

  datatype Flags = Flags(inScc: bool, onStack: bool, isHead: bool)

  /** The flags of a node say whether it is in the current component, on the stack, and a marked head. */
  ghost predicate FlagsAre(states: seq<Flags>, scc: set<nat>, stack: seq<nat>, h: set<nat>) {
    forall n | 0 <= n < |states| :: states[n] == Flags(n in scc, n in stack, n in h)
  }

  /** leaves_ points every node that has a leaf to its only leaf. */
  ghost predicate LeafSync(tree: seq<Base>, leaves: map<nat, nat>) {
    && (forall n | n in leaves :: leaves[n] < |tree| && tree[leaves[n]].Leaf? && tree[leaves[n]].node == n)
    && (forall i | 0 <= i < |tree| && tree[i].Leaf? :: tree[i].node in leaves && leaves[tree[i].node] == i)
  }

  /** All nodes of the components lo..hi-1. */
  ghost function Union(comps: seq<set<nat>>, lo: nat, hi: nat): (r: set<nat>)
    requires lo <= hi <= |comps|
    ensures forall x :: x in r <==> exists i :: lo <= i < hi && x in comps[i]
  {
    if lo == hi then {} else Union(comps, lo, hi - 1) + comps[hi - 1]
  }

  ghost predicate DisjointFrom(comps: seq<set<nat>>, lo: nat, hi: nat)
    requires lo <= hi <= |comps|
  {
    forall i, j {:trigger Apart(comps, i, j)} | lo <= i < j < hi :: Apart(comps, i, j)
  }

  ghost predicate Apart(comps: seq<set<nat>>, i: int, j: int) {
    0 <= i < |comps| && 0 <= j < |comps| ==> comps[i] !! comps[j]
  }

  /** The forest built so far; comps lists the control-flow nodes below every node of the forest. */
  datatype Forest = Forest(tree: seq<Base>, leaves: map<nat, nat>, comps: seq<set<nat>>) {
    ghost predicate Valid() {
      |comps| == |tree| && LeafSync(tree, leaves)
    }
  }

  /** lo, lo + 1, ..., hi - 1 */
  function Ids(lo: nat, hi: nat): (r: seq<nat>)
    requires lo <= hi
    ensures |r| == hi - lo && forall i | 0 <= i < |r| :: r[i] == lo + i
  {
    seq(hi - lo, i requires 0 <= i < hi - lo => lo + i)
  }

  /** From f to f' nodes were appended, all of them as new children of parent. */
  ghost predicate Appended(f: Forest, f': Forest, parent: nat) {
    && f.Valid() && f'.Valid() && |f.tree| <= |f'.tree| && f.comps <= f'.comps
    && parent < |f.tree| && f.tree[parent].Head?
    && (forall i | 0 <= i < |f.tree| && i != parent :: f'.tree[i] == f.tree[i])
    && f'.tree[parent] == f.tree[parent].(children := f.tree[parent].children + Ids(|f.tree|, |f'.tree|))
  }

  /** ... which represent disjoint components, and only nodes of those got a leaf. */
  ghost predicate Added(g: Graph, s: set<nat>, f: Forest, f': Forest, parent: nat, depth: nat) {
    && Appended(f, f', parent)
    && (forall c | |f.tree| <= c < |f'.tree| :: NewNode(g, s, f', c, parent, depth))
    && DisjointFrom(f'.comps, |f.tree|, |f'.tree|)
    && (forall n | n in f.leaves :: n in f'.leaves && f'.leaves[n] == f.leaves[n])
    && (forall n | n in f'.leaves && n !in f.leaves :: n in Union(f'.comps, |f.tree|, |f'.tree|))
  }

  ghost predicate NewNode(g: Graph, s: set<nat>, f: Forest, c: nat, parent: nat, depth: nat)
    requires f.Valid() && c < |f.tree|
  {
    && Represents(g, s, f.tree[c], f.comps[c], parent, depth)
    && (f.tree[c].Head? ==> f.tree[c].children == [])
  }

  lemma AddedNothing(g: Graph, s: set<nat>, f: Forest, parent: nat, depth: nat)
    requires f.Valid() && parent < |f.tree| && f.tree[parent].Head?
    ensures Added(g, s, f, f, parent, depth)
    ensures Union(f.comps, |f.tree|, |f.tree|) == {}
  {
    assert f.tree[parent].children + Ids(|f.tree|, |f.tree|) == f.tree[parent].children;
  }

  lemma UnionSplit(comps: seq<set<nat>>, lo: nat, mid: nat, hi: nat)
    requires lo <= mid <= hi <= |comps|
    ensures Union(comps, lo, hi) == Union(comps, lo, mid) + Union(comps, mid, hi)
  {}

  lemma UnionPrefix(comps: seq<set<nat>>, comps': seq<set<nat>>, lo: nat, hi: nat)
    requires lo <= hi <= |comps| && comps <= comps'
    ensures Union(comps', lo, hi) == Union(comps, lo, hi)
  {}

  lemma AppendedTrans(f: Forest, f1: Forest, f2: Forest, parent: nat)
    requires Appended(f, f1, parent) && Appended(f1, f2, parent)
    ensures Appended(f, f2, parent)
  {
    assert Ids(|f.tree|, |f1.tree|) + Ids(|f1.tree|, |f2.tree|) == Ids(|f.tree|, |f2.tree|);
  }

  lemma AddedTrans(g: Graph, s: set<nat>, f: Forest, f1: Forest, f2: Forest, parent: nat, depth: nat)
    requires Added(g, s, f, f1, parent, depth) && Added(g, s, f1, f2, parent, depth)
    requires Union(f1.comps, |f.tree|, |f1.tree|) !! Union(f2.comps, |f1.tree|, |f2.tree|)
    ensures Added(g, s, f, f2, parent, depth)
    ensures Union(f2.comps, |f.tree|, |f2.tree|) ==
            Union(f1.comps, |f.tree|, |f1.tree|) + Union(f2.comps, |f1.tree|, |f2.tree|)
  {
    AppendedTrans(f, f1, f2, parent);
    UnionSplit(f2.comps, |f.tree|, |f1.tree|, |f2.tree|);
    UnionPrefix(f1.comps, f2.comps, |f.tree|, |f1.tree|);
    forall c | |f.tree| <= c < |f2.tree|
      ensures NewNode(g, s, f2, c, parent, depth)
    {
      if c < |f1.tree| { assert NewNode(g, s, f1, c, parent, depth); }
    }
    forall i, j {:trigger Apart(f2.comps, i, j)} | |f.tree| <= i < j < |f2.tree|
      ensures Apart(f2.comps, i, j)
    {
      if j < |f1.tree| {
        assert Apart(f1.comps, i, j);
      } else if |f1.tree| <= i {
        assert Apart(f2.comps, i, j);
      } else {
        assert f1.comps[i] <= Union(f1.comps, |f.tree|, |f1.tree|);
        assert f2.comps[j] <= Union(f2.comps, |f1.tree|, |f2.tree|);
      }
    }
  }

  /** Leaves of the region being walked belong to popped nodes. */
  ghost predicate LeafFree(leaves: map<nat, nat>, region: set<nat>, r: Run) {
    forall n | n in leaves && n in region :: n in PoppedSet(r)
  }

  /** The forest grew by exactly what was popped from the stack. */
  ghost predicate Progress(g: Graph, s: set<nat>, f: Forest, f': Forest, parent: nat, depth: nat, r: Run, r': Run) {
    && Added(g, s, f, f', parent, depth)
    && PoppedSet(r') == PoppedSet(r) + Union(f'.comps, |f.tree|, |f'.tree|)
    && PoppedSet(r) !! Union(f'.comps, |f.tree|, |f'.tree|)
  }

  lemma ProgressTrans(g: Graph, s: set<nat>, f: Forest, f1: Forest, f2: Forest, parent: nat, depth: nat, r: Run,
                      r1: Run, r2: Run)
    requires Progress(g, s, f, f1, parent, depth, r, r1) && Progress(g, s, f1, f2, parent, depth, r1, r2)
    ensures Progress(g, s, f, f2, parent, depth, r, r2)
  {
    AddedTrans(g, s, f, f1, f2, parent, depth);
  }

  lemma ProgressSame(g: Graph, s: set<nat>, f: Forest, f': Forest, parent: nat, depth: nat, r: Run, r1: Run, r2: Run)
    requires Progress(g, s, f, f', parent, depth, r, r1) && PoppedSet(r1) == PoppedSet(r2)
    ensures Progress(g, s, f, f', parent, depth, r, r2)
  {
  }

  /** Everything is reachable, so there is a way into every set of nodes. */
  lemma HasEntry(g: Graph, c: set<nat>, n: nat)
    requires IsRpo(g) && n in c && n < |g.succs|
    ensures exists e :: e in c && IsEntry(g, c, e)
  {
    if forall e | e in c :: !IsEntry(g, c, e) {
      EntryReaches(g, n);
      var others := Range(|g.succs|) - c;
      assert !IsEntry(g, c, n);
      assert 0 in others;
      forall x, y | x in others && g.Edge(x, y)
        ensures y in others
      {
      }
      ClosedUnderReach(g, others, 0, n);
    }
  }

  lemma StackNoDup(g: Graph, r: Run, k: nat)
    requires Layout(g, r, k)
    ensures NoDup(r.stack) && forall v | v in r.stack :: v < |r.num|
  {
    forall i, j | 0 <= i < j < |r.stack|
      ensures r.stack[i] != r.stack[j]
    {
      assert Above(r, i, j);
    }
  }

  lemma GraysReachSucc(g: Graph, s: set<nat>, cur: nat, succ: nat, r0: Run, r: Run)
    requires r.gray == r0.gray + {cur} && Step(g, s, cur, succ)
    requires forall z | z in r0.gray :: Via(g, s, z, cur)
    ensures forall z | z in r.gray :: Via(g, s, z, succ)
  {
    ViaStep(g, s, cur, succ);
    forall z | z in r.gray
      ensures Via(g, s, z, succ)
    {
      if z != cur { ViaTrans(g, s, z, cur, succ); }
    }
  }

  lemma LeafHeads(g: Graph, seg: seq<nat>, c: set<nat>, n: nat)
    requires IsRpo(g) && seg == [n] && c == Elems(seg) && n < |g.succs|
    ensures Entries(g, seg, c) == [n]
  {
    HasEntry(g, c, n);
    assert seg[..0] == [];
  }

  lemma AddedOne(g: Graph, s: set<nat>, f: Forest, f': Forest, b: Base, c: set<nat>, parent: nat, depth: nat)
    requires Appended(f, f', parent) && Represents(g, s, b, c, parent, depth) && (b.Head? ==> b.children == [])
    requires |f'.tree| == |f.tree| + 1 && f'.tree[|f.tree|] == b && f'.comps == f.comps + [c]
    requires f'.leaves == if b.Leaf? then f.leaves[b.node := |f.tree|] else f.leaves
    requires b.Leaf? ==> b.node !in f.leaves
    ensures Added(g, s, f, f', parent, depth)
    ensures Union(f'.comps, |f.tree|, |f'.tree|) == c
  {
    assert Union(f'.comps, |f.tree|, |f.tree|) == {};
    assert NewNode(g, s, f', |f.tree|, parent, depth);
  }

  lemma NotTrivial(g: Graph, s: set<nat>, seg: seq<nat>, c: set<nat>)
    requires c == Elems(seg) && NoDup(seg) && |seg| > 0
    ensures Trivial(g, s, c) <==> |seg| == 1 && !Step(g, s, seg[0], seg[0])
  {
    if |seg| > 1 {
      assert seg[0] in c && seg[1] in c && seg[0] != seg[1];
    } else {
      assert seg == [seg[0]];
      assert c == {seg[0]};
    }
  }
}
