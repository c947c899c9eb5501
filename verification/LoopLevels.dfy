/** What one level of the loop forest is, and why the recursion into its loops may go on. */
module LoopLevels {
  import opened Wrappers
  import opened Graphs
  import opened Dominance
  import opened Components
  import opened Tarjan
  import opened LoopForests

  /** The children of p represent the strongly connected components of the nodes below p,
      where steps into the headers of p do not count. */
  ghost predicate LevelOk(g: Graph, f: Forest, p: nat)
    requires f.Valid() && p < |f.tree| && f.tree[p].Head?
  {
    var kids := f.tree[p].children;
    && (forall k {:trigger KidOk(g, f, p, k)} | k in kids :: KidOk(g, f, p, k))
    && (forall x {:trigger InSome(f, kids, x)} | x in f.comps[p] :: InSome(f, kids, x))
    && (forall i, j {:trigger KidsApart(f, kids, i, j)} | 0 <= i < j < |kids| :: KidsApart(f, kids, i, j))
  }

  ghost predicate KidsApart(f: Forest, kids: seq<nat>, i: nat, j: nat)
    requires i < |kids| && j < |kids|
  {
    Nodes(f, kids[i]) !! Nodes(f, kids[j])
  }

  ghost function Nodes(f: Forest, k: nat): set<nat> {
    if k < |f.comps| then f.comps[k] else {}
  }

  ghost predicate KidOk(g: Graph, f: Forest, p: nat, k: nat)
    requires f.Valid() && p < |f.tree| && f.tree[p].Head?
  {
    && p < k < |f.tree| && f.comps[k] <= f.comps[p]
    && Represents(g, f.comps[p] - Elems(f.tree[p].cfNodes), f.tree[k], f.comps[k], p, f.tree[p].depth + 1)
  }

  ghost predicate InSome(f: Forest, kids: seq<nat>, x: nat) {
    exists k :: k in kids && x in Nodes(f, k)
  }

  /** Only the subtree of p was worked on. */
  ghost predicate GrowsAt(f: Forest, f': Forest, p: nat) {
    && f.Valid() && f'.Valid() && |f.tree| <= |f'.tree| && f.comps <= f'.comps
    && p < |f.tree| && f.tree[p].Head? && f'.tree[p].Head?
    && (forall i | 0 <= i < |f.tree| && i != p :: f'.tree[i] == f.tree[i])
    && f'.tree[p] == f.tree[p].(children := f'.tree[p].children)
    && (forall n | n in f.leaves :: n in f'.leaves && f'.leaves[n] == f.leaves[n])
    && (forall n | n in f'.leaves && n !in f.leaves :: n in f.comps[p])
  }

  lemma KidStable(g: Graph, f: Forest, f': Forest, p: nat, q: nat, k: nat)
    requires GrowsAt(f, f', p) && q < |f.tree| && q != p && f.tree[q].Head? && KidOk(g, f, q, k)
    ensures KidOk(g, f', q, k)
  {
    var body := f.comps[q] - Elems(f.tree[q].cfNodes);
    assert f'.tree[k].CfNodes() == f.tree[k].CfNodes();
    assert Represents(g, body, f'.tree[k], f'.comps[k], q, f.tree[q].depth + 1);
  }

  lemma LevelStable(g: Graph, f: Forest, f': Forest, p: nat, q: nat)
    requires GrowsAt(f, f', p) && q < |f.tree| && q != p && f.tree[q].Head? && LevelOk(g, f, q)
    ensures LevelOk(g, f', q)
  {
    var kids := f.tree[q].children;
    forall k {:trigger KidOk(g, f', q, k)} | k in kids
      ensures KidOk(g, f', q, k)
    {
      KidStable(g, f, f', p, q, k);
    }
    forall x {:trigger InSome(f', kids, x)} | x in f'.comps[q]
      ensures InSome(f', kids, x)
    {
      assert InSome(f, kids, x);
      var k :| k in kids && x in Nodes(f, k);
      assert x in Nodes(f', k);
    }
    forall i, j {:trigger KidsApart(f', kids, i, j)} | 0 <= i < j < |kids|
      ensures KidsApart(f', kids, i, j)
    {
      assert KidsApart(f, kids, i, j);
      assert KidOk(g, f, q, kids[i]) && KidOk(g, f, q, kids[j]);
    }
  }

  /** Edges that leave the region lead to marked heads. */
  ghost predicate Boundary(g: Graph, region: set<nat>, h: set<nat>) {
    forall u: nat, v: nat | u in region && g.Edge(u, v) && v !in region :: v in h
  }

  ghost predicate FromHead(g: Graph, s: set<nat>, heads: seq<nat>, x: nat) {
    exists e :: e in heads && Via(g, s, e, x)
  }

  /** What recurse may rely on: the region can be searched from its heads, all of which are marked
      (but for the entry of the graph at the very beginning). */
  ghost predicate LevelPre(g: Graph, region: set<nat>, heads: seq<nat>, h: set<nat>) {
    && region <= Range(|g.succs|)
    && Boundary(g, region, h)
    && NoDup(heads) && (forall e | e in heads :: e in region)
    && (|heads| == 1 || forall e | e in heads :: e in h)
    && (forall x | x in region && x in h :: x in heads)
    && (forall x {:trigger FromHead(g, Range(|g.succs|) - h, heads, x)} | x in region ::
          FromHead(g, Range(|g.succs|) - h, heads, x))
  }

  /** h' marks, in addition to h, the entries of the components lo..hi-1. */
  ghost predicate MarksAre(g: Graph, f: Forest, lo: nat, hi: nat, h: set<nat>, h': set<nat>)
    requires f.Valid() && lo <= hi <= |f.tree|
  {
    && h <= h'
    && (forall x, c {:trigger IsEntry(g, f.comps[c], x)}
        | lo <= c < hi && x in f.comps[c] && IsEntry(g, f.comps[c], x) ::
          x in h')
    && (forall x {:trigger EntryOfSome(g, f, lo, hi, x)} | x in h' && x !in h :: EntryOfSome(g, f, lo, hi, x))
  }

  ghost predicate EntryOfSome(g: Graph, f: Forest, lo: nat, hi: nat, x: nat)
    requires f.Valid() && lo <= hi <= |f.tree|
  {
    exists c :: lo <= c < hi && x in f.comps[c] && IsEntry(g, f.comps[c], x)
  }

  /** What is not found yet can be left only through marked heads. */
  lemma RestClosed(g: Graph, f: Forest, lo: nat, hi: nat, region: set<nat>, h: set<nat>, h': set<nat>)
    requires g.Valid() && f.Valid() && lo <= hi <= |f.tree| && Boundary(g, region, h) && MarksAre(g, f, lo, hi, h, h')
    ensures Closed(g, Range(|g.succs|) - h', region - Union(f.comps, lo, hi))
  {
    var s, found := Range(|g.succs|) - h', Union(f.comps, lo, hi);
    forall u: nat, v: nat | u in region - found && Step(g, s, u, v)
      ensures v in region - found
    {
      forall c | lo <= c < hi
        ensures v !in f.comps[c]
      {
        assert u !in f.comps[c];
        assert v in f.comps[c] ==> IsEntry(g, f.comps[c], v);
      }
    }
  }

  /** Nodes that reach something outside a closed set are themselves outside. */
  lemma ViaAvoids(g: Graph, s: set<nat>, found: set<nat>, u: nat, v: nat, z: nat)
    requires Closed(g, s, found) && Via(g, s, u, v) && Via(g, s, v, z) && z !in found
    ensures Via(g, s - found, u, v)
  {
    var p :| Walk(g, s, p, u, v);
    forall i | 0 <= i < |p| - 1
      ensures StepAt(g, s - found, p, i)
    {
      assert StepAt(g, s, p, i);
      var q := p[i + 1..];
      forall j | 0 <= j < |q| - 1
        ensures StepAt(g, s, q, j)
      {
        assert StepAt(g, s, p, i + 1 + j);
      }
      assert Walk(g, s, q, p[i + 1], v);
      ViaTrans(g, s, p[i + 1], v, z);
      if p[i + 1] in found { ClosedVia(g, s, found, p[i + 1], z); }
    }
    assert Walk(g, s - found, p, u, v);
  }

  /** Searching without what was found before gives the same components. */
  lemma SameMutual(g: Graph, s: set<nat>, s': set<nat>, found: set<nat>, u: nat, v: nat)
    requires Closed(g, s, found) && u !in found && s - found <= s' <= s
    ensures Mutual(g, s', u, v) <==> Mutual(g, s, u, v)
  {
    if Mutual(g, s', u, v) {
      ViaMono(g, s', s, u, v);
      ViaMono(g, s', s, v, u);
    }
    if Mutual(g, s, u, v) {
      ViaSelf(g, s, u);
      ViaAvoids(g, s, found, u, v, u);
      ViaAvoids(g, s, found, v, u, u);
      ViaMono(g, s - found, s', u, v);
      ViaMono(g, s - found, s', v, u);
    }
  }

  lemma RepresentsShift(g: Graph, s: set<nat>, s': set<nat>, b: Base, c: set<nat>, parent: int, depth: nat)
    requires Represents(g, s, b, c, parent, depth)
    requires forall u, v | u in c :: Mutual(g, s, u, v) <==> Mutual(g, s', u, v)
    requires forall n | n in c :: n in s <==> n in s'
    ensures Represents(g, s', b, c, parent, depth)
  {
    assert IsScc(g, s', c);
    assert forall n | c == {n} :: Step(g, s, n, n) <==> Step(g, s', n, n);
  }

  /** A loop contains no node that was marked before it was found. */
  lemma LoopUnmarked(g: Graph, s: set<nat>, b: Base, c: set<nat>, parent: int, depth: nat, n: nat)
    requires Represents(g, s, b, c, parent, depth) && b.Head? && n in c
    ensures n in s
  {
    if exists m :: m in c && m != n {
      var m :| m in c && m != n;
      assert Mutual(g, s, m, n);
      ViaEndsAllowed(g, s, m, n);
    } else {
      assert c == {n};
      assert !Trivial(g, s, c);
    }
  }

  /** From the entry of the graph, the last head on a walk to x leads to x inside c. */
  lemma {:induction false} LastHead(g: Graph, c: set<nat>, s: set<nat>, heads: seq<nat>, p: seq<nat>, x: nat)
    requires g.Valid() && WalkFromTo(g, p, 0, x) && x in c
    requires forall n | n in c :: n in heads || n in s
    requires forall n {:trigger IsEntry(g, c, n)} | n in c && n !in heads :: !IsEntry(g, c, n)
    ensures FromHead(g, s, heads, x)
    decreases |p|
  {
    if x in heads {
      ViaSelf(g, s, x);
    } else {
      assert !IsEntry(g, c, x);
      var k := |p| - 1;
      assert g.Edge(p[k - 1], p[k - 1 + 1]);
      var y := p[k - 1];
      forall i | 0 <= i < k - 1
        ensures g.Edge(p[..k][i], p[..k][i + 1])
      {
        assert g.Edge(p[i], p[i + 1]);
      }
      LastHead(g, c, s, heads, p[..k], y);
      var e :| e in heads && Via(g, s, e, y);
      ViaStep(g, s, y, x);
      ViaTrans(g, s, e, y, x);
    }
  }

  /** The loop over the heads of a level, after k of them. */
  ghost predicate FindInv(g: Graph, f0: Forest, f: Forest, parent: nat, depth: nat, region: set<nat>, heads: seq<nat>,
                          h0: set<nat>, h: set<nat>, k: nat)
  {
    && k <= |heads|
    && Added(g, Range(|g.succs|) - h0, f0, f, parent, depth)
    && MarksAre(g, f, |f0.tree|, |f.tree|, h0, h)
    && Union(f.comps, |f0.tree|, |f.tree|) <= region
    && Closed(g, Range(|g.succs|) - h0, Union(f.comps, |f0.tree|, |f.tree|))
    && (forall e | e in heads[..k] :: e in Union(f.comps, |f0.tree|, |f.tree|))
    && (forall x | x in Union(f.comps, |f0.tree|, |f.tree|) && x in h0 :: x in heads[..k])
    && (k == 0 ==> |f0.tree| == |f.tree|)
  }

  lemma FindStart(g: Graph, f: Forest, parent: nat, depth: nat, region: set<nat>, heads: seq<nat>, h0: set<nat>)
    requires f.Valid() && parent < |f.tree| && f.tree[parent].Head?
    ensures FindInv(g, f, f, parent, depth, region, heads, h0, h0, 0)
  {
    AddedNothing(g, Range(|g.succs|) - h0, f, parent, depth);
  }

  /** The next head was not found from an earlier one, so a new search may start there. */
  lemma HeadIsNew(g: Graph, f0: Forest, f: Forest, parent: nat, depth: nat, region: set<nat>, heads: seq<nat>,
                  h0: set<nat>, h: set<nat>, k: nat)
    requires FindInv(g, f0, f, parent, depth, region, heads, h0, h, k) && k < |heads|
    requires LevelPre(g, region, heads, h0)
    ensures heads[k] in region - Union(f.comps, |f0.tree|, |f.tree|)
  {
    assert heads[k] in heads;
    assert forall j | 0 <= j < k :: heads[..k][j] != heads[k];
  }

  ghost function Fresh(num: seq<Number>): Run {
    Run({}, [], num, {})
  }

  /** After a search from a head: nothing is left on the stack, and the nodes visited are the nodes of the new
      components. */
  lemma SearchResult(g: Graph, s: set<nat>, f: Forest, f': Forest, parent: nat, depth: nat, cur: nat, r: Run,
                     num: seq<Number>, k: nat)
    requires Inv(g, s, r, k) && Walked(g, s, cur, 0, Fresh(num), r)
             && Progress(g, s, f, f', parent, depth, Fresh(num), r)
    ensures r.stack == []
    ensures r.visited == Union(f'.comps, |f.tree|, |f'.tree|) && cur in r.visited
    ensures Closed(g, s, r.visited)
    ensures forall v | v in r.visited && v != cur :: v in s
  {}

  lemma MarksTrans(g: Graph, f: Forest, f': Forest, lo: nat, mid: nat, h0: set<nat>, h: set<nat>, h': set<nat>)
    requires f.Valid() && f'.Valid() && lo <= mid == |f.tree| <= |f'.tree| && f.comps <= f'.comps
    requires MarksAre(g, f, lo, mid, h0, h) && MarksAre(g, f', mid, |f'.tree|, h, h')
    ensures MarksAre(g, f', lo, |f'.tree|, h0, h')
  {
    forall x, c {:trigger IsEntry(g, f'.comps[c], x)}
        | lo <= c < |f'.tree| && x in f'.comps[c] && IsEntry(g, f'.comps[c], x)
      ensures x in h'
    {
      if c < mid { assert x in f.comps[c]; }
    }
    forall x {:trigger EntryOfSome(g, f', lo, |f'.tree|, x)} | x in h' && x !in h0
      ensures EntryOfSome(g, f', lo, |f'.tree|, x)
    {
      if x in h {
        assert EntryOfSome(g, f, lo, mid, x);
        var c :| lo <= c < mid && x in f.comps[c] && IsEntry(g, f.comps[c], x);
        assert x in f'.comps[c];
      } else {
        assert EntryOfSome(g, f', mid, |f'.tree|, x);
        var c :| mid <= c < |f'.tree| && x in f'.comps[c] && IsEntry(g, f'.comps[c], x);
        assert lo <= c;
      }
    }
  }

  /** Components found by a later search of the level are components with respect to the start of the level. */
  lemma NewNodeShift(g: Graph, s: set<nat>, s': set<nat>, found: set<nat>, f: Forest, c: nat, parent: nat, depth: nat)
    requires f.Valid() && c < |f.tree| && NewNode(g, s', f, c, parent, depth)
    requires Closed(g, s, found) && f.comps[c] !! found && s - found <= s' <= s
    ensures NewNode(g, s, f, c, parent, depth)
  {
    forall u, v | u in f.comps[c]
      ensures Mutual(g, s', u, v) <==> Mutual(g, s, u, v)
    {
      SameMutual(g, s, s', found, u, v);
    }
    RepresentsShift(g, s', s, f.tree[c], f.comps[c], parent, depth);
  }

  lemma AddedShift(g: Graph, s: set<nat>, s': set<nat>, found: set<nat>, f: Forest, f': Forest, parent: nat, depth: nat)
    requires Added(g, s', f, f', parent, depth)
    requires Closed(g, s, found) && Union(f'.comps, |f.tree|, |f'.tree|) !! found && s - found <= s' <= s
    ensures Added(g, s, f, f', parent, depth)
  {
    forall c {:trigger NewNode(g, s, f', c, parent, depth)} | |f.tree| <= c < |f'.tree|
      ensures NewNode(g, s, f', c, parent, depth)
    {
      assert NewNode(g, s', f', c, parent, depth);
      assert f'.comps[c] <= Union(f'.comps, |f.tree|, |f'.tree|);
      NewNodeShift(g, s, s', found, f', c, parent, depth);
    }
  }

  lemma FoundMarks(g: Graph, f: Forest, lo: nat, hi: nat, h0: set<nat>, h: set<nat>, all: set<nat>)
    requires f.Valid() && lo <= hi <= |f.tree| && MarksAre(g, f, lo, hi, h0, h)
    ensures (all - h0) - Union(f.comps, lo, hi) <= all - h <= all - h0
  {
    forall x | x in h && x !in h0
      ensures x in Union(f.comps, lo, hi)
    {
      assert EntryOfSome(g, f, lo, hi, x);
    }
  }

  lemma FindNext(g: Graph, f0: Forest, f: Forest, f': Forest, parent: nat, depth: nat, region: set<nat>,
                 heads: seq<nat>, h0: set<nat>, h: set<nat>, h': set<nat>, k: nat, v: set<nat>)
    requires FindInv(g, f0, f, parent, depth, region, heads, h0, h, k) && k < |heads|
    requires Added(g, Range(|g.succs|) - h, f, f', parent, depth)
    requires v == Union(f'.comps, |f.tree|, |f'.tree|) && v <= region - Union(f.comps, |f0.tree|, |f.tree|)
    requires Closed(g, Range(|g.succs|) - h, v) && heads[k] in v
    requires forall x | x in v && x != heads[k] :: x in Range(|g.succs|) - h
    requires MarksAre(g, f', |f.tree|, |f'.tree|, h, h')
    ensures FindInv(g, f0, f', parent, depth, region, heads, h0, h', k + 1)
  {
    var s0, s, found := Range(|g.succs|) - h0, Range(|g.succs|) - h, Union(f.comps, |f0.tree|, |f.tree|);
    FoundMarks(g, f, |f0.tree|, |f.tree|, h0, h, Range(|g.succs|));
    AddedShift(g, s0, s, found, f, f', parent, depth);
    AddedTrans(g, s0, f0, f, f', parent, depth);
    MarksTrans(g, f, f', |f0.tree|, |f.tree|, h0, h, h');
    assert heads[..k + 1] == heads[..k] + [heads[k]];
    forall x: nat, y: nat | x in found + v && Step(g, s0, x, y)
      ensures y in found + v
    {
      assert y !in found ==> y in s;
    }
  }

  /** Every node of the region is found. */
  lemma FoundAll(g: Graph, f0: Forest, f: Forest, parent: nat, depth: nat, region: set<nat>, heads: seq<nat>,
                 h0: set<nat>, h: set<nat>)
    requires FindInv(g, f0, f, parent, depth, region, heads, h0, h, |heads|)
    requires LevelPre(g, region, heads, h0)
    ensures Union(f.comps, |f0.tree|, |f.tree|) == region
  {
    var s0, found := Range(|g.succs|) - h0, Union(f.comps, |f0.tree|, |f.tree|);
    assert heads[..|heads|] == heads;
    forall x | x in region
      ensures x in found
    {
      assert FromHead(g, s0, heads, x);
      var e :| e in heads && Via(g, s0, e, x);
      ClosedVia(g, s0, found, e, x);
    }
  }

  lemma LevelKid(g: Graph, f: Forest, s0: set<nat>, body: set<nat>, region: set<nat>, k: nat, parent: nat, depth: nat)
    requires f.Valid() && k < |f.tree| && NewNode(g, s0, f, k, parent, depth) && f.comps[k] <= region
    requires Closed(g, s0, region) && body == s0 * region
    ensures Represents(g, body, f.tree[k], f.comps[k], parent, depth)
  {
    forall u, v | u in f.comps[k]
      ensures Mutual(g, s0, u, v) <==> Mutual(g, body, u, v)
    {
      MutualInside(g, s0, region, u, v);
    }
    RepresentsShift(g, s0, body, f.tree[k], f.comps[k], parent, depth);
  }

  lemma LevelCover(f: Forest, lo: nat, kids: seq<nat>, x: nat)
    requires f.Valid() && lo <= |f.tree| && kids == Ids(lo, |f.tree|) && x in Union(f.comps, lo, |f.tree|)
    ensures InSome(f, kids, x)
  {
    var k :| lo <= k < |f.tree| && x in f.comps[k];
    assert kids[k - lo] == k;
    assert x in Nodes(f, k);
  }

  /** What was found is one level of the loop forest. */
  lemma LevelDone(g: Graph, s0: set<nat>, f0: Forest, f: Forest, parent: nat, depth: nat, region: set<nat>)
    requires Added(g, s0, f0, f, parent, depth) && Union(f.comps, |f0.tree|, |f.tree|) == region
    requires Closed(g, s0, region) && s0 * region == region - Elems(f0.tree[parent].cfNodes)
    requires f0.comps[parent] == region && f0.tree[parent].children == [] && depth == f0.tree[parent].depth + 1
    ensures LevelOk(g, f, parent)
  {
    var kids := f.tree[parent].children;
    assert kids == Ids(|f0.tree|, |f.tree|);
    forall k {:trigger KidOk(g, f, parent, k)} | k in kids
      ensures KidOk(g, f, parent, k)
    {
      assert NewNode(g, s0, f, k, parent, depth);
      LevelKid(g, f, s0, s0 * region, region, k, parent, depth);
    }
    forall x {:trigger InSome(f, kids, x)} | x in f.comps[parent]
      ensures InSome(f, kids, x)
    {
      LevelCover(f, |f0.tree|, kids, x);
    }
    KidsDisjoint(f, |f0.tree|, kids);
  }

  lemma KidsDisjoint(f: Forest, lo: nat, kids: seq<nat>)
    requires f.Valid() && lo <= |f.tree| && kids == Ids(lo, |f.tree|) && DisjointFrom(f.comps, lo, |f.tree|)
    ensures forall i, j {:trigger KidsApart(f, kids, i, j)} | 0 <= i < j < |kids| :: KidsApart(f, kids, i, j)
  {
    forall i, j {:trigger KidsApart(f, kids, i, j)} | 0 <= i < j < |kids|
      ensures KidsApart(f, kids, i, j)
    {
      assert Apart(f.comps, kids[i], kids[j]);
    }
  }

  lemma MutualInside(g: Graph, s: set<nat>, region: set<nat>, u: nat, v: nat)
    requires Closed(g, s, region) && u in region
    ensures Mutual(g, s, u, v) <==> Mutual(g, s * region, u, v)
  {
    if Mutual(g, s, u, v) {
      ViaInside(g, s, region, u, v);
      ClosedVia(g, s, region, u, v);
      ViaInside(g, s, region, v, u);
    }
    if Mutual(g, s * region, u, v) {
      ViaMono(g, s * region, s, u, v);
      ViaMono(g, s * region, s, v, u);
    }
  }

  /** A level whose components are lo..hi-1, all found and marked; h0 was marked before. */
  ghost predicate Found(g: Graph, f: Forest, lo: nat, hi: nat, parent: nat, depth: nat, region: set<nat>, h0: set<nat>,
                        h1: set<nat>) {
    && IsRpo(g) && f.Valid() && lo <= hi <= |f.tree|
    && (forall c {:trigger NewNode(g, Range(|g.succs|) - h0, f, c, parent, depth)} | lo <= c < hi ::
          NewNode(g, Range(|g.succs|) - h0, f, c, parent, depth))
    && DisjointFrom(f.comps, lo, hi) && Union(f.comps, lo, hi) == region
    && MarksAre(g, f, lo, hi, h0, h1)
    && region <= Range(|g.succs|) && Boundary(g, region, h0)
  }

  /** In a loop exactly the entries are marked. */
  lemma KidMarks(g: Graph, f: Forest, lo: nat, hi: nat, parent: nat, depth: nat, region: set<nat>, h0: set<nat>,
                 h1: set<nat>, c: nat, x: nat)
    requires Found(g, f, lo, hi, parent, depth, region, h0, h1) && lo <= c < hi && f.tree[c].Head? && x in f.comps[c]
    ensures x in h1 <==> x in f.tree[c].cfNodes
    ensures x !in h0
  {
    var s0 := Range(|g.succs|) - h0;
    assert NewNode(g, s0, f, c, parent, depth);
    LoopUnmarked(g, s0, f.tree[c], f.comps[c], parent, depth, x);
    assert x in f.tree[c].CfNodes() <==> IsEntry(g, f.comps[c], x);
    if x in h1 {
      assert EntryOfSome(g, f, lo, hi, x);
      var d :| lo <= d < hi && x in f.comps[d] && IsEntry(g, f.comps[d], x);
      assert c < d ==> Apart(f.comps, c, d);
        assert d < c ==> Apart(f.comps, d, c);
      assert d == c;
    }
  }

  lemma KidBoundary(g: Graph, f: Forest, lo: nat, hi: nat, parent: nat, depth: nat, region: set<nat>, h0: set<nat>,
                    h1: set<nat>, c: nat)
    requires Found(g, f, lo, hi, parent, depth, region, h0, h1) && lo <= c < hi
    ensures Boundary(g, f.comps[c], h1)
  {
    forall u: nat, v: nat | u in f.comps[c] && g.Edge(u, v) && v !in f.comps[c]
      ensures v in h1
    {
      assert u in region;
      if v in region {
        var d :| lo <= d < hi && v in f.comps[d];
        assert c < d ==> Apart(f.comps, c, d);
        assert d < c ==> Apart(f.comps, d, c);
        assert IsEntry(g, f.comps[d], v);
      }
    }
  }

  /** The entries of a loop are a good place to search it from. */
  lemma KidReady(g: Graph, f: Forest, lo: nat, hi: nat, parent: nat, depth: nat, region: set<nat>, h0: set<nat>,
                 h1: set<nat>, c: nat, h: set<nat>)
    requires Found(g, f, lo, hi, parent, depth, region, h0, h1) && lo <= c < hi && f.tree[c].Head?
    requires h1 <= h && h * f.comps[c] == h1 * f.comps[c]
    ensures LevelPre(g, f.comps[c], f.tree[c].cfNodes, h)
    ensures forall x | x in f.comps[c] :: x in f.tree[c].cfNodes <==> x in h
    ensures Range(|g.succs|) - h < Range(|g.succs|) - h0
  {
    var d, heads, s := f.comps[c], f.tree[c].cfNodes, Range(|g.succs|) - h;
    assert NewNode(g, Range(|g.succs|) - h0, f, c, parent, depth);
    assert f.tree[c].CfNodes() == heads;
    KidBoundary(g, f, lo, hi, parent, depth, region, h0, h1, c);
    forall x | x in d
      ensures x in heads <==> x in h
      ensures x !in h0
    {
      KidMarks(g, f, lo, hi, parent, depth, region, h0, h1, c, x);
      assert x in h <==> x in h * d;
      assert x in h1 <==> x in h1 * d;
    }
    forall x {:trigger FromHead(g, s, heads, x)} | x in d
      ensures FromHead(g, s, heads, x)
    {
      KidFromHead(g, d, s, heads, x);
    }
    SomeMarked(g, d, heads, h, h0);
  }

  lemma KidFromHead(g: Graph, c: set<nat>, s: set<nat>, heads: seq<nat>, x: nat)
    requires IsRpo(g) && c <= Range(|g.succs|) && x in c
    requires forall n | n in c :: n in heads || n in s
    requires forall n {:trigger IsEntry(g, c, n)} | n in c && n !in heads :: !IsEntry(g, c, n)
    ensures FromHead(g, s, heads, x)
  {
    EntryReaches(g, x);
    var p :| WalkFromTo(g, p, 0, x);
    LastHead(g, c, s, heads, p, x);
  }

  lemma SomeMarked(g: Graph, c: set<nat>, heads: seq<nat>, h: set<nat>, h0: set<nat>)
    requires IsRpo(g) && c <= Range(|g.succs|) && c != {} && h0 <= h
    requires forall n {:trigger IsEntry(g, c, n)} | n in c && IsEntry(g, c, n) :: n in heads
    requires forall x | x in c :: (x in heads <==> x in h) && x !in h0
    ensures Range(|g.succs|) - h < Range(|g.succs|) - h0
  {
    var n :| n in c;
    HasEntry(g, c, n);
    var e :| e in c && IsEntry(g, c, e);
    assert e in Range(|g.succs|) - h0 && e !in Range(|g.succs|) - h;
  }

  lemma MarksStep(g: Graph, f: Forest, lo: nat, c: nat, h: set<nat>, h1: set<nat>, s: set<nat>, parent: nat, depth: nat)
    requires f.Valid() && lo <= c < |f.tree| && MarksAre(g, f, lo, c, h, h1) && NewNode(g, s, f, c, parent, depth)
    ensures MarksAre(g, f, lo, c + 1, h, h1 + Elems(f.tree[c].CfNodes()))
  {
    var h2 := h1 + Elems(f.tree[c].CfNodes());
    forall x {:trigger EntryOfSome(g, f, lo, c + 1, x)} | x in h2 && x !in h
      ensures EntryOfSome(g, f, lo, c + 1, x)
    {
      if x in h1 {
        assert EntryOfSome(g, f, lo, c, x);
        var d :| lo <= d < c && x in f.comps[d] && IsEntry(g, f.comps[d], x);
        assert lo <= d < c + 1;
      } else {
        assert x in f.comps[c] && IsEntry(g, f.comps[c], x);
      }
    }
  }

  /** Leaves are found for single nodes only. */
  lemma NoLeafInLoop(g: Graph, s: set<nat>, f: Forest, f': Forest, parent: nat, depth: nat, c: nat, n: nat)
    requires Added(g, s, f, f', parent, depth) && |f.tree| <= c < |f'.tree| && f'.tree[c].Head?
    requires n in f'.comps[c] && n !in f.leaves
    ensures n !in f'.leaves
  {
    forall i | |f.tree| <= i < |f'.tree| && f'.tree[i].Leaf?
      ensures f'.comps[i] == {f'.tree[i].node}
      ensures i != c && f'.tree[i].node !in f'.comps[c]
    {
      assert NewNode(g, s, f', i, parent, depth);
      assert c < i ==> Apart(f'.comps, c, i);
      assert i < c ==> Apart(f'.comps, i, c);
    }
  }

  lemma NewInRange(g: Graph, s: set<nat>, f: Forest, f': Forest, parent: nat, depth: nat, region: set<nat>)
    requires Added(g, s, f, f', parent, depth) && Union(f'.comps, |f.tree|, |f'.tree|) <= region <= Range(|g.succs|)
    ensures forall c {:trigger NewNode(g, s, f', c, parent, depth)} | |f.tree| <= c < |f'.tree| ::
              NewNode(g, s, f', c, parent, depth) && f'.comps[c] <= Range(|g.succs|)
    ensures f'.tree[parent].children[|f.tree[parent].children|..] == Ids(|f.tree|, |f'.tree|)
  {
    forall c {:trigger NewNode(g, s, f', c, parent, depth)} | |f.tree| <= c < |f'.tree|
      ensures f'.comps[c] <= Range(|g.succs|)
    {
      assert f'.comps[c] <= Union(f'.comps, |f.tree|, |f'.tree|);
    }
  }

  /** Below p everything is worked out: levels are in order for p and for all nodes from lo on. */
  ghost predicate SubtreeOk(g: Graph, f: Forest, p: nat, lo: nat)
    requires f.Valid()
  {
    forall q {:trigger LevelOk(g, f, q)} | 0 <= q < |f.tree| && (q == p || lo <= q) && f.tree[q].Head? ::
        LevelOk(g, f, q)
  }

  ghost predicate SameButKids(a: Base, b: Base) {
    if a.Leaf? then b == a else b.Head? && b == a.(children := b.children)
  }

  /** The loop over the children lo..hi-1 of p, the first k of which are done. */
  ghost predicate KidsInv(g: Graph, f1: Forest, f: Forest, p: nat, lo: nat, hi: nat, k: nat, h1: set<nat>, h: set<nat>)
    requires f1.Valid()
  {
    && f.Valid() && lo <= k <= hi == |f1.tree| <= |f.tree| && f1.comps <= f.comps && p < lo
    && (forall i | 0 <= i < lo || k <= i < hi :: f.tree[i] == f1.tree[i])
    && (forall i | lo <= i < k :: SameButKids(f1.tree[i], f.tree[i]))
    && (forall n | n in f1.leaves :: n in f.leaves && f.leaves[n] == f1.leaves[n])
    && (forall n | n in f.leaves && n !in f1.leaves :: n in Union(f1.comps, lo, k))
    && (forall n | n in Union(f1.comps, lo, k) :: n in f.leaves)
    && (forall q {:trigger LevelOk(g, f, q)}
        | 0 <= q < |f.tree| && (q == p || lo <= q < k || hi <= q) && f.tree[q].Head? ::
          LevelOk(g, f, q))
    && h1 <= h && (forall x | x in h && x !in h1 :: x in Union(f1.comps, lo, k))
  }

  lemma KidsStart(g: Graph, f: Forest, p: nat, lo: nat, h: set<nat>)
    requires f.Valid() && p < lo <= |f.tree| && f.tree[p].Head? && LevelOk(g, f, p)
    ensures KidsInv(g, f, f, p, lo, |f.tree|, lo, h, h)
  {}

  /** A leaf needs no further work. */
  lemma KidsLeaf(g: Graph, f1: Forest, f: Forest, p: nat, lo: nat, hi: nat, k: nat, h1: set<nat>, h: set<nat>)
    requires f1.Valid() && KidsInv(g, f1, f, p, lo, hi, k, h1, h) && k < hi && f1.tree[k].Leaf?
    requires forall n | n in f1.comps[k] :: n in f1.leaves
    ensures KidsInv(g, f1, f, p, lo, hi, k + 1, h1, h)
  {}

  /** The recursion for a head returned. */
  lemma KidsHead(g: Graph, f1: Forest, f: Forest, f': Forest, p: nat, lo: nat, hi: nat, k: nat, h1: set<nat>,
                 h: set<nat>, h': set<nat>)
    requires f1.Valid() && KidsInv(g, f1, f, p, lo, hi, k, h1, h) && k < hi && f1.tree[k].Head?
    requires GrowsAt(f, f', k) && SubtreeOk(g, f', k, |f.tree|)
    requires forall n | n in f1.comps[k] :: n in f'.leaves
    requires h <= h' && forall x | x in h' && x !in h :: x in f1.comps[k]
    ensures KidsInv(g, f1, f', p, lo, hi, k + 1, h1, h')
  {
    forall q {:trigger LevelOk(g, f', q)}
        | 0 <= q < |f'.tree| && (q == p || lo <= q < k + 1 || hi <= q) && f'.tree[q].Head?
      ensures LevelOk(g, f', q)
    {
      if q < |f.tree| && q != k {
        assert LevelOk(g, f, q);
        LevelStable(g, f, f', k, q);
      }
    }
  }

  /** What is above h in a processed part does not touch the next loop. */
  lemma KidsMarks(g: Graph, f1: Forest, f: Forest, p: nat, lo: nat, hi: nat, k: nat, h1: set<nat>, h: set<nat>)
    requires f1.Valid() && KidsInv(g, f1, f, p, lo, hi, k, h1, h) && k < hi && DisjointFrom(f1.comps, lo, hi)
    ensures h * f1.comps[k] == h1 * f1.comps[k]
    ensures forall n | n in f.leaves && n in f1.comps[k] :: n in f1.leaves
  {
    forall n | n in f1.comps[k]
      ensures n !in Union(f1.comps, lo, k)
    {
      forall i | lo <= i < k
        ensures n !in f1.comps[i]
      {
        assert Apart(f1.comps, i, k);
      }
    }
  }

  lemma RecurseDone(g: Graph, f0: Forest, f1: Forest, f: Forest, parent: nat, depth: nat, region: set<nat>,
                    h0: set<nat>, h1: set<nat>, h: set<nat>)
    requires Added(g, Range(|g.succs|) - h0, f0, f1, parent, depth)
    requires Found(g, f1, |f0.tree|, |f1.tree|, parent, depth, region, h0, h1) && f0.comps[parent] == region
    requires KidsInv(g, f1, f, parent, |f0.tree|, |f1.tree|, |f1.tree|, h1, h)
    ensures GrowsAt(f0, f, parent) && SubtreeOk(g, f, parent, |f0.tree|)
    ensures forall n | n in region :: n in f.leaves
    ensures h0 <= h && forall x | x in h && x !in h0 :: x in region
  {
    forall x | x in h1 && x !in h0
      ensures x in region
    {
      assert EntryOfSome(g, f1, |f0.tree|, |f1.tree|, x);
    }
  }

  /** The whole graph can be searched from its entry. */
  lemma RootReady(g: Graph)
    requires IsRpo(g)
    ensures LevelPre(g, Range(|g.succs|), [0], {})
  {
    var all := Range(|g.succs|);
    forall x {:trigger FromHead(g, all - {}, [0], x)} | x in all
      ensures FromHead(g, all - {}, [0], x)
    {
      EntryReaches(g, x);
      var p :| WalkFromTo(g, p, 0, x);
      forall i | 0 <= i < |p| - 1
        ensures StepAt(g, all - {}, p, i)
      {
        WalkInRange(g, p, i + 1);
        assert g.Edge(p[i], p[i + 1]);
      }
      assert Walk(g, all - {}, p, 0, x);
      assert 0 in [0];
    }
  }
}
