/** The control-flow graph and the same graph turned around, numbered and with their dominator trees. */
module FlowGraphs {
  import opened Graphs
  import opened ControlFlow
  import opened Numbering
  import opened Dominance
  import opened DomTrees
  import opened Trees

  function Backwards(p: seq<nat>): (r: seq<nat>)
    ensures |r| == |p| && forall i | 0 <= i < |p| :: r[i] == p[|p| - 1 - i]
  {
    seq(|p|, i requires 0 <= i < |p| => p[|p| - 1 - i])
  }

  /** A walk read backwards is a walk in the graph turned around. */
  lemma WalkReverses(g: Graph, p: seq<nat>, u: nat, v: nat)
    requires g.Valid() && WalkFromTo(g, p, u, v)
    ensures WalkFromTo(g.Reverse(), Backwards(p), v, u)
  {
    var r := Backwards(p);
    WalkInRange(g, p, |p| - 1);
    forall i | 0 <= i < |r| - 1
      ensures g.Reverse().Edge(r[i], r[i + 1])
    {
      var j := |p| - 2 - i;
      WalkInRange(g, p, j);
      WalkInRange(g, p, j + 1);
      assert g.Edge(p[j], p[j + 1]);
    }
  }

  lemma ReachesReverses(g: Graph, u: nat, v: nat)
    requires g.Valid() && Reaches(g, u, v)
    ensures Reaches(g.Reverse(), v, u)
  {
    var p :| WalkFromTo(g, p, u, v);
    WalkReverses(g, p, u, v);
  }

  /** Every exit is linked, and both graphs are numbered: the one from the entry, the other from the exit. */
  method Number(cfa: Cfa) returns (f: Rpo, b: Rpo)
    requires cfa.Valid() && forall n: nat | n < cfa.succs.Length && n != cfa.exit :: Reaches(cfa.G(), cfa.entry, n)
    modifies cfa.succs, cfa.preds
    ensures cfa.Valid() && ExitEdges(old(cfa.G()), cfa.G(), cfa.exit)
    ensures fresh(f) && fresh(b) && fresh(f.index) && fresh(f.rpo) && fresh(b.index) && fresh(b.rpo)
    ensures f.g == cfa.G() && IsNumbering(cfa.G(), cfa.entry, f.index[..], f.rpo[..])
    ensures b.g == cfa.G().Reverse() && IsNumbering(cfa.G().Reverse(), cfa.exit, b.index[..], b.rpo[..])
  {
    ghost var g0 := cfa.G();
    cfa.LinkToExit();
    var g := Graph(cfa.succs[..], cfa.preds[..]);
    forall n: nat | n < |g.succs|
      ensures Reaches(g, cfa.entry, n) && Reaches(g.Reverse(), cfa.exit, n)
    {
      if n != cfa.exit { MoreEdgesReach(g0, g, cfa.entry, n); }
      ReachesReverses(g, n, cfa.exit);
    }
    f := new Rpo(g, cfa.entry);
    b := new Rpo(g.Reverse(), cfa.exit);
  }

  /** t is the tree of what dominates what in g, by the indices of a numbering. */
  ghost predicate Dominates(g: Graph, entry: nat, index: seq<int>, t: seq<nat>) {
    && IsTree(t) && |t| == |index| == |g.succs| && (forall n: nat | n < |index| :: 0 <= index[n] < |t|)
    && forall d: nat, n: nat | d < |index| && n < |index| :: DomFrom(g, entry, d, n) <==> index[d] in Anc(t, index[n])
  }

  lemma TreeDominates(g: Graph, entry: nat, index: seq<int>, rpo: seq<nat>, t: seq<nat>)
    requires IsNumbering(g, entry, index, rpo) && IsDomTree(Renumber(g, index, rpo), t)
    ensures Dominates(g, entry, index, t)
  {
    forall d: nat, n: nat | d < |index| && n < |index|
      ensures DomFrom(g, entry, d, n) <==> index[d] in Anc(t, index[n])
    {
      RenumberDom(g, entry, index, rpo, d, n);
    }
  }

  /** The dominator tree of the numbered graph. */
  method DominatorTree(r: Rpo, ghost g: Graph, ghost entry: nat) returns (t: DomTree)
    requires r.g == g && IsNumbering(g, entry, r.index[..], r.rpo[..])
    ensures t.Valid() && fresh(t) && fresh(t.idoms) && fresh(t.children) && fresh(t.depth)
    ensures Dominates(g, entry, r.index[..], t.idoms[..])
  {
    RenumberIsRpo(g, entry, r.index[..], r.rpo[..]);
    t := new DomTree(Renumber(r.g, r.index[..], r.rpo[..]));
    TreeDominates(g, entry, r.index[..], r.rpo[..], t.idoms[..]);
  }

  /** Dominators, and post-dominators: what lies on every walk to the exit. */
  method Dominators(cfa: Cfa) returns (f: Rpo, b: Rpo, dom: DomTree, postDom: DomTree)
    requires cfa.Valid() && forall n: nat | n < cfa.succs.Length && n != cfa.exit :: Reaches(cfa.G(), cfa.entry, n)
    modifies cfa.succs, cfa.preds
    ensures cfa.Valid() && ExitEdges(old(cfa.G()), cfa.G(), cfa.exit)
    ensures dom.Valid() && Dominates(cfa.G(), cfa.entry, f.index[..], dom.idoms[..])
    ensures postDom.Valid() && Dominates(cfa.G().Reverse(), cfa.exit, b.index[..], postDom.idoms[..])
    ensures forall d: nat, n: nat | d < cfa.succs.Length && n < cfa.succs.Length ::
              PostDom(cfa.G(), cfa.exit, d, n) <==> b.index[d] in Anc(postDom.idoms[..], b.index[n])
  {
    f, b := Number(cfa);
    dom := DominatorTree(f, cfa.G(), cfa.entry);
    postDom := DominatorTree(b, cfa.G().Reverse(), cfa.exit);
    forall d: nat, n: nat | d < cfa.succs.Length && n < cfa.succs.Length
      ensures PostDom(cfa.G(), cfa.exit, d, n) <==> b.index[d] in Anc(postDom.idoms[..], b.index[n])
    {
      PostDomReverses(cfa.G(), cfa.exit, d, n);
    }
  }

  /** d lies on every walk from n to the exit. */
  ghost predicate PostDom(g: Graph, exit: nat, d: nat, n: nat) {
    forall p | WalkFromTo(g, p, n, exit) :: d in p
  }

  lemma PostDomReverses(g: Graph, exit: nat, d: nat, n: nat)
    requires g.Valid() && g.Reverse().Valid()
    ensures PostDom(g, exit, d, n) <==> DomFrom(g.Reverse(), exit, d, n)
  {
    if PostDom(g, exit, d, n) {
      forall p | WalkFromTo(g.Reverse(), p, exit, n)
        ensures d in p
      {
        WalkReverses(g.Reverse(), p, exit, n);
        assert g.Reverse().Reverse() == g;
        assert d in Backwards(p);
      }
    }
    if DomFrom(g.Reverse(), exit, d, n) {
      forall p | WalkFromTo(g, p, n, exit)
        ensures d in p
      {
        WalkReverses(g, p, n, exit);
        assert d in Backwards(p);
      }
    }
  }
}
