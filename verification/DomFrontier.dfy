/** Dominance frontiers, computed by walking up the dominator tree from every predecessor. */
module DomFrontiers {
  import opened Graphs
  import opened Trees
  import opened Dominance
  import opened DomTrees

  /** i dominates a predecessor of n but does not strictly dominate n. */
  ghost predicate InFrontier(g: Graph, i: nat, n: nat) {
    && (exists p :: g.Edge(p, n) && Dom(g, i, p))
    && !(Dom(g, i, n) && i != n)
  }

  /** The walk from p up to the immediate dominator of n visits what dominates p but not strictly n. */
  lemma WalkedUp(g: Graph, t: seq<nat>, n: nat, p: nat)
    requires IsDomTree(g, t) && 0 < n < |t| && g.Edge(p, n)
    ensures p < |t| && t[n] in Anc(t, p)
    ensures forall i: nat :: i in Anc(t, p) - Anc(t, t[n]) <==> Dom(g, i, p) && !(Dom(g, i, n) && i != n)
  {
    AncBound(t, t[n]);
    DomPred(g, t[n], n, p);
  }

  lemma SinglePred(g: Graph, t: seq<nat>, n: nat)
    requires IsDomTree(g, t) && 0 < n < |t| && |g.preds[n]| == 1
    ensures forall i: nat :: !InFrontier(g, i, n)
  {
    var p := g.preds[n][0];
    forall q | g.Edge(q, n)
      ensures q == p
    {
      assert q in g.preds[n];
    }
    assert HasLowerPred(g, n);
    DomSelf(g, p);
    DomAllPreds(g, p, n);
    forall i: nat | g.Edge(p, n) && Dom(g, i, p)
      ensures Dom(g, i, n) && i != n
    {
      DomAllPreds(g, i, n);
      AncBound(t, p);
    }
  }

  class DomFrontier {
    const domtree: DomTree
    var preds: array<seq<nat>>
    var succs: array<seq<nat>>

    ghost predicate Layout()
      reads this, domtree, domtree.idoms, domtree.children, domtree.depth
    {
      && domtree.Valid()
      && preds.Length == succs.Length == domtree.idoms.Length
      && preds != succs
      && {preds, succs} !! {domtree.children}
    }

    /** succs and preds store the same links. */
    ghost predicate Sync()
      reads this, preds, succs
    {
      && (forall n, i | 0 <= n < preds.Length && i in preds[n] :: i < succs.Length && n in succs[i])
      && (forall n, i | 0 <= i < succs.Length && n in succs[i] :: n < preds.Length && i in preds[n])
    }

    constructor (d: DomTree)
      requires d.Valid()
      ensures domtree == d && Layout() && Sync()
      ensures preds[0] == []
      ensures forall n: nat, i | 0 < n < preds.Length :: i in preds[n] <==> InFrontier(d.cfg, i, n)
    {
      domtree := d;
      preds := new seq<nat>[d.idoms.Length](_ => []);
      succs := new seq<nat>[d.idoms.Length](_ => []);
      new;
      Create();
    }

    method Create()
      requires Layout() && (forall n | 0 <= n < preds.Length :: preds[n] == [] && succs[n] == [])
      modifies preds, succs
      ensures Layout() && Sync()
      ensures preds[0] == []
      ensures forall n: nat, i | 0 < n < preds.Length :: i in preds[n] <==> InFrontier(domtree.cfg, i, n)
    {
      for n := 1 to domtree.idoms.Length
        invariant Sync() && preds[0] == []
        invariant forall m | n <= m < preds.Length :: preds[m] == []
        invariant forall m: nat, i | 0 < m < n :: i in preds[m] <==> InFrontier(domtree.cfg, i, m)
      {
        if |domtree.cfg.preds[n]| > 1 {
          LinkAll(n);
        } else {
          assert HasLowerPred(domtree.cfg, n);
          SinglePred(domtree.cfg, domtree.idoms[..], n);
        }
      }
    }

    method LinkAll(n: nat)
      requires Layout() && Sync() && 0 < n < preds.Length && preds[n] == []
      modifies preds, succs
      ensures Sync()
      ensures forall m | 0 <= m < preds.Length && m != n :: preds[m] == old(preds[m])
      ensures forall i :: i in preds[n] <==> InFrontier(domtree.cfg, i, n)
    {
      ghost var t := domtree.idoms[..];
      var ps := domtree.cfg.preds[n];
      for k := 0 to |ps|
        invariant Sync()
        invariant forall m | 0 <= m < preds.Length && m != n :: preds[m] == old(preds[m])
        invariant forall i :: i in preds[n] ==> InFrontier(domtree.cfg, i, n)
        invariant forall i, j | 0 <= j < k && Dom(domtree.cfg, i, ps[j]) && !(Dom(domtree.cfg, i, n) && i != n) ::
                    i in preds[n]
      {
        assert ps[k] in ps;
        assert domtree.cfg.Edge(ps[k], n);
        WalkedUp(domtree.cfg, t, n, ps[k]);
        LinkUp(ps[k], n);
      }
    }

    /** The innermost loop: links n to everything from p up to, but without, its immediate dominator. */
    method LinkUp(p: nat, n: nat)
      requires Layout() && Sync() && 0 < n < preds.Length && p < preds.Length
      requires domtree.idoms[n] in Anc(domtree.idoms[..], p)
      modifies preds, succs
      ensures Sync()
      ensures forall m | 0 <= m < preds.Length && m != n :: preds[m] == old(preds[m])
      ensures forall i :: i in preds[n] <==>
                            (i in old(preds[n])
                             || i in Anc(domtree.idoms[..], p) - Anc(domtree.idoms[..], domtree.idoms[n]))
    {
      ghost var t := domtree.idoms[..];
      var i: nat := p;
      while i != domtree.idoms[n]
        invariant Sync() && i < preds.Length && t[n] in Anc(t, i)
        invariant forall m | 0 <= m < preds.Length && m != n :: preds[m] == old(preds[m])
        invariant forall x :: (x in preds[n] || x in Anc(t, i) - Anc(t, t[n])) <==>
                                (x in old(preds[n]) || x in Anc(t, p) - Anc(t, t[n]))
        decreases i
      {
        AncBound(t, i);
        AncBound(t, t[n]);
        Link(i, n);
        i := domtree.idoms[i];
      }
    }

    method Link(src: nat, dst: nat)
      requires Sync() && src < succs.Length && dst < preds.Length && preds != succs
      modifies preds, succs
      ensures Sync()
      ensures preds[dst] == old(preds[dst]) + [src] && succs[src] == old(succs[src]) + [dst]
      ensures forall m | 0 <= m < preds.Length && m != dst :: preds[m] == old(preds[m])
      ensures forall m | 0 <= m < succs.Length && m != src :: succs[m] == old(succs[m])
    {
      succs[src] := succs[src] + [dst];
      preds[dst] := preds[dst] + [src];
    }
  }
}
