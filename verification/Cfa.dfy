/** The control-flow graph as it is built: nodes are linked, and finally every node is made to reach the exit. */
module ControlFlow {
  import opened Graphs

  lemma MoreEdgesReach(g: Graph, h: Graph, u: nat, v: nat)
    requires Reaches(g, u, v) && |g.succs| <= |h.succs|
    requires forall x: nat, y: nat | g.Edge(x, y) :: h.Edge(x, y)
    ensures Reaches(h, u, v)
  {
    var p :| WalkFromTo(g, p, u, v);
    assert WalkFromTo(h, p, u, v);
  }

  lemma ReachesStep(g: Graph, p: nat, x: nat, v: nat)
    requires g.Valid() && g.Edge(p, x) && Reaches(g, x, v)
    ensures Reaches(g, p, v)
  {
    ReachesEdge(g, p, x);
    ReachesTrans(g, p, x, v);
  }

  /** Only a member of a set that is closed under predecessors can reach a member. */
  lemma ClosedUnderPreds(g: Graph, s: set<nat>, u: nat, v: nat)
    requires g.Valid() && v in s && Reaches(g, u, v)
    requires forall x: nat, y: nat | y in s && g.Edge(x, y) :: x in s
    ensures u in s
  {
    if u !in s {
      var others := Range(|g.succs|) - s;
      var p :| WalkFromTo(g, p, u, v);
      ClosedUnderReach(g, others, u, v);
    }
  }

  lemma DeadEnd(g: Graph, n: nat, v: nat)
    requires n < |g.succs| && g.succs[n] == [] && n != v
    ensures !Reaches(g, n, v)
  {
    forall p
      ensures !WalkFromTo(g, p, n, v)
    {
      if |p| > 1 && p[0] == n {
        assert !g.Edge(p[0], p[0 + 1]);
      }
    }
  }

  ghost predicate IsDeadEnd(g: Graph, n: nat, exit: nat) {
    n < |g.succs| && n != exit && g.succs[n] == []
  }

  /** From g to h no edge was lost, and every new one leads to the exit from a node that could not reach it before. */
  ghost predicate ExitEdges(g: Graph, h: Graph, exit: nat) {
    && |g.succs| == |h.succs|
    && (forall u: nat, v: nat | g.Edge(u, v) :: h.Edge(u, v))
    && (forall u: nat, v: nat | h.Edge(u, v) && !g.Edge(u, v) :: v == exit && !Reaches(g, u, exit))
  }

  ghost predicate IsLinked(g: Graph, h: Graph, exit: nat, u: nat) {
    h.Edge(u, exit) && !g.Edge(u, exit)
  }

  /** Of nodes that reach each other, at most one has been linked. */
  ghost predicate OncePerLoop(g: Graph, h: Graph, exit: nat) {
    forall u: nat, v: nat {:trigger IsLinked(g, h, exit, u), IsLinked(g, h, exit, v)} |
      IsLinked(g, h, exit, u) && IsLinked(g, h, exit, v) && u != v :: !(Reaches(g, u, v) && Reaches(g, v, u))
  }

  /** A node that is in no set with those that are linked reaches none of them. */
  lemma OneMoreLinked(g: Graph, h: Graph, h': Graph, exit: nat, n: nat, r: set<nat>)
    requires OncePerLoop(g, h, exit) && g.Valid() && h.Valid() && |g.succs| == |h.succs| && n !in r
    requires forall x: nat, y: nat | g.Edge(x, y) :: h.Edge(x, y)
    requires forall x: nat, y: nat | y in r && h.Edge(x, y) :: x in r
    requires forall u: nat | IsLinked(g, h, exit, u) :: u in r
    requires forall u: nat, v: nat :: h'.Edge(u, v) <==> h.Edge(u, v) || (u == n && v == exit)
    ensures OncePerLoop(g, h', exit)
  {
    forall u: nat | u in r
      ensures !Reaches(g, n, u)
    {
      if Reaches(g, n, u) {
        MoreEdgesReach(g, h, n, u);
        ClosedUnderPreds(h, r, n, u);
      }
    }
    forall u: nat, v: nat {:trigger IsLinked(g, h', exit, u), IsLinked(g, h', exit, v)} |
        IsLinked(g, h', exit, u) && IsLinked(g, h', exit, v) && u != v
      ensures !(Reaches(g, u, v) && Reaches(g, v, u))
    {
      assert u == n || IsLinked(g, h, exit, u);
      assert v == n || IsLinked(g, h, exit, v);
    }
  }

  /** Dead ends are in no loop. */
  lemma DeadEndsToo(g: Graph, g1: Graph, h: Graph, exit: nat)
    requires OncePerLoop(g1, h, exit) && |g.succs| == |g1.succs|
    requires forall u: nat, v: nat :: g1.Edge(u, v) <==> g.Edge(u, v) || (v == exit && IsDeadEnd(g, u, exit))
    ensures OncePerLoop(g, h, exit)
  {
    forall u: nat, v: nat {:trigger IsLinked(g, h, exit, u), IsLinked(g, h, exit, v)} |
        IsLinked(g, h, exit, u) && IsLinked(g, h, exit, v) && u != v
      ensures !(Reaches(g, u, v) && Reaches(g, v, u))
    {
      if IsDeadEnd(g, u, exit) {
        DeadEnd(g, u, v);
      } else if IsDeadEnd(g, v, exit) {
        DeadEnd(g, v, u);
      } else if Reaches(g, u, v) && Reaches(g, v, u) {
        assert IsLinked(g1, h, exit, u) && IsLinked(g1, h, exit, v);
        MoreEdgesReach(g, g1, u, v);
        MoreEdgesReach(g, g1, v, u);
      }
    }
  }

  lemma PopLast(s: seq<nat>)
    requires s != []
    ensures forall x | x in s :: x == s[|s| - 1] || x in s[..|s| - 1]
  {
    assert s == s[..|s| - 1] + [s[|s| - 1]];
  }

  class Cfa {
    const entry: nat
    const exit: nat
    var succs: array<seq<nat>>
    var preds: array<seq<nat>>

    ghost predicate Valid()
      reads this, succs, preds
    {
      && succs != preds
      && G().Valid()
      && entry < succs.Length && exit < succs.Length
    }

    ghost function G(): Graph
      reads this, succs, preds
    {
      Graph(succs[..], preds[..])
    }

    constructor (n: nat, entry: nat, exit: nat)
      requires entry < n && exit < n
      ensures Valid() && this.entry == entry && this.exit == exit && succs.Length == n
      ensures fresh(succs) && fresh(preds)
      ensures forall u: nat, v: nat :: !G().Edge(u, v)
    {
      this.entry := entry;
      this.exit := exit;
      succs := new seq<nat>[n](_ => []);
      preds := new seq<nat>[n](_ => []);
    }

    method Link(u: nat, v: nat)
      requires Valid() && u < succs.Length && v < succs.Length
      modifies succs, preds
      ensures Valid()
      ensures forall x: nat, y: nat :: G().Edge(x, y) <==> (old(G()).Edge(x, y) || (x == u && y == v))
      ensures forall x | 0 <= x < succs.Length && x != u :: succs[x] == old(succs[x])
    {
      if v !in succs[u] {
        assert u !in G().preds[v];
        succs[u] := succs[u] + [v];
        preds[v] := preds[v] + [u];
      }
    }

    /** Adds n and everything that reaches n. The set may lack only n itself for being closed under predecessors. */
    method BackwardsReachable(n: nat, r0: set<nat>) returns (r: set<nat>)
      requires Valid() && n < succs.Length
      requires forall x | x in r0 :: x < succs.Length
      requires forall x: nat, y: nat | y in r0 && G().Edge(x, y) :: x in r0 || x == n
      ensures r0 <= r && n in r
      ensures forall x | x in r :: x < succs.Length
      ensures forall x: nat, y: nat | y in r && G().Edge(x, y) :: x in r
      ensures forall x | x in r - r0 :: Reaches(G(), x, n)
    {
      r := r0;
      var queue: seq<nat> := [];
      if n !in r {
        r, queue := r + {n}, [n];
        ReachesSelf(G(), n);
      }
      ghost var all := Range(succs.Length);
      while queue != []
        invariant r0 <= r <= all && n in r
        invariant forall x | x in queue :: x in r - r0
        invariant forall x | x in r - r0 :: Reaches(G(), x, n)
        invariant forall x: nat, y: nat | y in r && G().Edge(x, y) :: x in r || y in queue
        decreases all - r, |queue|
      {
        var y := queue[0];
        assert y in queue && forall x | x in queue :: x == y || x in queue[1..];
        r, queue := EnqueuePreds(y, n, r0, r, queue[1..]);
      }
    }

    method EnqueuePreds(y: nat, ghost n: nat, ghost r0: set<nat>, s0: set<nat>, q0: seq<nat>)
      returns (r: set<nat>, queue: seq<nat>)
      requires Valid() && y in s0 && y < succs.Length && r0 <= s0
      requires Reaches(G(), y, n)
      requires forall x | x in q0 :: x in s0 - r0
      requires forall x | x in s0 - r0 :: Reaches(G(), x, n)
      requires forall u: nat, v: nat | v in s0 && G().Edge(u, v) :: u in s0 || v == y || v in q0
      requires forall x | x in s0 :: x < succs.Length
      ensures s0 <= r && (forall x | x in r :: x < succs.Length)
      ensures r == s0 ==> queue == q0
      ensures forall x | x in queue :: x in r - r0
      ensures forall x | x in r - r0 :: Reaches(G(), x, n)
      ensures forall u: nat, v: nat | v in r && G().Edge(u, v) :: u in r || v in queue
    {
      r, queue := s0, q0;
      var ps := preds[y];
      for k := 0 to |ps|
        invariant s0 <= r && (forall x | x in r :: x < succs.Length)
        invariant r == s0 ==> queue == q0
        invariant forall x | x in queue :: x in r - r0
        invariant forall x | x in r - r0 :: Reaches(G(), x, n)
        invariant forall x | x in q0 :: x in queue
        invariant forall x | x in r - s0 :: x in queue
        invariant forall j | 0 <= j < k :: ps[j] in r
      {
        assert ps[k] in G().preds[y];
        assert G().Edge(ps[k], y);
        if ps[k] !in r {
          ReachesStep(G(), ps[k], y, n);
          r, queue := r + {ps[k]}, queue + [ps[k]];
        }
      }
      forall u: nat, v: nat | v in r && G().Edge(u, v)
        ensures u in r || v in queue
      {
        if v == y { assert u in G().preds[y]; }
      }
    }

    /** First, link all nodes without successors to the exit. */
    method LinkDeadEnds()
      requires Valid()
      modifies succs, preds
      ensures Valid() && ExitEdges(old(G()), G(), exit)
      ensures forall u: nat, v: nat ::
                G().Edge(u, v) <==> old(G()).Edge(u, v) || (v == exit && IsDeadEnd(old(G()), u, exit))
    {
      ghost var g := G();
      for n := 0 to succs.Length
        invariant Valid() && succs.Length == |g.succs|
        invariant forall u: nat, v: nat | G().Edge(u, v) && !g.Edge(u, v) :: !Reaches(g, u, exit)
        invariant forall u: nat, v: nat ::
                    G().Edge(u, v) <==> g.Edge(u, v) || (v == exit && u < n && IsDeadEnd(g, u, exit))
        invariant forall u: nat | n <= u < succs.Length :: succs[u] == g.succs[u]
      {
        if n != exit && succs[n] == [] {
          DeadEnd(g, n, exit);
          Link(n, exit);
        }
      }
    }

    /** After this every node reaches the exit. */
    method LinkToExit()
      requires Valid()
      requires forall n: nat | n < succs.Length && n != exit :: Reaches(G(), entry, n)
      modifies succs, preds
      ensures Valid() && ExitEdges(old(G()), G(), exit)
      ensures forall n: nat | n < succs.Length :: Reaches(G(), n, exit)
      ensures forall n: nat | IsDeadEnd(old(G()), n, exit) :: G().Edge(n, exit)
      ensures OncePerLoop(old(G()), G(), exit)
    {
      ghost var g0 := G();
      LinkDeadEnds();
      ghost var g1 := G();
      ghost var onStack, reachable := LinkEndless(g0);
      forall n: nat | n < succs.Length
        ensures Reaches(G(), n, exit)
      {
        if n != exit {
          MoreEdgesReach(g0, g1, entry, n);
          ClosedUnderReach(g1, onStack, entry, n);
        }
      }
      DeadEndsToo(g0, g1, G(), exit);
    }

    /** Then, walk over the graph from the entry and link what is stuck in an endless loop. */
    method LinkEndless(ghost g0: Graph) returns (onStack: set<nat>, reachable: set<nat>)
      requires Valid() && ExitEdges(g0, G(), exit)
      modifies succs, preds
      ensures Valid() && ExitEdges(g0, G(), exit)
      ensures forall u: nat, v: nat | old(G()).Edge(u, v) :: G().Edge(u, v)
      ensures OncePerLoop(old(G()), G(), exit)
      ensures entry in onStack && onStack <= reachable
      ensures forall x: nat, y: nat | x in onStack && old(G()).Edge(x, y) :: y in onStack
      ensures forall x | x in reachable :: Reaches(G(), x, exit)
      ensures exit in reachable
    {
      ghost var g1 := G();
      reachable := BackwardsReachable(exit, {});
      ReachesSelf(G(), exit);
      var stack := [entry];
      onStack := {entry};
      ghost var all := Range(succs.Length);
      while stack != []
        invariant Valid() && ExitEdges(g0, G(), exit)
        invariant forall u: nat, v: nat | g1.Edge(u, v) :: G().Edge(u, v)
        invariant OncePerLoop(g1, G(), exit) && forall u: nat | IsLinked(g1, G(), exit, u) :: u in reachable
        invariant exit in reachable && reachable <= all && entry in onStack && onStack <= all
        invariant forall x: nat, y: nat | y in reachable && G().Edge(x, y) :: x in reachable
        invariant forall x | x in reachable :: Reaches(G(), x, exit)
        invariant forall x | x in stack :: x in onStack
        invariant forall x | x in onStack && x !in stack :: x in reachable
        invariant forall x: nat, y: nat | x in onStack && x !in stack && g1.Edge(x, y) :: y in onStack
        decreases all - onStack, |stack|
      {
        var n := stack[|stack| - 1];
        assert n in stack;
        var todo;
        stack, onStack, todo := PushSuccs(n, stack, onStack);
        if !todo {
          reachable := LinkUnlessReachable(g0, g1, n, reachable);
          assert forall y: nat | g1.Edge(n, y) :: y in onStack;
          PopLast(stack);
          stack := stack[..|stack| - 1];
        }
      }
    }

    method PushSuccs(n: nat, s0: seq<nat>, o0: set<nat>) returns (stack: seq<nat>, onStack: set<nat>, todo: bool)
      requires Valid() && n < succs.Length
      requires o0 <= Range(succs.Length) && forall x | x in s0 :: x in o0
      ensures s0 <= stack && o0 <= onStack <= Range(succs.Length)
      ensures forall x | x in stack :: x in onStack
      ensures forall x | x in onStack && x !in stack :: x in o0 && x !in s0
      ensures todo ==> onStack != o0
      ensures !todo ==> stack == s0 && onStack == o0 && forall y | y in succs[n] :: y in onStack
    {
      stack, onStack, todo := s0, o0, false;
      for k := 0 to |succs[n]|
        invariant s0 <= stack && o0 <= onStack <= Range(succs.Length)
        invariant forall x | x in stack :: x in onStack
        invariant forall x | x in onStack && x !in stack :: x in o0 && x !in s0
        invariant todo ==> onStack != o0
        invariant !todo ==> stack == s0 && onStack == o0 && forall j | 0 <= j < k :: succs[n][j] in onStack
      {
        var succ := succs[n][k];
        assert succ in G().succs[n];
        if succ !in onStack {
          stack, onStack, todo := stack + [succ], onStack + {succ}, true;
        }
      }
    }

    method LinkUnlessReachable(ghost g0: Graph, ghost g1: Graph, n: nat, r0: set<nat>) returns (r: set<nat>)
      requires Valid() && ExitEdges(g0, G(), exit) && n < succs.Length
      requires g1.Valid() && |g1.succs| == |G().succs| && (forall u: nat, v: nat | g1.Edge(u, v) :: G().Edge(u, v))
      requires OncePerLoop(g1, G(), exit) && forall u: nat | IsLinked(g1, G(), exit, u) :: u in r0
      requires exit in r0 && r0 <= Range(succs.Length)
      requires forall x: nat, y: nat | y in r0 && G().Edge(x, y) :: x in r0
      requires forall x | x in r0 :: Reaches(G(), x, exit)
      modifies succs, preds
      ensures Valid() && ExitEdges(g0, G(), exit)
      ensures forall u: nat, v: nat :: G().Edge(u, v) <==> old(G()).Edge(u, v) || (u == n && v == exit && n !in r0)
      ensures OncePerLoop(g1, G(), exit) && forall u: nat | IsLinked(g1, G(), exit, u) :: u in r
      ensures r0 <= r <= Range(succs.Length) && n in r
      ensures forall x: nat, y: nat | y in r && G().Edge(x, y) :: x in r
      ensures forall x | x in r :: Reaches(G(), x, exit)
    {
      if n in r0 {
        return r0;
      }
      ghost var g := G();
      if Reaches(g0, n, exit) {
        MoreEdgesReach(g0, g, n, exit);
        ClosedUnderPreds(g, r0, n, exit);
        assert false;
      }
      Link(n, exit);
      OneMoreLinked(g1, g, G(), exit, n, r0);
      r := BackwardsReachable(n, r0);
      ReachesEdge(G(), n, exit);
      forall x | x in r
        ensures Reaches(G(), x, exit)
      {
        if x in r0 {
          MoreEdgesReach(g, G(), x, exit);
        } else {
          ReachesTrans(G(), x, n, exit);
        }
      }
    }
  }
}
