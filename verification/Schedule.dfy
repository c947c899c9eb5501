/** Placement of expressions into blocks: early, late, and in between where loops are least deep. */
module Scheduling {
  import opened Wrappers
  import opened Graphs
  import opened Trees
  import opened Dominance
  import opened DomTrees
  import opened LoopForests
  import opened LoopTrees

  ghost function Flatten(ss: seq<set<nat>>): (r: set<nat>)
    ensures forall x :: x in r <==> exists i :: 0 <= i < |ss| && x in ss[i]
  {
    if ss == [] then {} else Flatten(ss[..|ss| - 1]) + ss[|ss| - 1]
  }

  /** What the scheduler sees of a definition. Blocks are given by their index in the control-flow graph.
      Fixed stands for everything constant or outside of the scope. */
  datatype Def =
    | Block(cf: nat, ops: seq<nat>)
    | Param(cf: nat)
    | Fixed
    | Expr(ops: seq<nat>)

  /** Expressions form a graph without cycles: their operands, except for blocks, come earlier. */
  datatype Program = Program(defs: seq<Def>, uses: seq<seq<nat>>) {
    ghost predicate Valid(n: nat) {
      && |uses| == |defs| && n > 0
      && (forall d | 0 <= d < |defs| && (defs[d].Block? || defs[d].Param?) :: defs[d].cf < n)
      && (forall d | 0 <= d < |defs| :: OpsOk(d) && UsesOk(d))
    }

    ghost predicate OpsOk(d: nat)
      requires |uses| == |defs| && d < |defs|
    {
      defs[d].Expr? || defs[d].Block? ==>
        forall o | o in defs[d].ops :: o < |defs| && d in uses[o] && (defs[d].Expr? && !defs[o].Block? ==> o < d)
    }

    /** Every expression is used, by blocks or by later expressions. */
    ghost predicate UsesOk(d: nat)
      requires |uses| == |defs| && d < |defs|
    {
      && (forall u | u in uses[d] :: u < |defs| && (defs[u].Block? || defs[u].Expr?) && d in defs[u].ops)
      && (defs[d].Expr? ==> uses[d] != [] && forall u | u in uses[d] && defs[u].Expr? :: d < u)
    }

    /** The blocks in which d is needed, directly or through a chain of expressions. */
    ghost function Needs(n: nat, d: nat): (r: set<nat>)
      requires Valid(n) && d < |defs|
      ensures forall b | b in r :: b < n
      decreases |defs| - d
    {
      match defs[d]
      case Block(cf, _) => {cf}
      case Param(cf) => {cf}
      case Fixed => {0}
      case Expr(_) =>
        assert UsesOk(d);
        var us := uses[d];
        assert forall i | 0 <= i < |us| :: us[i] in us;
        Flatten(seq(|us|, i requires 0 <= i < |us| =>
          if defs[us[i]].Block? then {defs[us[i]].cf} else Needs(n, us[i])))
    }

    /** The blocks in which d is needed because of its i-th use. */
    ghost function NeedsOfUse(n: nat, d: nat, i: nat): (r: set<nat>)
      requires Valid(n) && d < |defs| && defs[d].Expr? && i < |uses[d]|
      ensures forall b | b in r :: b < n
    {
      assert UsesOk(d) && uses[d][i] in uses[d];
      Needs(n, uses[d][i])
    }

    lemma NeedsSplit(n: nat, d: nat)
      requires Valid(n) && d < |defs| && defs[d].Expr?
      ensures forall i | 0 <= i < |uses[d]| :: NeedsOfUse(n, d, i) <= Needs(n, d)
      ensures forall b | b in Needs(n, d) :: exists i :: 0 <= i < |uses[d]| && b in NeedsOfUse(n, d, i)
    {
      assert UsesOk(d);
      var us := uses[d];
      assert forall i | 0 <= i < |us| :: us[i] in us;
      var ss := seq(|us|, i requires 0 <= i < |us| =>
        if defs[us[i]].Block? then {defs[us[i]].cf} else Needs(n, us[i]));
      assert Needs(n, d) == Flatten(ss);
      forall i | 0 <= i < |us|
        ensures NeedsOfUse(n, d, i) == ss[i]
      {}
    }

    /** The blocks that bind the parameters d depends on through a chain of expressions. */
    ghost function Binders(n: nat, d: nat): (r: set<nat>)
      requires Valid(n) && d < |defs|
      ensures forall b | b in r :: b < n
      decreases defs[d].Block?, d
    {
      match defs[d]
      case Param(cf) => {cf}
      case Fixed => {}
      case _ =>
        assert OpsOk(d);
        var ops := defs[d].ops;
        assert forall i | 0 <= i < |ops| :: ops[i] in ops;
        Flatten(seq(|ops|, i requires 0 <= i < |ops| =>
          if defs[ops[i]].Block? then {} else Binders(n, ops[i])))
    }

    /** The share of the i-th operand. */
    ghost function BindersOfOp(n: nat, d: nat, i: nat): (r: set<nat>)
      requires Valid(n) && d < |defs| && (defs[d].Expr? || defs[d].Block?) && i < |defs[d].ops|
      ensures forall b | b in r :: b < n
    {
      assert OpsOk(d) && defs[d].ops[i] in defs[d].ops;
      if defs[defs[d].ops[i]].Block? then {} else Binders(n, defs[d].ops[i])
    }

    lemma BindersSplit(n: nat, d: nat)
      requires Valid(n) && d < |defs| && (defs[d].Expr? || defs[d].Block?)
      ensures forall i | 0 <= i < |defs[d].ops| :: BindersOfOp(n, d, i) <= Binders(n, d)
      ensures forall b | b in Binders(n, d) :: exists i :: 0 <= i < |defs[d].ops| && b in BindersOfOp(n, d, i)
    {
      assert OpsOk(d);
      var ops := defs[d].ops;
      assert forall i | 0 <= i < |ops| :: ops[i] in ops;
      var ss := seq(|ops|, i requires 0 <= i < |ops| =>
        if defs[ops[i]].Block? then {} else Binders(n, ops[i]));
      assert Binders(n, d) == Flatten(ss);
      forall i | 0 <= i < |ops|
        ensures BindersOfOp(n, d, i) == ss[i]
      {}
    }

    lemma BindersOfOpIn(n: nat, d: nat, i: nat)
      requires Valid(n) && d < |defs| && (defs[d].Expr? || defs[d].Block?) && i < |defs[d].ops|
      ensures BindersOfOp(n, d, i) <= Binders(n, d)
      ensures defs[d].ops[i] < |defs|
      ensures !defs[defs[d].ops[i]].Block? ==> BindersOfOp(n, d, i) == Binders(n, defs[d].ops[i])
      ensures defs[defs[d].ops[i]].Block? || defs[defs[d].ops[i]].Fixed? ==> BindersOfOp(n, d, i) == {}
    {
      BindersSplit(n, d);
      assert OpsOk(d) && defs[d].ops[i] in defs[d].ops;
    }

    /** Every expression is needed somewhere. */
    lemma {:induction false} Needed(n: nat, d: nat) returns (b: nat)
      requires Valid(n) && d < |defs|
      ensures b in Needs(n, d)
      decreases |defs| - d
    {
      if defs[d].Expr? {
        assert UsesOk(d);
        assert uses[d][0] in uses[d];
        NeedsSplit(n, d);
        if defs[uses[d][0]].Block? {
          b := defs[uses[d][0]].cf;
          assert b in NeedsOfUse(n, d, 0);
        } else {
          b := Needed(n, uses[d][0]);
          assert b in NeedsOfUse(n, d, 0);
        }
      } else {
        b := if defs[d].Fixed? then 0 else defs[d].cf;
      }
    }

    /** From an expression to a user. */
    ghost predicate UsedAt(ps: seq<nat>, i: nat)
      requires |uses| == |defs| && i + 1 < |ps|
    {
      ps[i] < |defs| && ps[i + 1] < |defs| && defs[ps[i]].Expr? && ps[i + 1] in uses[ps[i]]
    }

    ghost predicate UsedBy(ps: seq<nat>, d: nat, u: nat)
      requires |uses| == |defs|
    {
      |ps| > 0 && ps[0] == d && ps[|ps| - 1] == u && forall i | 0 <= i < |ps| - 1 :: UsedAt(ps, i)
    }

    /** Blocks and parameters have their place; what is fixed has the entry. */
    ghost predicate HasPlace(d: nat, b: nat) {
      d < |defs| && if defs[d].Fixed? then b == 0 else !defs[d].Expr? && b == defs[d].cf
    }

    ghost predicate NeededIn(d: nat, b: nat)
      requires |uses| == |defs|
    {
      exists ps, u: nat :: UsedBy(ps, d, u) && HasPlace(u, b)
    }

    lemma NeededInUse(d: nat, b: nat)
      requires |uses| == |defs| && d < |defs| && defs[d].Expr? && NeededIn(d, b)
      ensures exists i :: 0 <= i < |uses[d]| && NeededIn(uses[d][i], b)
    {
      var ps, u: nat :| UsedBy(ps, d, u) && HasPlace(u, b);
      assert UsedAt(ps, 0);
      forall i | 0 <= i < |ps[1..]| - 1
        ensures UsedAt(ps[1..], i)
      {
        assert UsedAt(ps, i + 1);
      }
      assert UsedBy(ps[1..], ps[1], u);
    }

    lemma NeededThrough(d: nat, i: nat, b: nat)
      requires |uses| == |defs| && d < |defs| && defs[d].Expr? && i < |uses[d]| && uses[d][i] < |defs|
      requires NeededIn(uses[d][i], b)
      ensures NeededIn(d, b)
    {
      var ps, u: nat :| UsedBy(ps, uses[d][i], u) && HasPlace(u, b);
      var qs := [d] + ps;
      forall k | 0 <= k < |qs| - 1
        ensures UsedAt(qs, k)
      {
        if k > 0 { assert UsedAt(ps, k - 1); } else { assert uses[d][i] in uses[d]; }
      }
      assert UsedBy(qs, d, u);
    }

    /** A definition is needed where a chain of uses ends. */
    lemma {:induction false} NeedsAre(n: nat, d: nat, b: nat)
      requires Valid(n) && d < |defs|
      ensures b in Needs(n, d) <==> NeededIn(d, b)
      decreases |defs| - d
    {
      if !defs[d].Expr? {
        NeededHere(d, b);
      } else {
        NeedsSplit(n, d);
        forall i | 0 <= i < |uses[d]|
          ensures uses[d][i] < |defs| && (b in NeedsOfUse(n, d, i) <==> NeededIn(uses[d][i], b))
        {
          assert UsesOk(d) && uses[d][i] in uses[d];
          if defs[uses[d][i]].Expr? { NeedsAre(n, uses[d][i], b); } else { NeededHere(uses[d][i], b); }
        }
        if i :| 0 <= i < |uses[d]| && b in NeedsOfUse(n, d, i) { NeededThrough(d, i, b); }
        if NeededIn(d, b) { NeededInUse(d, b); }
      }
    }

    lemma OnlyExprsUsed(ps: seq<nat>, d: nat, u: nat)
      requires |uses| == |defs| && UsedBy(ps, d, u)
      ensures |ps| > 1 ==> d < |defs| && defs[d].Expr?
    {
      if |ps| > 1 { assert UsedAt(ps, 0); }
    }

    lemma NeededHere(d: nat, b: nat)
      requires |uses| == |defs| && d < |defs| && !defs[d].Expr?
      ensures NeededIn(d, b) <==> HasPlace(d, b)
    {
      if NeededIn(d, b) {
        var ps, u: nat :| UsedBy(ps, d, u) && HasPlace(u, b);
        OnlyExprsUsed(ps, d, u);
      }
      assert UsedBy([d], d, d);
    }

    /** From a definition to an operand, but not to a block. */
    ghost predicate DependsAt(ps: seq<nat>, i: nat)
      requires i + 1 < |ps|
    {
      && ps[i] < |defs| && ps[i + 1] < |defs| && (defs[ps[i]].Expr? || defs[ps[i]].Block?)
      && ps[i + 1] in defs[ps[i]].ops && !defs[ps[i + 1]].Block?
    }

    ghost predicate DependsOn(ps: seq<nat>, d: nat, v: nat) {
      |ps| > 0 && ps[0] == d && ps[|ps| - 1] == v && forall i | 0 <= i < |ps| - 1 :: DependsAt(ps, i)
    }

    /** d depends on a parameter of b. */
    ghost predicate BoundIn(d: nat, b: nat) {
      exists ps, v: nat :: DependsOn(ps, d, v) && v < |defs| && defs[v] == Param(b)
    }

    lemma BoundInOperand(d: nat, b: nat)
      requires d < |defs| && (defs[d].Expr? || defs[d].Block?) && BoundIn(d, b)
      ensures exists i :: 0 <= i < |defs[d].ops| && defs[d].ops[i] < |defs| && !defs[defs[d].ops[i]].Block?
                       && BoundIn(defs[d].ops[i], b)
    {
      var ps, v: nat :| DependsOn(ps, d, v) && v < |defs| && defs[v] == Param(b);
      assert DependsAt(ps, 0);
      forall i | 0 <= i < |ps[1..]| - 1
        ensures DependsAt(ps[1..], i)
      {
        assert DependsAt(ps, i + 1);
      }
      assert DependsOn(ps[1..], ps[1], v);
    }

    lemma BoundThrough(d: nat, i: nat, b: nat)
      requires d < |defs| && (defs[d].Expr? || defs[d].Block?) && i < |defs[d].ops|
      requires defs[d].ops[i] < |defs| && !defs[defs[d].ops[i]].Block? && BoundIn(defs[d].ops[i], b)
      ensures BoundIn(d, b)
    {
      var ps, v: nat :| DependsOn(ps, defs[d].ops[i], v) && v < |defs| && defs[v] == Param(b);
      var qs := [d] + ps;
      forall k | 0 <= k < |qs| - 1
        ensures DependsAt(qs, k)
      {
        if k > 0 { assert DependsAt(ps, k - 1); } else { assert defs[d].ops[i] in defs[d].ops; }
      }
      assert DependsOn(qs, d, v);
    }

    /** The binders are the blocks of the parameters at the ends of chains of operands. */
    lemma {:induction false} BindersAre(n: nat, d: nat, b: nat)
      requires Valid(n) && d < |defs|
      ensures b in Binders(n, d) <==> BoundIn(d, b)
      decreases defs[d].Block?, d
    {
      if defs[d].Param? || defs[d].Fixed? {
        BoundHere(d, b);
      } else {
        BindersSplit(n, d);
        forall i | 0 <= i < |defs[d].ops|
          ensures defs[d].ops[i] < |defs|
          ensures b in BindersOfOp(n, d, i) <==> !defs[defs[d].ops[i]].Block? && BoundIn(defs[d].ops[i], b)
        {
          BindersOfOpIn(n, d, i);
          assert OpsOk(d) && defs[d].ops[i] in defs[d].ops;
          if !defs[defs[d].ops[i]].Block? { BindersAre(n, defs[d].ops[i], b); }
        }
        if i :| 0 <= i < |defs[d].ops| && b in BindersOfOp(n, d, i) { BoundThrough(d, i, b); }
        if BoundIn(d, b) { BoundInOperand(d, b); }
      }
    }

    lemma OnlyUsersDepend(ps: seq<nat>, d: nat, v: nat)
      requires DependsOn(ps, d, v)
      ensures |ps| > 1 ==> d < |defs| && (defs[d].Expr? || defs[d].Block?)
    {
      if |ps| > 1 { assert DependsAt(ps, 0); }
    }

    lemma BoundHere(d: nat, b: nat)
      requires d < |defs| && (defs[d].Param? || defs[d].Fixed?)
      ensures BoundIn(d, b) <==> defs[d] == Param(b)
    {
      if BoundIn(d, b) {
        var ps, v: nat :| DependsOn(ps, d, v) && v < |defs| && defs[v] == Param(b);
        OnlyUsersDepend(ps, d, v);
      }
      assert DependsOn([d], d, d);
    }

    /** d may use its parameters wherever it is needed: the definition of strictness of SSA form. */
    ghost predicate Strict(n: nat, t: seq<nat>, d: nat)
      requires Valid(n) && d < |defs| && IsTree(t) && |t| == n
    {
      forall v, b | v in Binders(n, d) && b in Needs(n, d) :: v in Anc(t, b)
    }

    /** r is the lowest block that dominates everything in which d is needed. */
    ghost predicate IsLate(n: nat, t: seq<nat>, d: nat, r: nat)
      requires Valid(n) && d < |defs| && IsTree(t) && |t| == n
    {
      r < n && forall a: nat :: a in Anc(t, r) <==> forall b | b in Needs(n, d) :: a in Anc(t, b)
    }

    /** r is the deepest block that binds a parameter of d, or the entry if there is none. */
    ghost predicate IsEarly(n: nat, t: seq<nat>, d: nat, r: nat)
      requires Valid(n) && d < |defs| && IsTree(t) && |t| == n
    {
      && r in Binders(n, d) + {0}
      && forall v | v in Binders(n, d) :: TreeDepth(t, v) <= TreeDepth(t, r)
    }
  }

  lemma {:induction false} ProperAncestorIsHigher(t: seq<nat>, a: nat, n: nat)
    requires IsTree(t) && n < |t| && a in Anc(t, n) && a != n
    ensures a < |t| && TreeDepth(t, a) < TreeDepth(t, n)
    decreases n
  {
    AncBound(t, n);
    if a != t[n] { ProperAncestorIsHigher(t, a, t[n]); }
  }

  /** In strict programs all parameters of d are available at its early block, which in turn dominates the late one. */
  lemma EarlyDominatesLate(p: Program, n: nat, t: seq<nat>, d: nat, e: nat, l: nat)
    requires p.Valid(n) && d < |p.defs| && IsTree(t) && |t| == n && p.Strict(n, t, d)
    requires p.IsEarly(n, t, d, e) && p.IsLate(n, t, d, l)
    ensures e in Anc(t, l)
    ensures forall v | v in p.Binders(n, d) :: v in Anc(t, e)
  {
    var b := p.Needed(n, d);
    forall c | c in p.Needs(n, d)
      ensures e in Anc(t, c)
    {
      AncBound(t, c);
    }
    forall v | v in p.Binders(n, d)
      ensures v in Anc(t, e)
    {
      if v <= e {
        AncBound(t, b);
        AncChain(t, v, e, b);
      } else {
        AncBound(t, b);
        AncChain(t, e, v, b);
        ProperAncestorIsHigher(t, e, v);
      }
    }
  }

  /** s lies between e and l; no block there is in fewer loops, and those closer to l are in more. */
  ghost predicate Between(t: seq<nat>, depths: seq<nat>, e: nat, l: nat, s: nat)
    requires IsTree(t) && |depths| == |t| && e < |t| && l < |t|
  {
    && s < |t| && s in Anc(t, l) && e in Anc(t, s)
    && Best(t, depths, e, l, s)
  }

  ghost predicate Best(t: seq<nat>, depths: seq<nat>, i: nat, l: nat, s: nat)
    requires IsTree(t) && |depths| == |t| && l < |t| && s < |t|
  {
    forall x: nat | x < |t| && x in Anc(t, l) && i in Anc(t, x) ::
      depths[s] <= depths[x] && (s in Anc(t, x) && x != s ==> depths[s] < depths[x])
  }

  /** A place for d between its early and its late block. */
  ghost predicate IsSmart(p: Program, n: nat, t: seq<nat>, depths: seq<nat>, d: nat, s: nat)
    requires p.Valid(n) && d < |p.defs| && IsTree(t) && |t| == |depths| == n
  {
    exists e, l :: p.IsEarly(n, t, d, e) && p.IsLate(n, t, d, l) && Between(t, depths, e, l, s)
  }

  /** The results remembered are right. */
  ghost predicate EarlyOk(p: Program, n: nat, t: seq<nat>, early: map<nat, nat>)
    requires p.Valid(n) && IsTree(t) && |t| == n
  {
    forall d | d in early :: d < |p.defs| && p.IsEarly(n, t, d, early[d])
  }

  ghost predicate LateOk(p: Program, n: nat, t: seq<nat>, late: map<nat, nat>)
    requires p.Valid(n) && IsTree(t) && |t| == n
  {
    forall d | d in late :: d < |p.defs| && p.IsLate(n, t, d, late[d])
  }

  ghost predicate SmartOk(p: Program, n: nat, t: seq<nat>, depths: seq<nat>, smart: map<nat, nat>)
    requires p.Valid(n) && IsTree(t) && |t| == |depths| == n
  {
    forall d | d in smart :: d < |p.defs| && IsSmart(p, n, t, depths, d, smart[d])
  }

  ghost function Depths(f: Forest, n: nat): (r: seq<nat>)
    requires f.Valid() && forall b: nat | b < n :: b in f.leaves
    ensures |r| == n && forall b: nat | b < n :: f.tree[f.leaves[b]].depth == r[b]
  {
    if n == 0 then [] else Depths(f, n - 1) + [f.tree[f.leaves[n - 1]].depth]
  }

  class Scheduler {
    const p: Program
    const domtree: DomTree
    const loops: LoopTreeBuilder
    ghost const t: seq<nat>        // the dominator tree
    ghost const depths: seq<nat>   // the loop depth of every block
    var early: map<nat, nat>
    var late: map<nat, nat>
    var smart: map<nat, nat>

    ghost predicate Valid()
      reads this, domtree, domtree.idoms, domtree.children, domtree.depth, loops
    {
      && Inputs()
      && EarlyOk(p, |t|, t, early) && LateOk(p, |t|, t, late) && SmartOk(p, |t|, t, depths, smart)
    }

    ghost predicate Inputs()
      reads this, domtree, domtree.idoms, domtree.children, domtree.depth, loops
    {
      && domtree.Valid() && domtree.idoms[..] == t
      && loops.Layout() && |depths| == |t|
      && (forall b: nat | b < |t| :: b in loops.leaves && loops.tree[loops.leaves[b]].depth == depths[b])
      && p.Valid(|t|)
    }

    constructor (p: Program, domtree: DomTree, loops: LoopTreeBuilder)
      requires domtree.Valid() && loops.Layout() && loops.cfg == domtree.cfg
      requires (forall b: nat | b < |domtree.cfg.preds| :: b in loops.leaves) && p.Valid(|domtree.cfg.preds|)
      ensures Valid() && this.p == p && this.domtree == domtree && this.loops == loops
    {
      this.p, this.domtree, this.loops := p, domtree, loops;
      t := domtree.idoms[..];
      depths := Depths(loops.F(), |domtree.cfg.preds|);
      early, late, smart := map[], map[], map[];
    }

    method Early(d: nat) returns (result: nat)
      requires Inputs() && EarlyOk(p, |t|, t, early) && d < |p.defs|
      modifies `early
      ensures EarlyOk(p, |t|, t, early) && p.IsEarly(|t|, t, d, result)
      decreases p.defs[d].Block?, d
    {
      if d in early { return early[d]; }
      match p.defs[d]
      case Fixed => result := 0;
      case Param(cf) => result := cf;
      case _ => result := EarlyOfOps(d);
      early := early[d := result];
    }

    /** The loop over the operands. */
    method EarlyOfOps(d: nat) returns (result: nat)
      requires Inputs() && EarlyOk(p, |t|, t, early) && d < |p.defs| && (p.defs[d].Block? || p.defs[d].Expr?)
      modifies `early
      ensures EarlyOk(p, |t|, t, early) && p.IsEarly(|t|, t, d, result)
      decreases p.defs[d].Block?, d, 1
    {
      result := 0;
      ghost var n, all := |t|, p.Binders(|t|, d);
      ghost var seen: set<nat> := {};
      var ops := p.defs[d].ops;
      assert p.OpsOk(d);
      for i := 0 to |ops|
        invariant EarlyOk(p, n, t, early) && result < n && result in all + {0}
        invariant seen <= all && NotDeeper(t, seen, result)
        invariant forall j | 0 <= j < i :: p.BindersOfOp(n, d, j) <= seen
      {
        result := Deeper(d, i, seen, result);
        p.BindersOfOpIn(n, d, i);
        seen := seen + p.BindersOfOp(n, d, i);
      }
      p.BindersSplit(n, d);
    }

    /** Takes the i-th operand into account. */
    method Deeper(d: nat, i: nat, ghost seen: set<nat>, result: nat) returns (r: nat)
      requires Inputs() && EarlyOk(p, |t|, t, early) && d < |p.defs| && (p.defs[d].Block? || p.defs[d].Expr?)
      requires i < |p.defs[d].ops| && result < |t| && (forall b | b in seen :: b < |t|) && NotDeeper(t, seen, result)
      modifies `early
      ensures EarlyOk(p, |t|, t, early) && r < |t|
      ensures r == result || r in p.BindersOfOp(|t|, d, i)
      ensures NotDeeper(t, seen + p.BindersOfOp(|t|, d, i), r)
      decreases p.defs[d].Block?, d, 0
    {
      r := result;
      var op := p.defs[d].ops[i];
      assert p.OpsOk(d) && op in p.defs[d].ops;
      p.BindersOfOpIn(|t|, d, i);
      if !p.defs[op].Block? && !p.defs[op].Fixed? {
        var nom := Early(op);
        if domtree.depth[nom] > domtree.depth[result] {
          r := nom;
        }
        EarlyNext(t, seen, p.BindersOfOp(|t|, d, i), result, nom, r);
      }
    }

    method Late(d: nat) returns (result: nat)
      requires Inputs() && EarlyOk(p, |t|, t, early) && LateOk(p, |t|, t, late) && d < |p.defs|
      modifies `early, `late
      ensures EarlyOk(p, |t|, t, early) && LateOk(p, |t|, t, late) && p.IsLate(|t|, t, d, result)
      decreases |p.defs| - d
    {
      if d in late { return late[d]; }
      match p.defs[d]
      case Fixed =>
        // recorded as early, which is right as well
        early := early[d := 0];
        return 0;
      case Block(cf, _) => result := cf;
      case Param(cf) => result := cf;
      case Expr(_) => result := LateOfUses(d);
      late := late[d := result];
    }

    /** The least common ancestor of the places of all uses. */
    method LateOfUses(d: nat) returns (result: nat)
      requires Inputs() && EarlyOk(p, |t|, t, early) && LateOk(p, |t|, t, late) && d < |p.defs| && p.defs[d].Expr?
      modifies `early, `late
      ensures EarlyOk(p, |t|, t, early) && LateOk(p, |t|, t, late) && p.IsLate(|t|, t, d, result)
      decreases |p.defs| - d, 0
    {
      var us := p.uses[d];
      ghost var n := |t|;
      assert p.UsesOk(d);
      result := 0;
      for i := 0 to |us|
        invariant EarlyOk(p, n, t, early) && LateOk(p, n, t, late) && result < n
        invariant i > 0 ==> MeetsUses(p, n, t, d, i, result)
      {
        assert us[i] in us;
        var nom;
        if p.defs[us[i]].Block? {
          nom := p.defs[us[i]].cf;
        } else {
          nom := Late(us[i]);
        }
        ghost var r := result;
        if i == 0 {
          result := nom;
        } else {
          result := domtree.LeastCommonAncestor(result, nom);
        }
        MeetNext(p, n, t, d, i, r, nom, result);
      }
      MeetsAll(p, n, t, d, result);
    }

    /** Finds the place for d. The walk from the late block up to the early one must not leave the entry, which is
        asserted: there is a result exactly if the early block dominates the late one, as in all strict programs. */
    method Smart(d: nat) returns (s: Option<nat>)
      requires Valid() && d < |p.defs|
      modifies this
      ensures Valid() && (s.Some? ==> IsSmart(p, |t|, t, depths, d, s.value))
      ensures s.None? ==> exists e, l :: p.IsEarly(|t|, t, d, e) && p.IsLate(|t|, t, d, l) && e !in Anc(t, l)
      ensures p.Strict(|t|, t, d) ==> s.Some?
    {
      if d in smart { return Some(smart[d]); }
      var e, l := EarlyAndLate(d);
      s := Walk(e, l);
      if s.Some? {
        Remember(d, s.value);
      } else if p.Strict(|t|, t, d) {
        EarlyDominatesLate(p, |t|, t, d, e, l);
      }
    }

    method EarlyAndLate(d: nat) returns (e: nat, l: nat)
      requires Valid() && d < |p.defs|
      modifies `early, `late
      ensures Valid() && p.IsEarly(|t|, t, d, e) && p.IsLate(|t|, t, d, l)
    {
      e := Early(d);
      l := Late(d);
    }

    method Remember(d: nat, s: nat)
      requires Valid() && d < |p.defs| && IsSmart(p, |t|, t, depths, d, s)
      modifies `smart
      ensures Valid()
    {
      smart := smart[d := s];
    }

    /** Walks up from the late to the early block and remembers the first block of least loop depth. */
    method Walk(e: nat, l: nat) returns (r: Option<nat>)
      requires Inputs() && e < |t| && l < |t|
      ensures r.Some? <==> e in Anc(t, l)
      ensures r.Some? ==> Between(t, depths, e, l, r.value)
    {
      var s := l;
      var depth := loops.tree[loops.leaves[l]].depth;
      var i: nat := l;
      AncBound(t, l);
      Start(t, depths, l);
      while i != e
        invariant i < |t| && i in Anc(t, l) && (e in Anc(t, l) <==> e in Anc(t, i))
        invariant s < |t| && s in Anc(t, l) && i in Anc(t, s) && depth == depths[s]
        invariant Best(t, depths, i, l, s)
        decreases i
      {
        if i == 0 { return None; }
        Up(t, l, i);
        BestUp(t, depths, i, l, s);
        AncTrans(t, t[i], i);
        AncTrans(t, i, s);
        i := domtree.idoms[i];
        var curDepth := loops.tree[loops.leaves[i]].depth;
        if curDepth < depth {
          s := i;
          depth := curDepth;
        }
      }
      AncBound(t, i);
      return Some(s);
    }
  }

  ghost predicate NotDeeper(t: seq<nat>, bs: set<nat>, r: nat)
    requires IsTree(t) && r < |t| && forall b | b in bs :: b < |t|
  {
    forall b | b in bs :: TreeDepth(t, b) <= TreeDepth(t, r)
  }

  lemma EarlyNext(t: seq<nat>, seen: set<nat>, bs: set<nat>, r: nat, nom: nat, r': nat)
    requires IsTree(t) && r < |t| && nom < |t| && (forall b | b in seen :: b < |t|) && (forall b | b in bs :: b < |t|)
    requires NotDeeper(t, seen, r) && NotDeeper(t, bs, nom)
    requires r' == if TreeDepth(t, nom) > TreeDepth(t, r) then nom else r
    ensures NotDeeper(t, seen + bs, r')
  {}

  ghost predicate DominatesAll(t: seq<nat>, a: nat, bs: set<nat>)
    requires IsTree(t) && forall b | b in bs :: b < |t|
  {
    forall b | b in bs :: a in Anc(t, b)
  }

  /** r is the lowest block that dominates what the first k uses of d need. */
  ghost predicate MeetsUses(p: Program, n: nat, t: seq<nat>, d: nat, k: nat, r: nat)
    requires p.Valid(n) && d < |p.defs| && p.defs[d].Expr? && IsTree(t) && |t| == n && r < n && k <= |p.uses[d]|
  {
    forall a: nat :: a in Anc(t, r) <==> forall j | 0 <= j < k :: DominatesAll(t, a, p.NeedsOfUse(n, d, j))
  }

  lemma MeetNext(p: Program, n: nat, t: seq<nat>, d: nat, i: nat, r: nat, nom: nat, r': nat)
    requires p.Valid(n) && d < |p.defs| && p.defs[d].Expr? && IsTree(t) && |t| == n && r < n && r' < n
             && i < |p.uses[d]|
    requires p.UsesOk(d) && p.uses[d][i] in p.uses[d] && p.IsLate(n, t, p.uses[d][i], nom)
    requires i > 0 ==> MeetsUses(p, n, t, d, i, r) && Anc(t, r') == Anc(t, r) * Anc(t, nom)
    requires i == 0 ==> r' == nom
    ensures MeetsUses(p, n, t, d, i + 1, r')
  {
    forall a: nat
      ensures a in Anc(t, r') <==> forall j | 0 <= j < i + 1 :: DominatesAll(t, a, p.NeedsOfUse(n, d, j))
    {
      assert a in Anc(t, nom) <==> DominatesAll(t, a, p.NeedsOfUse(n, d, i));
    }
  }

  lemma MeetsAll(p: Program, n: nat, t: seq<nat>, d: nat, r: nat)
    requires p.Valid(n) && d < |p.defs| && p.defs[d].Expr? && IsTree(t) && |t| == n && r < n
    requires MeetsUses(p, n, t, d, |p.uses[d]|, r)
    ensures p.IsLate(n, t, d, r)
  {
    p.NeedsSplit(n, d);
    forall a: nat
      ensures a in Anc(t, r) <==> forall b | b in p.Needs(n, d) :: a in Anc(t, b)
    {
      if a in Anc(t, r) {
        forall b | b in p.Needs(n, d)
          ensures a in Anc(t, b)
        {
          var j :| 0 <= j < |p.uses[d]| && b in p.NeedsOfUse(n, d, j);
          assert DominatesAll(t, a, p.NeedsOfUse(n, d, j));
        }
      }
    }
  }

  /** The walk looks at one more block, i's parent. */
  lemma BestUp(t: seq<nat>, depths: seq<nat>, i: nat, l: nat, s: nat)
    requires IsTree(t) && |depths| == |t| && l < |t| && s < |t| && 0 < i < |t|
    requires i in Anc(t, l) && s in Anc(t, l) && i in Anc(t, s) && Best(t, depths, i, l, s)
    ensures Best(t, depths, t[i], l, if depths[t[i]] < depths[s] then t[i] else s)
  {
    var u := t[i];
    var s' := if depths[u] < depths[s] then u else s;
    AncBound(t, u);
    forall x: nat | x < |t| && x in Anc(t, l) && u in Anc(t, x)
      ensures depths[s'] <= depths[x] && (s' in Anc(t, x) && x != s' ==> depths[s'] < depths[x])
    {
      Up(t, l, i);
      if x == u {
        AncBound(t, i);
        AncBound(t, s);
      }
    }
  }

  lemma Start(t: seq<nat>, depths: seq<nat>, l: nat)
    requires IsTree(t) && |depths| == |t| && l < |t|
    ensures Best(t, depths, l, l, l)
  {
    forall x: nat | x < |t| && x in Anc(t, l) && l in Anc(t, x)
      ensures x == l
    {
      AncBound(t, l);
      AncBound(t, x);
    }
  }

  /** One step up the chain of l: the new block is the only one that joins those between. */
  lemma Up(t: seq<nat>, l: nat, i: nat)
    requires IsTree(t) && l < |t| && i in Anc(t, l) && 0 < i < |t|
    ensures t[i] in Anc(t, l) && t[i] in Anc(t, t[i])
    ensures forall x: nat | x in Anc(t, l) && x < |t| && t[i] in Anc(t, x) :: i in Anc(t, x) || x == t[i]
    ensures forall x: nat | x in Anc(t, l) && x < |t| && i in Anc(t, x) :: t[i] in Anc(t, x)
  {
    AncTrans(t, i, l);
    AncBound(t, t[i]);
    forall x: nat | x in Anc(t, l) && x < |t|
      ensures t[i] in Anc(t, x) ==> i in Anc(t, x) || x == t[i]
      ensures i in Anc(t, x) ==> t[i] in Anc(t, x)
    {
      AncBound(t, x);
      if i <= x {
        AncBound(t, l);
        AncChain(t, i, x, l);
      } else {
        AncChain(t, x, i, l);
        AncBound(t, t[i]);
      }
      if i in Anc(t, x) { AncTrans(t, i, x); }
    }
  }
}
