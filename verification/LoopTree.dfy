/** The builder of the loop forest: the recursive component search and the recursion into the loops found. */
module LoopTrees {
  import opened Wrappers
  import opened Graphs
  import opened Dominance
  import opened Components
  import opened Tarjan
  import opened LoopForests
  import opened LoopLevels

  class LoopTreeBuilder {
    const cfg: Graph
    var numbers: seq<Number>
    var states: seq<Flags>
    var visited: set<nat>
    var index: nat
    var stack: seq<nat>
    var tree: seq<Base>
    var leaves: map<nat, nat>
    ghost var comps: seq<set<nat>>

    ghost predicate Layout()
      reads this
    {
      && IsRpo(cfg)
      && |numbers| == |states| == |cfg.succs|
      && |comps| == |tree|
      && LeafSync(tree, leaves)
    }

    ghost function Current(gray: set<nat>): Run
      reads this
    {
      Run(visited, stack, numbers, gray)
    }

    ghost function Targets(h: set<nat>): set<nat>
    {
      Range(|cfg.succs|) - h
    }

    /** The loop over the current component that marks it; returns where it starts and its size. */
    method MarkScc(cur: nat, ghost b: nat, ghost h: set<nat>) returns (start: nat, num: nat)
      requires |states| == |cfg.succs| && (forall v | v in stack :: v < |states|) && NoDup(stack)
      requires b < |stack| && stack[b] == cur && FlagsAre(states, {}, stack, h)
      modifies `states
      ensures start == b && num == |stack| - b && |states| == old(|states|)
      ensures FlagsAre(states, Elems(stack[b..]), stack, h)
    {
      num := 0;
      start := |stack| - 1;
      while true
        invariant b <= start < |stack| && num == |stack| - 1 - start && |states| == old(|states|)
        invariant FlagsAre(states, Elems(stack[start + 1..]), stack, h)
        decreases start
      {
        assert stack[start] in stack;
        assert stack[start..] == [stack[start]] + stack[start + 1..];
        states := states[stack[start] := states[stack[start]].(inScc := true)];
        num := num + 1;
        if stack[start] == cur { break; }
        start := start - 1;
      }
    }

    /** Is n, a component of num nodes, no loop? */
    method IsLeaf(n: nat, num: nat, ghost scc: set<nat>, ghost h: set<nat>) returns (leaf: bool)
      requires cfg.Valid() && |states| == |cfg.succs| && n < |states| && FlagsAre(states, scc, stack, h)
      ensures leaf <==> num == 1 && !Step(cfg, Targets(h), n, n)
    {
      if num == 1 {
        for k := 0 to |cfg.succs[n]|
          invariant forall j | 0 <= j < k :: !(cfg.succs[n][j] == n && n !in h)
        {
          var succ := cfg.succs[n][k];
          assert succ in cfg.succs[n];
          if !states[succ].isHead && n == succ { return false; }
        }
        return true;
      }
      return false;
    }

    method CollectHeads(b: nat, ghost c: set<nat>, ghost h: set<nat>) returns (heads: seq<nat>)
      requires cfg.Valid() && |states| == |cfg.succs| && (forall v | v in stack :: v < |states|)
      requires b <= |stack| && FlagsAre(states, c, stack, h)
      ensures heads == Entries(cfg, stack[b..], c)
    {
      heads := [];
      for i := b to |stack|
        invariant heads == Entries(cfg, stack[b..i], c)
      {
        var n := stack[i];
        assert n in stack;
        var entry := EntersScc(n, c, h);
        if entry { heads := heads + [n]; }
        EntriesSnoc(cfg, stack, b, i, c);
      }
      assert stack[b..|stack|] == stack[b..];
    }

    /** Entries are axiomatically heads; all backedges are also inducing heads. */
    method EntersScc(n: nat, ghost c: set<nat>, ghost h: set<nat>) returns (found: bool)
      requires cfg.Valid() && |states| == |cfg.succs| && n < |states| && FlagsAre(states, c, stack, h)
      ensures found <==> IsEntry(cfg, c, n)
    {
      if n == 0 { return true; }
      for k := 0 to |cfg.preds[n]|
        invariant forall j | 0 <= j < k :: cfg.preds[n][j] in c
      {
        var pred := cfg.preds[n][k];
        assert pred in cfg.preds[n];
        if !states[pred].inScc {
          assert cfg.Edge(pred, n);
          return true;
        }
      }
      assert forall p: nat | cfg.Edge(p, n) :: p in cfg.preds[n];
      return false;
    }

    /** The call for cur pushes it. */
    method Visit(cur: nat, counter: nat, ghost h: set<nat>, ghost gray: set<nat>) returns (next: nat)
      requires |states| == |numbers| && FlagsAre(states, {}, stack, h) && cur < |states|
      modifies `visited, `numbers, `stack, `states
      ensures next == counter + 1 && |states| == old(|states|) && FlagsAre(states, {}, stack, h)
      ensures Current(gray + {cur}) == Pushed(old(Current(gray)), cur, counter)
    {
      visited := visited + {cur};
      numbers := numbers[cur := Number(counter, counter)];
      next := counter + 1;
      stack := stack + [cur];
      states := states[cur := states[cur].(onStack := true)];
    }

    ghost function F(): Forest
      reads this
    {
      Forest(tree, leaves, comps)
    }

    /** new Leaf(...) or new Head(...): the constructor of Base hooks the node into its parent. */
    method NewBase(parent: nat, b: Base, ghost c: set<nat>)
      requires F().Valid() && parent < |tree| && tree[parent].Head?
      requires b.Leaf? ==> c == {b.node} && b.node !in leaves
      modifies `tree, `leaves, `comps
      ensures F().Valid() && Appended(old(F()), F(), parent)
      ensures |tree| == old(|tree|) + 1 && tree[|tree| - 1] == b && comps == old(comps) + [c]
      ensures leaves == if b.Leaf? then old(leaves)[b.node := |tree| - 1] else old(leaves)
    {
      if b.Leaf? {
        leaves := leaves[b.node := |tree|];
      }
      comps := comps + [c];
      tree := tree[parent := tree[parent].(children := tree[parent].children + [|tree|])] + [b];
      assert Ids(|tree| - 1, |tree|) == [|tree| - 1];
    }

    /** A component that is no loop becomes a leaf. */
    method MakeBase(cur: nat, num: nat, heads: seq<nat>, parent: nat, depth: nat, ghost seg: seq<nat>,
                    ghost h: set<nat>)
      returns (b: Base)
      requires IsRpo(cfg) && |states| == |cfg.succs| && FlagsAre(states, Elems(seg), stack, h)
      requires NoDup(seg) && num == |seg| && num > 0 && seg[0] == cur && cur < |states|
      requires IsScc(cfg, Targets(h), Elems(seg)) && heads == Entries(cfg, seg, Elems(seg))
      modifies `index
      ensures Represents(cfg, Targets(h), b, Elems(seg), parent, depth)
      ensures b.Head? ==> b.children == []
    {
      var leaf := IsLeaf(cur, num, Elems(seg), h);
      NotTrivial(cfg, Targets(h), seg, Elems(seg));
      EntriesNoDup(cfg, seg, Elems(seg));
      if leaf {
        assert seg == [cur];
        LeafHeads(cfg, seg, Elems(seg), cur);
        b := Leaf(parent, depth, heads[0], index);
        index := index + 1;
      } else {
        b := Head(parent, depth, heads, []);
      }
    }

    /** The component of cur is recorded in the forest. */
    method Record(cur: nat, num: nat, heads: seq<nat>, parent: nat, depth: nat, ghost seg: seq<nat>, ghost h: set<nat>)
      requires Layout() && FlagsAre(states, Elems(seg), stack, h) && parent < |tree| && tree[parent].Head?
      requires NoDup(seg) && num == |seg| && num > 0 && seg[0] == cur && cur < |states|
      requires IsScc(cfg, Targets(h), Elems(seg)) && heads == Entries(cfg, seg, Elems(seg))
      requires forall n | n in leaves :: n !in seg
      modifies `tree, `leaves, `comps, `index
      ensures F().Valid() && Added(cfg, Targets(h), old(F()), F(), parent, depth)
      ensures Union(comps, old(|tree|), |tree|) == Elems(seg)
    {
      ghost var f := F();
      var base := MakeBase(cur, num, heads, parent, depth, seg, h);
      NewBase(parent, base, Elems(seg));
      AddedOne(cfg, Targets(h), f, F(), base, Elems(seg), parent, depth);
    }

    /** The whole component on top of the stack is recorded in the forest and popped. */
    method PopScc(cur: nat, parent: nat, depth: nat, ghost h: set<nat>, ghost b: nat)
      requires Layout() && FlagsAre(states, {}, stack, h) && parent < |tree| && tree[parent].Head?
      requires (forall v | v in stack :: v < |states|) && NoDup(stack) && b < |stack| && stack[b] == cur
      requires IsScc(cfg, Targets(h), Elems(stack[b..]))
      requires forall n | n in leaves :: n !in stack[b..]
      modifies `tree, `leaves, `comps, `index, `states, `stack
      ensures Layout() && Added(cfg, Targets(h), old(F()), F(), parent, depth)
      ensures Union(comps, old(|tree|), |tree|) == Elems(old(stack)[b..])
      ensures FlagsAre(states, {}, stack, h) && stack == old(stack)[..b]
    {
      var start, num := MarkScc(cur, b, h);
      ghost var seg := stack[b..];
      assert cur in stack && seg[0] == cur;
      var heads := CollectHeads(start, Elems(seg), h);
      Record(cur, num, heads, parent, depth, seg, h);
      ResetFlags(start, h);
      stack := stack[..start];
    }

    /** The fields agree with r, the run is in order, and it stays within region. */
    ghost predicate RunOk(r: Run, k: nat, h: set<nat>, region: set<nat>)
      reads this
    {
      && Layout() && Current(r.gray) == r && Inv(cfg, Targets(h), r, k)
      && FlagsAre(states, {}, stack, h)
      && r.visited <= region && Closed(cfg, Targets(h), region)
      && LeafFree(leaves, region, r)
    }

    static ghost predicate Below(r: Run) {
      forall v | v in r.stack :: v in r.visited
    }

    ghost predicate ParentOk(parent: nat)
      reads this
    {
      parent < |tree| && tree[parent].Head?
    }

    /** One call of the recursive search. */
    method WalkScc(cur: nat, parent: nat, depth: nat, counter: nat, ghost h: set<nat>, ghost region: set<nat>,
                   ghost r0: Run)
      returns (next: nat, ghost r: Run)
      requires RunOk(r0, counter, h, region) && ParentOk(parent)
      requires cur in region && cur < |cfg.succs| && cur !in visited
      requires forall z | z in r0.gray :: Via(cfg, Targets(h), z, cur)
      modifies this
      ensures RunOk(r, next, h, region) && ParentOk(parent) && next > counter
      ensures Walked(cfg, Targets(h), cur, counter, r0, r)
      ensures Progress(cfg, Targets(h), old(F()), F(), parent, depth, r0, r)
      decreases region - visited, 0
    {
      Push(cfg, Targets(h), r0, cur, counter);
      WalkStart(cfg, Targets(h), cur, counter, r0);
      next := Visit(cur, counter, h, r0.gray);
      next, r := WalkSuccs(cur, parent, depth, counter, h, region, r0);
      if numbers[cur].low == numbers[cur].dfs {
        ghost var f, r' := F(), r;
        r := EndRoot(cur, parent, depth, counter, next, h, region, r0, r);
        ProgressTrans(cfg, Targets(h), old(F()), f, F(), parent, depth, r0, r', r);
      } else {
        WalkEndStay(cfg, Targets(h), cur, counter, r0, r, next);
        r := r.(gray := r.gray - {cur});
      }
    }

    /** The loop over the successors of cur. */
    method WalkSuccs(cur: nat, parent: nat, depth: nat, counter: nat, ghost h: set<nat>, ghost region: set<nat>,
                     ghost r0: Run)
      returns (next: nat, ghost r: Run)
      requires cur < |cfg.succs| && |r0.num| == |cfg.succs| && Below(r0) && cur !in r0.visited
      requires RunOk(Pushed(r0, cur, counter), counter + 1, h, region) && ParentOk(parent)
      requires Walking(cfg, Targets(h), cur, counter, r0, Pushed(r0, cur, counter), 0)
      requires forall z | z in r0.gray :: Via(cfg, Targets(h), z, cur)
      modifies this
      ensures RunOk(r, next, h, region) && ParentOk(parent) && next > counter
      ensures Walking(cfg, Targets(h), cur, counter, r0, r, |cfg.succs[cur]|)
      ensures Progress(cfg, Targets(h), old(F()), F(), parent, depth, r0, r)
      decreases region - visited, 3
    {
      next, r := counter + 1, Pushed(r0, cur, counter);
      AddedNothing(cfg, Targets(h), F(), parent, depth);
      for j := 0 to |cfg.succs[cur]|
        invariant RunOk(r, next, h, region) && ParentOk(parent) && next > counter
        invariant Walking(cfg, Targets(h), cur, counter, r0, r, j)
        invariant Progress(cfg, Targets(h), old(F()), F(), parent, depth, r0, r)
      {
        ghost var f, r' := F(), r;
        next, r := WalkSucc(cur, j, parent, depth, counter, next, h, region, r0, r);
        ProgressTrans(cfg, Targets(h), old(F()), f, F(), parent, depth, r0, r', r);
      }
    }

    method WalkSucc(cur: nat, j: nat, parent: nat, depth: nat, ghost counter: nat, next0: nat, ghost h: set<nat>,
                    ghost region: set<nat>, ghost r0: Run, ghost r1: Run)
      returns (next: nat, ghost r: Run)
      requires cur < |cfg.succs| && j < |cfg.succs[cur]| && Below(r0) && cur !in r0.visited
      requires RunOk(r1, next0, h, region) && ParentOk(parent) && next0 > counter
      requires Walking(cfg, Targets(h), cur, counter, r0, r1, j)
      requires forall z | z in r0.gray :: Via(cfg, Targets(h), z, cur)
      modifies this
      ensures RunOk(r, next, h, region) && ParentOk(parent) && next >= next0
      ensures Walking(cfg, Targets(h), cur, counter, r0, r, j + 1)
      ensures Progress(cfg, Targets(h), old(F()), F(), parent, depth, r1, r)
      decreases region - visited, 2
    {
      var succ := cfg.succs[cur][j];
      assert cfg.Edge(cur, succ);
      if !states[succ].isHead && succ !in visited {
        next, r := WalkFresh(cur, j, succ, parent, depth, counter, next0, h, region, r0, r1);
      } else {
        next, r := next0, r1;
        AddedNothing(cfg, Targets(h), F(), parent, depth);
        if states[succ].isHead {
          // this is a backedge
          WalkSkip(cfg, Targets(h), cur, counter, r0, r, j);
        } else if states[succ].onStack {
          r := LowerOld(cur, succ, j, counter, next, h, region, r0, r);
        } else {
          WalkOld(cfg, Targets(h), cur, counter, r0, r, j, succ);
        }
      }
    }

    method WalkFresh(cur: nat, j: nat, succ: nat, parent: nat, depth: nat, ghost counter: nat, next0: nat,
                     ghost h: set<nat>, ghost region: set<nat>, ghost r0: Run, ghost r1: Run)
      returns (next: nat, ghost r: Run)
      requires cur < |cfg.succs| && j < |cfg.succs[cur]| && Below(r0) && cur !in r0.visited
      requires RunOk(r1, next0, h, region) && ParentOk(parent) && next0 > counter
      requires Walking(cfg, Targets(h), cur, counter, r0, r1, j)
      requires forall z | z in r0.gray :: Via(cfg, Targets(h), z, cur)
      requires succ == cfg.succs[cur][j] && succ !in visited && succ in Targets(h)
      modifies this
      ensures RunOk(r, next, h, region) && ParentOk(parent) && next >= next0
      ensures Walking(cfg, Targets(h), cur, counter, r0, r, j + 1)
      ensures Progress(cfg, Targets(h), old(F()), F(), parent, depth, r1, r)
      decreases region - visited, 1
    {
      assert cfg.Edge(cur, succ);
      GraysReachSucc(cfg, Targets(h), cur, succ, r0, r1);
      ghost var f0, s, r2 := F(), Targets(h), r1;
      next, r2 := WalkScc(succ, parent, depth, next0, h, region, r1);
      ghost var f := F();
      r := LowerNew(cur, succ, j, counter, next0, next, h, region, r0, r1, r2);
      assert F() == f;
      ProgressSame(cfg, s, f0, f, parent, depth, r1, r2, r);
    }

    /** lowlink(cur) = min(lowlink(cur), lowlink(succ)) */
    method LowerLink(cur: nat, succ: nat, ghost r: Run)
      requires Current(r.gray) == r && cur < |numbers| && succ < |numbers|
      modifies `numbers
      ensures Current(r.gray) == MinLow(r, cur, succ)
    {
      numbers := numbers[cur := numbers[cur].(low := Min(numbers[cur].low, numbers[succ].low))];
    }

    method LowerNew(cur: nat, succ: nat, ghost j: nat, ghost counter: nat, ghost k0: nat, ghost k: nat,
                    ghost h: set<nat>, ghost region: set<nat>, ghost r0: Run, ghost r1: Run, ghost r2: Run)
      returns (ghost r: Run)
      requires RunOk(r2, k, h, region) && Below(r0) && cur !in r0.visited && counter < k0
      requires cur < |cfg.succs| && Walking(cfg, Targets(h), cur, counter, r0, r1, j) && j < |cfg.succs[cur]|
      requires succ == cfg.succs[cur][j] && succ < |cfg.succs| && succ !in r1.visited && succ !in h
      requires Walked(cfg, Targets(h), succ, k0, r1, r2)
      modifies `numbers
      ensures r == MinLow(r2, cur, succ) && RunOk(r, k, h, region) && PoppedSet(r) == PoppedSet(r2)
      ensures Walking(cfg, Targets(h), cur, counter, r0, r, j + 1)
    {
      assert r2.stack[|r0.stack|] == cur && cur in r2.stack;
      assert |r2.stack| > |r1.stack| ==> succ in r2.stack;
      assert cfg.Edge(cur, succ);
      MinLowInv(cfg, Targets(h), r2, cur, succ, k);
      WalkNew(cfg, Targets(h), cur, counter, r0, r1, r2, j, succ, k0);
      r := MinLow(r2, cur, succ);
      LowerLink(cur, succ, r2);
    }

    method LowerOld(cur: nat, succ: nat, ghost j: nat, ghost counter: nat, ghost k: nat, ghost h: set<nat>,
                    ghost region: set<nat>, ghost r0: Run, ghost r1: Run)
      returns (ghost r: Run)
      requires RunOk(r1, k, h, region) && Below(r0) && cur !in r0.visited
      requires cur < |cfg.succs| && Walking(cfg, Targets(h), cur, counter, r0, r1, j) && j < |cfg.succs[cur]|
      requires succ == cfg.succs[cur][j] && succ < |cfg.succs| && succ in r1.stack && succ !in h
      modifies `numbers
      ensures r == MinLow(r1, cur, succ) && RunOk(r, k, h, region) && PoppedSet(r) == PoppedSet(r1)
      ensures Walking(cfg, Targets(h), cur, counter, r0, r, j + 1)
    {
      assert r1.stack[|r0.stack|] == cur && cur in r1.stack;
      assert cfg.Edge(cur, succ);
      MinLowInv(cfg, Targets(h), r1, cur, succ, k);
      WalkOld(cfg, Targets(h), cur, counter, r0, r1, j, succ);
      r := MinLow(r1, cur, succ);
      LowerLink(cur, succ, r1);
    }

    /** cur turned out to be the root of a component. */
    method EndRoot(cur: nat, parent: nat, depth: nat, ghost counter: nat, ghost k: nat, ghost h: set<nat>,
                   ghost region: set<nat>, ghost r0: Run, ghost r1: Run)
      returns (ghost r: Run)
      requires RunOk(r1, k, h, region) && ParentOk(parent) && Inv(cfg, Targets(h), r0, counter) && cur !in r0.visited
      requires cur < |cfg.succs| && Walking(cfg, Targets(h), cur, counter, r0, r1, |cfg.succs[cur]|)
      requires r1.Low(cur) == counter
      modifies this
      ensures RunOk(r, k, h, region) && ParentOk(parent)
      ensures Walked(cfg, Targets(h), cur, counter, r0, r)
      ensures Progress(cfg, Targets(h), old(F()), F(), parent, depth, r1, r)
    {
      ghost var b := |r0.stack|;
      WalkEndPop(cfg, Targets(h), cur, counter, r0, r1, k);
      StackNoDup(cfg, r1, k);
      assert forall n | n in leaves :: n !in stack[b..];
      PopScc(cur, parent, depth, h, b);
      r := Popped(r1, b);
      assert Current(r.gray) == r;
    }

    /** Reset InSCC and OnStack flags. */
    method ResetFlags(b: nat, ghost h: set<nat>)
      requires b <= |stack| && (forall v | v in stack :: v < |states|) && NoDup(stack)
      requires FlagsAre(states, Elems(stack[b..]), stack, h)
      modifies `states
      ensures |states| == old(|states|) && FlagsAre(states, {}, stack[..b], h)
    {
      for i := b to |stack|
        invariant |states| == old(|states|)
        invariant forall n | 0 <= n < |states| ::
            states[n] == Flags(n in stack[i..], n in stack[..b] || n in stack[i..], n in h)
      {
        assert stack[i] in stack;
        assert stack[i..] == [stack[i]] + stack[i + 1..];
        assert stack[i] !in stack[..b] && stack[i] !in stack[i + 1..];
        states := states[stack[i] := states[stack[i]].(inScc := false, onStack := false)];
      }
    }

    /** Marks the given nodes globally as heads. */
    method MarkNodes(q: seq<nat>, ghost h: set<nat>)
      requires stack == [] && FlagsAre(states, {}, [], h) && forall n | n in q :: n < |states|
      modifies `states
      ensures |states| == old(|states|) && FlagsAre(states, {}, [], h + Elems(q))
    {
      for i := 0 to |q|
        invariant |states| == old(|states|) && FlagsAre(states, {}, [], h + Elems(q[..i]))
      {
        assert q[i] in q;
        assert q[..i + 1] == q[..i] + [q[i]];
        states := states[q[i] := states[q[i]].(isHead := true)];
      }
      assert q[..|q|] == q;
    }

    /** Now mark all newly found heads globally as head. */
    method MarkNew(parent: nat, first: nat, ghost lo: nat, ghost s: set<nat>, depth: nat, ghost h: set<nat>)
      returns (ghost h': set<nat>)
      requires Layout() && stack == [] && FlagsAre(states, {}, [], h) && ParentOk(parent)
      requires first <= |tree[parent].children| && lo <= |tree|
      requires tree[parent].children[first..] == Ids(lo, |tree|)
      requires forall c {:trigger NewNode(cfg, s, F(), c, parent, depth)} | lo <= c < |tree| ::
                 NewNode(cfg, s, F(), c, parent, depth) && comps[c] <= Range(|cfg.succs|)
      modifies `states
      ensures Layout() && FlagsAre(states, {}, [], h')
      ensures MarksAre(cfg, F(), lo, |tree|, h, h')
    {
      h' := h;
      for i := first to |tree[parent].children|
        invariant |states| == old(|states|) && FlagsAre(states, {}, [], h')
        invariant MarksAre(cfg, F(), lo, lo + (i - first), h, h')
      {
        var child := tree[parent].children[i];
        assert child == tree[parent].children[first..][i - first] == lo + (i - first);
        assert NewNode(cfg, s, F(), child, parent, depth);
        assert forall n | n in tree[child].CfNodes() :: n in comps[child];
        MarksStep(cfg, F(), lo, child, h, h', s, parent, depth);
        MarkNodes(tree[child].CfNodes(), h');
        h' := h' + Elems(tree[child].CfNodes());
      }
    }

    /** set_.clear() and a search from cur through rest. */
    method SearchFrom(cur: nat, parent: nat, depth: nat, ghost h: set<nat>, ghost rest: set<nat>)
      returns (ghost v: set<nat>)
      requires Layout() && stack == [] && FlagsAre(states, {}, [], h) && ParentOk(parent)
      requires Closed(cfg, Targets(h), rest) && cur in rest && cur < |cfg.succs|
      requires forall n | n in leaves :: n !in rest
      modifies this
      ensures Layout() && stack == [] && FlagsAre(states, {}, [], h) && ParentOk(parent)
      ensures Added(cfg, Targets(h), old(F()), F(), parent, depth)
      ensures v == Union(comps, old(|tree|), |tree|) && v <= rest && cur in v && Closed(cfg, Targets(h), v)
      ensures forall x | x in v && x != cur :: x in Targets(h)
    {
      ghost var f := F();
      visited := {};
      ghost var num := numbers;
      ghost var r;
      var next;
      next, r := WalkScc(cur, parent, depth, 0, h, rest, Fresh(num));
      SearchResult(cfg, Targets(h), f, F(), parent, depth, cur, r, num, next);
      v := visited;
    }

    /** One round of the loop over the heads of a level. */
    method SearchHead(k: nat, heads: seq<nat>, parent: nat, depth: nat, ghost f0: Forest, ghost h0: set<nat>,
                      ghost h: set<nat>, ghost region: set<nat>)
      returns (ghost h': set<nat>)
      requires Layout() && stack == [] && FlagsAre(states, {}, [], h)
      requires FindInv(cfg, f0, F(), parent, depth, region, heads, h0, h, k) && k < |heads|
               && LevelPre(cfg, region, heads, h0)
      requires forall n | n in f0.leaves :: n !in region
      modifies this
      ensures Layout() && stack == [] && FlagsAre(states, {}, [], h')
      ensures FindInv(cfg, f0, F(), parent, depth, region, heads, h0, h', k + 1)
    {
      ghost var f, rest := F(), region - Union(comps, |f0.tree|, |tree|);
      var first := |tree[parent].children|;
      HeadIsNew(cfg, f0, f, parent, depth, region, heads, h0, h, k);
      RestClosed(cfg, f, |f0.tree|, |tree|, region, h0, h);
      ghost var v := SearchFrom(heads[k], parent, depth, h, rest);
      ghost var f' := F();
      NewInRange(cfg, Targets(h), f, f', parent, depth, region);
      h' := MarkNew(parent, first, |f.tree|, Targets(h), depth, h);
      assert F() == f';
      FindNext(cfg, f0, f, f', parent, depth, region, heads, h0, h, h', k, v);
    }

    /** The loop over the heads of a level. */
    method FindLevel(parent: nat, heads: seq<nat>, depth: nat, ghost h0: set<nat>, ghost region: set<nat>)
      returns (ghost h1: set<nat>)
      requires Layout() && stack == [] && FlagsAre(states, {}, [], h0) && ParentOk(parent)
      requires LevelPre(cfg, region, heads, h0) && comps[parent] == region
      requires tree[parent].children == [] && depth == tree[parent].depth + 1
      requires forall x | x in region :: x in tree[parent].cfNodes <==> x in h0
      requires forall n | n in leaves :: n !in region
      modifies this
      ensures Layout() && stack == [] && FlagsAre(states, {}, [], h1)
      ensures Added(cfg, Targets(h0), old(F()), F(), parent, depth)
      ensures Found(cfg, F(), old(|tree|), |tree|, parent, depth, region, h0, h1)
      ensures LevelOk(cfg, F(), parent)
    {
      ghost var f0 := F();
      h1 := h0;
      FindStart(cfg, f0, parent, depth, region, heads, h0);
      for k := 0 to |heads|
        invariant Layout() && stack == [] && FlagsAre(states, {}, [], h1)
        invariant FindInv(cfg, f0, F(), parent, depth, region, heads, h0, h1, k)
      {
        h1 := SearchHead(k, heads, parent, depth, f0, h0, h1, region);
      }
      FoundAll(cfg, f0, F(), parent, depth, region, heads, h0, h1);
      assert Targets(h0) * region == region - Elems(f0.tree[parent].cfNodes);
      LevelDone(cfg, Targets(h0), f0, F(), parent, depth, region);
    }

    /** One level and everything below. */
    method Recurse(parent: nat, heads: seq<nat>, depth: nat, ghost h0: set<nat>, ghost region: set<nat>)
      returns (ghost h: set<nat>)
      requires Layout() && stack == [] && FlagsAre(states, {}, [], h0) && ParentOk(parent)
      requires LevelPre(cfg, region, heads, h0) && comps[parent] == region
      requires tree[parent].children == [] && depth == tree[parent].depth + 1
      requires forall x | x in region :: x in tree[parent].cfNodes <==> x in h0
      requires forall n | n in leaves :: n !in region
      modifies this
      ensures Layout() && stack == [] && FlagsAre(states, {}, [], h)
      ensures GrowsAt(old(F()), F(), parent) && SubtreeOk(cfg, F(), parent, old(|tree|))
      ensures forall n | n in region :: n in leaves
      ensures h0 <= h && forall x | x in h && x !in h0 :: x in region
      decreases Range(|cfg.succs|) - h0, 2
    {
      ghost var f0 := F();
      ghost var h1 := FindLevel(parent, heads, depth, h0, region);
      ghost var f1 := F();
      h := RecurseKids(parent, depth, f0, f1, h0, h1, region);
      RecurseDone(cfg, f0, f1, F(), parent, depth, region, h0, h1, h);
    }

    /** The loop over the children that calls recurse for the heads among them. */
    method RecurseKids(parent: nat, depth: nat, ghost f0: Forest, ghost f1: Forest, ghost h0: set<nat>,
                       ghost h1: set<nat>, ghost region: set<nat>)
      returns (ghost h: set<nat>)
      requires Layout() && stack == [] && FlagsAre(states, {}, [], h1)
      requires F() == f1 && Added(cfg, Targets(h0), f0, f1, parent, depth) && f0.tree[parent].children == []
      requires Found(cfg, f1, |f0.tree|, |f1.tree|, parent, depth, region, h0, h1) && LevelOk(cfg, f1, parent)
      requires forall n | n in f0.leaves :: n !in region
      modifies this
      ensures Layout() && stack == [] && FlagsAre(states, {}, [], h)
      ensures KidsInv(cfg, f1, F(), parent, |f0.tree|, |f1.tree|, |f1.tree|, h1, h)
      decreases Range(|cfg.succs|) - h0, 1
    {
      h := h1;
      KidsStart(cfg, f1, parent, |f0.tree|, h1);
      var kids := tree[parent].children;
      assert kids == Ids(|f0.tree|, |f1.tree|);
      ghost var k := |f0.tree|;
      for i := 0 to |kids|
        invariant Layout() && stack == [] && FlagsAre(states, {}, [], h)
        invariant k == |f0.tree| + i && KidsInv(cfg, f1, F(), parent, |f0.tree|, |f1.tree|, k, h1, h)
      {
        assert kids[i] == k < |f1.tree|;
        k := k + 1;
        h := RecurseKid(kids[i], depth, parent, f0, f1, h0, h1, h, region);
      }
      assert k == |f1.tree|;
    }

    method RecurseKid(kid: nat, depth: nat, ghost parent: nat, ghost f0: Forest, ghost f1: Forest, ghost h0: set<nat>,
                      ghost h1: set<nat>, ghost h: set<nat>, ghost region: set<nat>)
      returns (ghost h': set<nat>)
      requires Layout() && stack == [] && FlagsAre(states, {}, [], h)
      requires Added(cfg, Targets(h0), f0, f1, parent, depth)
      requires Found(cfg, f1, |f0.tree|, |f1.tree|, parent, depth, region, h0, h1)
      requires KidsInv(cfg, f1, F(), parent, |f0.tree|, |f1.tree|, kid, h1, h) && kid < |f1.tree|
      requires forall n | n in f0.leaves :: n !in region
      modifies this
      ensures Layout() && stack == [] && FlagsAre(states, {}, [], h')
      ensures KidsInv(cfg, f1, F(), parent, |f0.tree|, |f1.tree|, kid + 1, h1, h')
      decreases Range(|cfg.succs|) - h0, 0
    {
      ghost var lo, hi := |f0.tree|, |f1.tree|;
      ghost var f := F();
      assert NewNode(cfg, Targets(h0), f1, kid, parent, depth);
      if tree[kid].Head? {
        KidsMarks(cfg, f1, f, parent, lo, hi, kid, h1, h);
        KidReady(cfg, f1, lo, hi, parent, depth, region, h0, h1, kid, h);
        assert f1.comps[kid] <= region;
        forall n | n in leaves
          ensures n !in f1.comps[kid]
        {
          if n in f1.comps[kid] { NoLeafInLoop(cfg, Targets(h0), f0, f1, parent, depth, kid, n); }
        }
        h' := Recurse(kid, tree[kid].cfNodes, depth + 1, h, f1.comps[kid]);
        KidsHead(cfg, f1, f, F(), parent, lo, hi, kid, h1, h, h');
      } else {
        h' := h;
        KidsLeaf(cfg, f1, f, parent, lo, hi, kid, h1, h);
      }
    }

    /** The forest of the whole graph. */
    constructor (g: Graph)
      requires IsRpo(g)
      ensures cfg == g && Layout()
      ensures |tree| > 0 && tree[0].Head? && tree[0].parent == NO_PARENT && tree[0].depth == 0 && tree[0].cfNodes == []
      ensures comps[0] == Range(|g.succs|)
      ensures SubtreeOk(g, F(), 0, 0)
      ensures forall n: nat :: n in leaves <==> n < |g.succs|
    {
      cfg := g;
      numbers := seq(|g.succs|, _ => Number(0, 0));
      states := seq(|g.succs|, _ => Flags(false, false, false));
      visited, index, stack := {}, 0, [];
      tree := [Head(NO_PARENT, 0, [], [])];
      leaves := map[];
      comps := [Range(|g.succs|)];
      new;
      RootReady(g);
      ghost var h := Recurse(0, [0], 1, {}, comps[0]);
    }
  }
}
