/** Strongly connected components of a graph in which only edges into a given set of nodes count. */
module Components {
  import opened Graphs

  /** An edge whose target is allowed. */
  ghost predicate Step(g: Graph, s: set<nat>, u: nat, v: nat) {
    g.Edge(u, v) && v in s
  }

  /** A walk from u to v all of whose steps are allowed. */
  ghost predicate Walk(g: Graph, s: set<nat>, p: seq<nat>, u: nat, v: nat) {
    && |p| > 0 && p[0] == u && p[|p| - 1] == v
    && forall i | 0 <= i < |p| - 1 :: StepAt(g, s, p, i)
  }

  ghost predicate StepAt(g: Graph, s: set<nat>, p: seq<nat>, i: int)
    requires 0 <= i < |p| - 1
  {
    Step(g, s, p[i], p[i + 1])
  }

  ghost predicate Via(g: Graph, s: set<nat>, u: nat, v: nat) {
    exists p :: Walk(g, s, p, u, v)
  }

  lemma ViaSelf(g: Graph, s: set<nat>, u: nat)
    ensures Via(g, s, u, u)
  {
    assert Walk(g, s, [u], u, u);
  }

  lemma ViaStep(g: Graph, s: set<nat>, u: nat, v: nat)
    requires Step(g, s, u, v)
    ensures Via(g, s, u, v)
  {
    assert Walk(g, s, [u, v], u, v);
  }

  lemma ViaTrans(g: Graph, s: set<nat>, u: nat, v: nat, w: nat)
    requires Via(g, s, u, v) && Via(g, s, v, w)
    ensures Via(g, s, u, w)
  {
    var p :| Walk(g, s, p, u, v);
    var q :| Walk(g, s, q, v, w);
    var r := p + q[1..];
    forall i | 0 <= i < |r| - 1
      ensures StepAt(g, s, r, i)
    {
      if i < |p| - 1 {
        assert StepAt(g, s, p, i);
      } else {
        assert StepAt(g, s, q, i - (|p| - 1));
      }
    }
    assert Walk(g, s, r, u, w);
  }

  lemma ViaMono(g: Graph, s: set<nat>, t: set<nat>, u: nat, v: nat)
    requires Via(g, s, u, v) && s <= t
    ensures Via(g, t, u, v)
  {
    var p :| Walk(g, s, p, u, v);
    forall i | 0 <= i < |p| - 1
      ensures StepAt(g, t, p, i)
    {
      assert StepAt(g, s, p, i);
    }
    assert Walk(g, t, p, u, v);
  }

  ghost predicate Closed(g: Graph, s: set<nat>, c: set<nat>) {
    forall x: nat, y: nat | x in c && Step(g, s, x, y) :: y in c
  }

  lemma {:induction false} ClosedAlong(g: Graph, s: set<nat>, c: set<nat>, p: seq<nat>, u: nat, v: nat, i: nat)
    requires Closed(g, s, c) && u in c && Walk(g, s, p, u, v) && i < |p|
    ensures p[i] in c
  {
    if i > 0 {
      ClosedAlong(g, s, c, p, u, v, i - 1);
      assert StepAt(g, s, p, i - 1);
    }
  }

  lemma ClosedVia(g: Graph, s: set<nat>, c: set<nat>, u: nat, v: nat)
    requires Closed(g, s, c) && u in c && Via(g, s, u, v)
    ensures v in c
  {
    var p :| Walk(g, s, p, u, v);
    ClosedAlong(g, s, c, p, u, v, |p| - 1);
  }

  /** What reaches a node outside a closed set is outside, too. */
  lemma OutsideClosed(g: Graph, s: set<nat>, c: set<nat>, u: nat, v: nat)
    requires Closed(g, s, c) && u !in c && Via(g, s, v, u)
    ensures v !in c
  {
    var p :| Walk(g, s, p, v, u);
    if v in c { ClosedAlong(g, s, c, p, v, u, |p| - 1); }
  }

  /** A walk that stays inside c can do with the allowed targets that lie in c. */
  lemma ViaInside(g: Graph, s: set<nat>, c: set<nat>, u: nat, v: nat)
    requires Closed(g, s, c) && u in c && Via(g, s, u, v)
    ensures Via(g, s * c, u, v)
  {
    var p :| Walk(g, s, p, u, v);
    forall i | 0 <= i < |p| - 1
      ensures StepAt(g, s * c, p, i)
    {
      assert StepAt(g, s, p, i);
      ClosedAlong(g, s, c, p, u, v, i + 1);
    }
    assert Walk(g, s * c, p, u, v);
  }

  /** The last step of a walk between different nodes is allowed. */
  lemma ViaEndsAllowed(g: Graph, s: set<nat>, u: nat, v: nat)
    requires Via(g, s, u, v) && u != v
    ensures v in s
  {
    var p :| Walk(g, s, p, u, v);
    assert StepAt(g, s, p, |p| - 2);
  }

  ghost predicate Mutual(g: Graph, s: set<nat>, u: nat, v: nat) {
    Via(g, s, u, v) && Via(g, s, v, u)
  }

  /** A maximal set of mutually reachable nodes. */
  ghost predicate IsScc(g: Graph, s: set<nat>, c: set<nat>) {
    && c != {}
    && forall u: nat, v: nat | u in c :: v in c <==> Mutual(g, s, u, v)
  }
}

/** The invariant of Tarjan's algorithm as it is run by LoopTreeBuilder::walk_scc, on plain values. */
module Tarjan {
  import opened Graphs
  import opened Components

  datatype Number = Number(dfs: nat, low: nat)

  /** What one run works on; gray nodes are those whose call of walk_scc is still active. */
  datatype Run = Run(visited: set<nat>, stack: seq<nat>, num: seq<Number>, ghost gray: set<nat>) {
    ghost function Dfs(v: nat): nat {
      if v < |num| then num[v].dfs else 0
    }

    ghost function Low(v: nat): nat {
      if v < |num| then num[v].low else 0
    }
  }

  /** What is pushed later carries a larger number. */
  ghost predicate Ascending(r: Run) {
    forall i, j {:trigger Above(r, i, j)} | 0 <= i < j < |r.stack| :: Above(r, i, j)
  }

  ghost predicate Above(r: Run, i: nat, j: nat)
    requires i < |r.stack| && j < |r.stack|
  {
    r.Dfs(r.stack[i]) < r.Dfs(r.stack[j])
  }

  /** A stack that shares its beginning and its numbers with an ascending one, and a new top. */
  lemma StillAscending(r: Run, r': Run, c: nat)
    requires Ascending(r) && c <= |r.stack| && c <= |r'.stack| <= c + 1 && r'.stack[..c] == r.stack[..c]
    requires forall v | v in r.stack :: r'.Dfs(v) == r.Dfs(v)
    requires |r'.stack| == c + 1 ==> forall v | v in r.stack[..c] :: r.Dfs(v) < r'.Dfs(r'.stack[c])
    ensures Ascending(r')
  {
    forall i: nat, j: nat {:trigger Above(r', i, j)} | i < j < |r'.stack|
      ensures Above(r', i, j)
    {
      assert r'.stack[i] == r'.stack[..c][i] == r.stack[..c][i] == r.stack[i];
      if j < c {
        assert r'.stack[j] == r'.stack[..c][j] == r.stack[..c][j];
        assert Above(r, i, j);
      } else {
        assert r.stack[i] in r.stack[..c];
      }
    }
  }

  ghost predicate Layout(g: Graph, r: Run, k: nat) {
    && g.Valid() && |r.num| == |g.succs|
    && (forall v | v in r.visited :: v < |r.num|)
    && (forall v | v in r.stack :: v in r.visited)
    && (forall v | v in r.gray :: v in r.stack)
    && Ascending(r)
    && (forall v | v in r.stack :: r.Low(v) <= r.Dfs(v) < k)
  }

  /** Only active nodes can have steps to unvisited nodes. */
  ghost predicate BlackClosed(g: Graph, s: set<nat>, r: Run) {
    forall u: nat, v: nat | u in r.visited && u !in r.gray && Step(g, s, u, v) :: v in r.visited
  }

  /** What was popped has no steps back to the stack. */
  ghost predicate PoppedClosed(g: Graph, s: set<nat>, r: Run) {
    forall u: nat, v: nat | u in r.visited && u !in r.stack && Step(g, s, u, v) :: v in r.visited && v !in r.stack
  }

  /** Nodes on the stack reach everything above. */
  ghost predicate UpReach(g: Graph, s: set<nat>, r: Run) {
    forall i, j {:trigger Via(g, s, r.stack[i], r.stack[j])} | 0 <= i <= j < |r.stack| ::
      Via(g, s, r.stack[i], r.stack[j])
  }

  ghost predicate ReachesGray(g: Graph, s: set<nat>, r: Run, y: nat)
  {
    exists z :: z in r.gray && r.Dfs(z) <= r.Dfs(y) && Via(g, s, y, z)
  }

  ghost predicate ReachesLow(g: Graph, s: set<nat>, r: Run, y: nat)
  {
    exists z :: z in r.stack && r.Dfs(z) == r.Low(y) && Via(g, s, y, z)
  }

  /** Nodes on the stack reach an active node that is not above them. */
  ghost predicate GrayBelow(g: Graph, s: set<nat>, r: Run) {
    forall y {:trigger ReachesGray(g, s, r, y)} | y in r.stack :: ReachesGray(g, s, r, y)
  }

  /** Low links are numbers of nodes on the stack that can be reached. */
  ghost predicate LowHolds(g: Graph, s: set<nat>, r: Run) {
    forall y {:trigger ReachesLow(g, s, r, y)} | y in r.stack :: ReachesLow(g, s, r, y)
  }

  ghost predicate Inv(g: Graph, s: set<nat>, r: Run, k: nat) {
    && Layout(g, r, k)
    && BlackClosed(g, s, r) && PoppedClosed(g, s, r) && UpReach(g, s, r)
    && GrayBelow(g, s, r) && LowHolds(g, s, r)
  }

  function Pushed(r: Run, n: nat, k: nat): Run
    requires n < |r.num|
  {
    Run(r.visited + {n}, r.stack + [n], r.num[n := Number(k, k)], r.gray + {n})
  }

  lemma PushUp(g: Graph, s: set<nat>, r: Run, n: nat, k: nat)
    requires Inv(g, s, r, k) && n < |r.num| && n !in r.visited
    requires forall z | z in r.gray :: Via(g, s, z, n)
    ensures UpReach(g, s, Pushed(r, n, k))
  {
    var r' := Pushed(r, n, k);
    ViaSelf(g, s, n);
    forall i, j {:trigger Via(g, s, r'.stack[i], r'.stack[j])} | 0 <= i <= j < |r'.stack|
      ensures Via(g, s, r'.stack[i], r'.stack[j])
    {
      if j < |r.stack| {
        assert Via(g, s, r.stack[i], r.stack[j]);
      } else if i < j {
        var y := r.stack[i];
        assert ReachesGray(g, s, r, y);
        var z :| z in r.gray && r.Dfs(z) <= r.Dfs(y) && Via(g, s, y, z);
        ViaTrans(g, s, y, z, n);
      }
    }
  }

  lemma PushReaches(g: Graph, s: set<nat>, r: Run, n: nat, k: nat, y: nat)
    requires Inv(g, s, r, k) && n < |r.num| && n !in r.visited && y in Pushed(r, n, k).stack
    ensures ReachesGray(g, s, Pushed(r, n, k), y) && ReachesLow(g, s, Pushed(r, n, k), y)
  {
    var r' := Pushed(r, n, k);
    if y == n {
      ViaSelf(g, s, n);
      assert n in r'.gray && n in r'.stack;
    } else {
      assert ReachesGray(g, s, r, y) && ReachesLow(g, s, r, y);
      var z :| z in r.gray && r.Dfs(z) <= r.Dfs(y) && Via(g, s, y, z);
      assert z in r'.gray;
      var x :| x in r.stack && r.Dfs(x) == r.Low(y) && Via(g, s, y, x);
      assert x in r'.stack;
    }
  }

  lemma Push(g: Graph, s: set<nat>, r: Run, n: nat, k: nat)
    requires Inv(g, s, r, k) && n < |r.num| && n !in r.visited
    requires forall z | z in r.gray :: Via(g, s, z, n)
    ensures Inv(g, s, Pushed(r, n, k), k + 1)
  {
    var r' := Pushed(r, n, k);
    PushUp(g, s, r, n, k);
    assert r.stack[..|r.stack|] == r.stack;
    StillAscending(r, r', |r.stack|);
    forall y {:trigger ReachesGray(g, s, r', y)} {:trigger ReachesLow(g, s, r', y)} | y in r'.stack
      ensures ReachesGray(g, s, r', y) && ReachesLow(g, s, r', y)
    {
      PushReaches(g, s, r, n, k, y);
    }
  }

  function Lowered(r: Run, n: nat, low: nat): Run
    requires n < |r.num|
  {
    r.(num := r.num[n := r.num[n].(low := low)])
  }

  lemma LowerReaches(g: Graph, s: set<nat>, r: Run, n: nat, w: nat, k: nat, y: nat)
    requires Inv(g, s, r, k) && n in r.stack && w in r.stack && Step(g, s, n, w) && y in r.stack
    requires r.Low(w) <= r.Low(n)
    ensures ReachesGray(g, s, Lowered(r, n, r.Low(w)), y) && ReachesLow(g, s, Lowered(r, n, r.Low(w)), y)
  {
    var r' := Lowered(r, n, r.Low(w));
    assert ReachesGray(g, s, r, y);
    var z :| z in r.gray && r.Dfs(z) <= r.Dfs(y) && Via(g, s, y, z);
    assert z in r'.gray && r'.Dfs(z) <= r'.Dfs(y);
    var v := if y == n then w else y;
    assert ReachesLow(g, s, r, v);
    var x :| x in r.stack && r.Dfs(x) == r.Low(v) && Via(g, s, v, x);
    if y == n {
      ViaStep(g, s, n, w);
      ViaTrans(g, s, n, w, x);
    }
    assert x in r'.stack && r'.Dfs(x) == r'.Low(y);
  }

  lemma Lower(g: Graph, s: set<nat>, r: Run, n: nat, w: nat, k: nat)
    requires Inv(g, s, r, k) && n in r.stack && w in r.stack && Step(g, s, n, w)
    requires r.Low(w) <= r.Low(n)
    ensures Inv(g, s, Lowered(r, n, r.Low(w)), k)
  {
    var r' := Lowered(r, n, r.Low(w));
    StillAscending(r, r', |r.stack|);
    forall y {:trigger ReachesGray(g, s, r', y)} {:trigger ReachesLow(g, s, r', y)} | y in r'.stack
      ensures ReachesGray(g, s, r', y) && ReachesLow(g, s, r', y)
    {
      LowerReaches(g, s, r, n, w, k, y);
    }
  }

  /** n is the innermost active node and all its allowed successors are visited. */
  ghost predicate Done(g: Graph, s: set<nat>, r: Run, n: nat)
  {
    && n in r.gray
    && (forall z | z in r.gray :: r.Dfs(z) <= r.Dfs(n))
    && (forall v: nat | Step(g, s, n, v) :: v in r.visited)
  }

  lemma RetireReaches(g: Graph, s: set<nat>, r: Run, n: nat, k: nat, y: nat)
    requires Inv(g, s, r, k) && n in r.stack && Done(g, s, r, n) && r.Low(n) < r.Dfs(n) && y in r.stack
    ensures ReachesGray(g, s, r.(gray := r.gray - {n}), y)
  {
    var r' := r.(gray := r.gray - {n});
    assert ReachesGray(g, s, r, y);
    var z :| z in r.gray && r.Dfs(z) <= r.Dfs(y) && Via(g, s, y, z);
    if z == n {
      assert ReachesLow(g, s, r, n);
      var y' :| y' in r.stack && r.Dfs(y') == r.Low(n) && Via(g, s, n, y');
      assert ReachesGray(g, s, r, y');
      var z' :| z' in r.gray && r.Dfs(z') <= r.Dfs(y') && Via(g, s, y', z');
      ViaTrans(g, s, n, y', z');
      ViaTrans(g, s, y, n, z');
      assert z' in r'.gray && r'.Dfs(z') <= r'.Dfs(y);
    } else {
      assert z in r'.gray && r'.Dfs(z) <= r'.Dfs(y);
    }
  }

  /** The call for n returns and n stays on the stack. */
  lemma Retire(g: Graph, s: set<nat>, r: Run, n: nat, k: nat)
    requires Inv(g, s, r, k) && n in r.stack && Done(g, s, r, n) && r.Low(n) < r.Dfs(n)
    ensures Inv(g, s, r.(gray := r.gray - {n}), k)
  {
    var r' := r.(gray := r.gray - {n});
    StillAscending(r, r', |r.stack|);
    forall y {:trigger ReachesGray(g, s, r', y)} | y in r'.stack
      ensures ReachesGray(g, s, r', y)
    {
      RetireReaches(g, s, r, n, k, y);
    }
    forall y {:trigger ReachesLow(g, s, r', y)} | y in r'.stack
      ensures ReachesLow(g, s, r', y)
    {
      assert ReachesLow(g, s, r, y);
    }
  }

  function Popped(r: Run, b: nat): Run
    requires b < |r.stack|
  {
    r.(stack := r.stack[..b], gray := r.gray - {r.stack[b]})
  }

  /** No step leads from stack[b..] to stack[..b]. */
  ghost predicate NoWayDown(g: Graph, s: set<nat>, r: Run, b: nat)
    requires b <= |r.stack|
  {
    forall u, y | u in r.stack[b..] && y in r.stack[..b] :: !Step(g, s, u, y)
  }

  ghost function Elems(q: seq<nat>): (r: set<nat>)
    ensures forall x :: x in r <==> x in q
  {
    set x | x in q
  }

  /** Where y sits shows in its number. */
  lemma StackSplit(g: Graph, r: Run, b: nat, k: nat, y: nat)
    requires Layout(g, r, k) && b < |r.stack| && y in r.stack
    ensures y in r.stack[..b] <==> r.Dfs(y) < r.Dfs(r.stack[b])
    ensures y in r.stack[b..] <==> y !in r.stack[..b]
    ensures r.Dfs(y) == r.Dfs(r.stack[b]) ==> y == r.stack[b]
  {
    var i: nat :| i < |r.stack| && r.stack[i] == y;
    if i < b {
      assert r.stack[..b][i] == y;
      assert Above(r, i, b);
    } else {
      assert r.stack[b..][i - b] == y;
      assert b < i ==> Above(r, b, i);
    }
    if y in r.stack[..b] {
      var j: nat :| j < b && r.stack[..b][j] == y;
      assert Above(r, j, b);
    }
    if y in r.stack[b..] {
      var j: nat :| j < |r.stack| - b && r.stack[b..][j] == y;
      assert r.stack[b + j] == y;
      assert j > 0 ==> Above(r, b, b + j);
    }
  }

  lemma PopClosed(g: Graph, s: set<nat>, r: Run, b: nat, k: nat)
    requires Inv(g, s, r, k) && b < |r.stack| && Done(g, s, r, r.stack[b]) && NoWayDown(g, s, r, b)
    ensures Layout(g, Popped(r, b), k) && PoppedClosed(g, s, Popped(r, b))
  {
    var n, r' := r.stack[b], Popped(r, b);
    StillAscending(r, r', b);
    forall u: nat, v: nat | u in r'.visited && u !in r'.stack && Step(g, s, u, v)
      ensures v in r'.visited && v !in r'.stack
    {
      if u in r.stack {
        StackSplit(g, r, b, k, u);
        assert v in r.visited;
      }
    }
    forall z | z in r'.gray
      ensures z in r'.stack
    {
      StackSplit(g, r, b, k, z);
    }
  }

  lemma PopReaches(g: Graph, s: set<nat>, r: Run, b: nat, k: nat, y: nat)
    requires Inv(g, s, r, k) && b < |r.stack| && y in r.stack[..b]
    ensures ReachesGray(g, s, Popped(r, b), y) && ReachesLow(g, s, Popped(r, b), y)
  {
    var r' := Popped(r, b);
    StackSplit(g, r, b, k, y);
    assert ReachesGray(g, s, r, y) && ReachesLow(g, s, r, y);
    var z :| z in r.gray && r.Dfs(z) <= r.Dfs(y) && Via(g, s, y, z);
    assert z in r'.gray && r'.Dfs(z) <= r'.Dfs(y);
    var x :| x in r.stack && r.Dfs(x) == r.Low(y) && Via(g, s, y, x);
    StackSplit(g, r, b, k, x);
    assert x in r'.stack && r'.Dfs(x) == r'.Low(y);
  }

  /** The call for a root returns: everything from the root on is popped. */
  lemma Pop(g: Graph, s: set<nat>, r: Run, b: nat, k: nat)
    requires Inv(g, s, r, k) && b < |r.stack| && Done(g, s, r, r.stack[b]) && NoWayDown(g, s, r, b)
    ensures Inv(g, s, Popped(r, b), k)
  {
    var r' := Popped(r, b);
    PopClosed(g, s, r, b, k);
    forall y {:trigger ReachesGray(g, s, r', y)} {:trigger ReachesLow(g, s, r', y)} | y in r'.stack
      ensures ReachesGray(g, s, r', y) && ReachesLow(g, s, r', y)
    {
      PopReaches(g, s, r, b, k, y);
    }
  }

  /** ... and it is a strongly connected component. */
  lemma PopIsScc(g: Graph, s: set<nat>, r: Run, b: nat, k: nat)
    requires Inv(g, s, r, k) && b < |r.stack| && Done(g, s, r, r.stack[b]) && NoWayDown(g, s, r, b)
    ensures IsScc(g, s, Elems(r.stack[b..]))
  {
    var n, c := r.stack[b], Elems(r.stack[b..]);
    forall y | y in r.stack
      ensures y in r.stack[..b] || y in r.stack[b..]
      ensures y in r.stack[..b] ==> y !in r.stack[b..]
      ensures y in r.stack[b..] && y in r.gray ==> y == n
    {
      StackSplit(g, r, b, k, y);
    }
    assert n == r.stack[b..][0];
    forall y | y in c
      ensures Mutual(g, s, n, y)
    {
      MutualWithRoot(g, s, r, b, y, k);
    }
    var below := r.visited - Elems(r.stack[..b]);
    var popped := r.visited - Elems(r.stack);
    assert Closed(g, s, below);
    assert Closed(g, s, popped);
    forall u: nat, v: nat | u in c
      ensures v in c <==> Mutual(g, s, u, v)
    {
      if v in c {
        ViaTrans(g, s, u, n, v);
        ViaTrans(g, s, v, n, u);
      }
      if Mutual(g, s, u, v) {
        ClosedVia(g, s, below, u, v);
        OutsideClosed(g, s, popped, u, v);
      }
    }
  }

  /** What has no larger number stands no higher on the stack. */
  lemma NotAbove(r: Run, i: nat, b: nat)
    requires Ascending(r) && i < |r.stack| && b < |r.stack| && r.Dfs(r.stack[i]) <= r.Dfs(r.stack[b])
    ensures i <= b
  {
    if b < i { AscendsAt(r, b, i); }
  }

  lemma AscendsAt(r: Run, i: nat, j: nat)
    requires Ascending(r) && i < j < |r.stack|
    ensures r.Dfs(r.stack[i]) < r.Dfs(r.stack[j])
  {
    assert Above(r, i, j);
  }

  lemma MutualWithRoot(g: Graph, s: set<nat>, r: Run, b: nat, y: nat, k: nat)
    requires Inv(g, s, r, k) && b < |r.stack| && Done(g, s, r, r.stack[b]) && y in r.stack[b..]
    ensures Mutual(g, s, r.stack[b], y)
  {
    var n := r.stack[b];
    var j :| 0 <= j < |r.stack| - b && r.stack[b..][j] == y;
    assert r.stack[b + j] == y;
    assert ReachesGray(g, s, r, y);
    var z :| z in r.gray && r.Dfs(z) <= r.Dfs(y) && Via(g, s, y, z);
    var i :| 0 <= i < |r.stack| && r.stack[i] == z;
    NotAbove(r, i, b);
    assert Via(g, s, r.stack[i], r.stack[b]) && Via(g, s, r.stack[b], r.stack[b + j]);
    ViaTrans(g, s, y, z, n);
  }

  ghost function PoppedSet(r: Run): set<nat> {
    r.visited - Elems(r.stack)
  }

  /** What a call of walk_scc for cur does to the run. */
  ghost predicate Walked(g: Graph, s: set<nat>, cur: nat, counter: nat, r0: Run, r: Run) {
    && r.gray == r0.gray && |r.num| == |r0.num|
    && Grown(s, cur, r0, r)
    && r.Dfs(cur) == counter
    && (if |r.stack| == |r0.stack| then r.Low(cur) == counter else r.stack[|r0.stack|] == cur && r.Low(cur) < counter)
    && NoLower(g, s, cur, r0, r, |r0.stack|)
  }

  /** What was there stays as it is, and what is new was reached by an allowed step. */
  ghost predicate Grown(s: set<nat>, cur: nat, r0: Run, r: Run) {
    && cur in r.visited && r0.visited <= r.visited
    && r0.stack <= r.stack
    && (forall v | v in r0.visited :: r.Dfs(v) == r0.Dfs(v) && r.Low(v) == r0.Low(v))
    && (forall v | v in r.visited - r0.visited && v != cur :: v in s)
  }

  /** Steps from the part of the stack starting at c to the stack of r0 are reflected in the low link of cur. */
  ghost predicate NoLower(g: Graph, s: set<nat>, cur: nat, r0: Run, r: Run, c: nat) {
    forall u, y | c <= |r.stack| && u in r.stack[c..] && y in r0.stack && Step(g, s, u, y) :: r.Low(cur) <= r.Dfs(y)
  }

  /** The state of the loop over the successors of cur, j of which are done. */
  ghost predicate Walking(g: Graph, s: set<nat>, cur: nat, counter: nat, r0: Run, r: Run, j: nat) {
    && r.gray == r0.gray + {cur} && |r.num| == |r0.num|
    && Grown(s, cur, r0, r)
    && r.Dfs(cur) == counter && r.Low(cur) <= counter
    && |r.stack| > |r0.stack| && r.stack[|r0.stack|] == cur
    && NoLower(g, s, cur, r0, r, |r0.stack| + 1)
    && cur < |g.succs| && j <= |g.succs[cur]|
    && (forall i | 0 <= i < j :: Processed(s, cur, r0, r, g.succs[cur][i]))
  }

  ghost predicate Processed(s: set<nat>, cur: nat, r0: Run, r: Run, succ: nat) {
    succ in s ==> succ in r.visited && (succ in r0.stack ==> r.Low(cur) <= r.Dfs(succ))
  }

  function Min(a: nat, b: nat): nat {
    if b < a then b else a
  }

  /** lowlink(n) = min(lowlink(n), lowlink(w)) */
  function MinLow(r: Run, n: nat, w: nat): Run
    requires n < |r.num| && w < |r.num|
  {
    Lowered(r, n, Min(r.num[n].low, r.num[w].low))
  }

  lemma MinLowInv(g: Graph, s: set<nat>, r: Run, n: nat, w: nat, k: nat)
    requires Inv(g, s, r, k) && n in r.stack && w < |r.num|
    requires (w in r.stack && Step(g, s, n, w)) || r.Low(n) <= r.Low(w)
    ensures Inv(g, s, MinLow(r, n, w), k)
  {
    if r.Low(w) < r.Low(n) {
      Lower(g, s, r, n, w, k);
    } else {
      assert MinLow(r, n, w) == r;
    }
  }

  lemma WalkStart(g: Graph, s: set<nat>, cur: nat, counter: nat, r0: Run)
    requires Inv(g, s, r0, counter) && cur < |r0.num| && cur !in r0.visited
    ensures Walking(g, s, cur, counter, r0, Pushed(r0, cur, counter), 0)
  {}

  /** A successor on the stack or popped before. */
  lemma WalkOld(g: Graph, s: set<nat>, cur: nat, counter: nat, r0: Run, r: Run, j: nat, w: nat)
    requires Walking(g, s, cur, counter, r0, r, j) && j < |g.succs[cur]| && w == g.succs[cur][j]
    requires w in r.visited && w < |r.num| && cur < |r.num| && cur !in r0.visited
    requires forall v | v in r.stack :: r.Low(v) <= r.Dfs(v)
    ensures w in r.stack ==> Walking(g, s, cur, counter, r0, MinLow(r, cur, w), j + 1)
    ensures w !in r.stack ==> Walking(g, s, cur, counter, r0, r, j + 1)
  {
    var r' := MinLow(r, cur, w);
    forall i | 0 <= i < j
      ensures Processed(s, cur, r0, r', g.succs[cur][i])
    {
      assert Processed(s, cur, r0, r, g.succs[cur][i]);
    }
  }

  lemma WalkSkip(g: Graph, s: set<nat>, cur: nat, counter: nat, r0: Run, r: Run, j: nat)
    requires Walking(g, s, cur, counter, r0, r, j) && j < |g.succs[cur]| && g.succs[cur][j] !in s
    ensures Walking(g, s, cur, counter, r0, r, j + 1)
  {}

  /** A successor for which walk_scc was called. */
  lemma WalkNew(g: Graph, s: set<nat>, cur: nat, counter: nat, r0: Run, r: Run, r1: Run, j: nat, w: nat, k: nat)
    requires Walking(g, s, cur, counter, r0, r, j) && j < |g.succs[cur]| && w == g.succs[cur][j]
    requires cur !in r0.visited && w !in r.visited && w in s && w < |r.num| && cur < |r.num|
    requires Walked(g, s, w, k, r, r1) && counter < k
    requires forall v | v in r0.stack :: v in r0.visited
    ensures Walking(g, s, cur, counter, r0, MinLow(r1, cur, w), j + 1)
  {
    var r' := MinLow(r1, cur, w);
    assert r1.Low(cur) == r.Low(cur) && r1.Dfs(cur) == counter;
    assert r'.Low(cur) <= r.Low(cur) && r'.Low(cur) <= r1.Low(w);
    forall i | 0 <= i < j
      ensures Processed(s, cur, r0, r', g.succs[cur][i])
    {
      assert Processed(s, cur, r0, r, g.succs[cur][i]);
    }
    var b := |r0.stack| + 1;
    forall u, y | u in r'.stack[b..] && y in r0.stack && Step(g, s, u, y)
      ensures r'.Low(cur) <= r'.Dfs(y)
    {
      assert y in r.stack;
      assert r'.stack[b..] == r.stack[b..] + r1.stack[|r.stack|..];
    }
  }

  lemma WalkDone(g: Graph, s: set<nat>, cur: nat, counter: nat, r0: Run, r: Run, k: nat)
    requires cur < |g.succs| && Inv(g, s, r0, counter) && cur !in r0.visited && Inv(g, s, r, k)
    requires Walking(g, s, cur, counter, r0, r, |g.succs[cur]|)
    ensures Done(g, s, r, cur)
    ensures forall y | y in r0.stack && Step(g, s, cur, y) :: r.Low(cur) <= r.Dfs(y)
  {
    forall v: nat | Step(g, s, cur, v)
      ensures v in r.visited && (v in r0.stack ==> r.Low(cur) <= r.Dfs(v))
    {
      var i :| 0 <= i < |g.succs[cur]| && g.succs[cur][i] == v;
      assert Processed(s, cur, r0, r, g.succs[cur][i]);
    }
  }

  lemma WalkEndStay(g: Graph, s: set<nat>, cur: nat, counter: nat, r0: Run, r: Run, k: nat)
    requires cur < |g.succs| && Inv(g, s, r0, counter) && cur !in r0.visited && Inv(g, s, r, k)
    requires Walking(g, s, cur, counter, r0, r, |g.succs[cur]|) && r.Low(cur) != counter
    ensures Inv(g, s, r.(gray := r.gray - {cur}), k)
    ensures Walked(g, s, cur, counter, r0, r.(gray := r.gray - {cur}))
    ensures PoppedSet(r.(gray := r.gray - {cur})) == PoppedSet(r)
  {
    WalkDone(g, s, cur, counter, r0, r, k);
    Retire(g, s, r, cur, k);
    var b := |r0.stack|;
    assert r.stack[b..] == [cur] + r.stack[b + 1..];
  }

  lemma WalkEndPop(g: Graph, s: set<nat>, cur: nat, counter: nat, r0: Run, r: Run, k: nat)
    requires cur < |g.succs| && Inv(g, s, r0, counter) && cur !in r0.visited && Inv(g, s, r, k)
    requires Walking(g, s, cur, counter, r0, r, |g.succs[cur]|) && r.Low(cur) == counter
    ensures Inv(g, s, Popped(r, |r0.stack|), k)
    ensures IsScc(g, s, Elems(r.stack[|r0.stack|..]))
    ensures Walked(g, s, cur, counter, r0, Popped(r, |r0.stack|))
    ensures PoppedSet(Popped(r, |r0.stack|)) == PoppedSet(r) + Elems(r.stack[|r0.stack|..])
    ensures PoppedSet(r) !! Elems(r.stack[|r0.stack|..])
  {
    var b := |r0.stack|;
    WalkDone(g, s, cur, counter, r0, r, k);
    assert r.stack[..b] == r0.stack;
    assert r.stack[b..] == [cur] + r.stack[b + 1..];
    Pop(g, s, r, b, k);
    PopIsScc(g, s, r, b, k);
    PoppedSplit(g, r, b, k);
  }

  lemma PoppedSplit(g: Graph, r: Run, b: nat, k: nat)
    requires Layout(g, r, k) && b < |r.stack|
    ensures PoppedSet(Popped(r, b)) == PoppedSet(r) + Elems(r.stack[b..])
    ensures PoppedSet(r) !! Elems(r.stack[b..])
  {
    forall y | y in r.stack
      ensures y in r.stack[..b] <==> y !in r.stack[b..]
    {
      StackSplit(g, r, b, k, y);
    }
  }
}
