/** Transitive free definitions, computed on demand by a worklist that keeps its results between calls. */
module FreeDefs {
  import opened Graphs

  /** How split_fd sees a free definition. Toplevel definitions are never free; parameters other than the
      return continuation, blocks marked as free, and opaque definitions are kept; nominals are to be
      closed themselves; everything else is broken up into its operands. */
  datatype Free =
    | Toplevel
    | Param(id: nat, isRet: bool)
    | FreeBB(id: nat)
    | Nominal(nom: nat)
    | Opaque(id: nat)
    | Compound(ops: seq<Free>)

  /** The definitions kept. */
  function Locals(fd: Free): set<nat> {
    match fd
    case Toplevel => {}
    case Param(id, isRet) => if isRet then {} else {id}
    case FreeBB(id) => {id}
    case Nominal(_) => {}
    case Opaque(id) => {id}
    case Compound(ops) => LocalsOf(ops)
  }

  function LocalsOf(fds: seq<Free>): set<nat> {
    if fds == [] then {} else LocalsOf(fds[..|fds| - 1]) + Locals(fds[|fds| - 1])
  }

  /** The nominals referred to. */
  function Refs(fd: Free): set<nat> {
    match fd
    case Nominal(nom) => {nom}
    case Compound(ops) => RefsOf(ops)
    case _ => {}
  }

  function RefsOf(fds: seq<Free>): set<nat> {
    if fds == [] then {} else RefsOf(fds[..|fds| - 1]) + Refs(fds[|fds| - 1])
  }

  /** The free definitions of the body of every nominal. */
  type Input = seq<seq<Free>>

  ghost predicate Closed(input: Input) {
    forall n | 0 <= n < |input| :: forall m | m in RefsOf(input[n]) :: m < |input|
  }

  ghost predicate RefersTo(input: Input, n: nat, m: nat) {
    n < |input| && m in RefsOf(input[n]) && m != n
  }

  /** From nominal to nominal along references. */
  ghost predicate Chain(input: Input, p: seq<nat>, n: nat, m: nat) {
    && |p| > 0 && p[0] == n && p[|p| - 1] == m
    && forall i | 0 <= i < |p| - 1 :: LinkAt(input, p, i)
  }

  ghost predicate LinkAt(input: Input, p: seq<nat>, i: int)
    requires 0 <= i < |p| - 1
  {
    RefersTo(input, p[i], p[i + 1])
  }

  /** d is free in n: it is kept in n or in some nominal that n refers to, directly or not. */
  ghost predicate IsFree(input: Input, n: nat, d: nat) {
    exists p, m: nat :: Chain(input, p, n, m) && m < |input| && d in LocalsOf(input[m])
  }

  lemma FreeLocal(input: Input, n: nat, d: nat)
    requires n < |input| && d in LocalsOf(input[n])
    ensures IsFree(input, n, d)
  {
    assert Chain(input, [n], n, n);
  }

  lemma FreeThrough(input: Input, n: nat, m: nat, d: nat)
    requires RefersTo(input, n, m) && IsFree(input, m, d)
    ensures IsFree(input, n, d)
  {
    var p, k: nat :| Chain(input, p, m, k) && k < |input| && d in LocalsOf(input[k]);
    var q := [n] + p;
    forall i | 0 <= i < |q| - 1
      ensures LinkAt(input, q, i)
    {
      if i > 0 { assert LinkAt(input, p, i - 1); }
    }
    assert Chain(input, q, n, k);
  }

  /** Sets that contain the local definitions and pass on what is free contain everything that is free. */
  lemma {:induction false} FreeIsLeast(input: Input, fvs: map<nat, set<nat>>, p: seq<nat>, n: nat, m: nat, d: nat)
    requires Chain(input, p, n, m) && m < |input| && d in LocalsOf(input[m]) && n in fvs
    requires forall k | k in fvs && k < |input| :: LocalsOf(input[k]) <= fvs[k]
    requires forall k, l | k in fvs && RefersTo(input, k, l) :: l in fvs && fvs[l] <= fvs[k]
    ensures d in fvs[n]
    decreases |p|
  {
    if |p| > 1 {
      assert LinkAt(input, p, 0);
      forall i | 0 <= i < |p[1..]| - 1
        ensures LinkAt(input, p[1..], i)
      {
        assert LinkAt(input, p, i + 1);
      }
      FreeIsLeast(input, fvs, p[1..], p[1], m, d);
    }
  }

  /** Down through the operands of compound definitions. */
  ghost predicate LeadsTo(fd: Free, path: seq<nat>, leaf: Free)
    decreases |path|
  {
    if path == [] then leaf == fd
    else fd.Compound? && path[0] < |fd.ops| && LeadsTo(fd.ops[path[0]], path[1..], leaf)
  }

  ghost predicate Contains(fds: seq<Free>, leaf: Free) {
    exists i, path :: 0 <= i < |fds| && LeadsTo(fds[i], path, leaf)
  }

  /** Parameters other than the return continuation, blocks marked as free, and opaque definitions. */
  ghost predicate IsKept(leaf: Free, d: nat) {
    leaf == Param(d, false) || leaf == FreeBB(d) || leaf == Opaque(d)
  }

  ghost predicate Mentions(input: Input, n: nat, m: nat) {
    n < |input| && m != n && Contains(input[n], Nominal(m))
  }

  /** From nominal to nominal by what they mention. */
  ghost predicate Leads(input: Input, p: seq<nat>, n: nat, m: nat) {
    && |p| > 0 && p[0] == n && p[|p| - 1] == m
    && forall i | 0 <= i < |p| - 1 :: Mentions(input, p[i], p[i + 1])
  }

  /** Closing n has to capture d: some nominal that n leads to contains a leaf that keeps d. */
  ghost predicate Captures(input: Input, n: nat, d: nat) {
    exists p, m: nat, leaf :: Leads(input, p, n, m) && m < |input| && Contains(input[m], leaf) && IsKept(leaf, d)
  }

  ghost predicate KeepsBelow(fd: Free, d: nat) {
    exists path, leaf :: LeadsTo(fd, path, leaf) && IsKept(leaf, d)
  }

  ghost predicate RefersBelow(fd: Free, m: nat) {
    exists path :: LeadsTo(fd, path, Nominal(m))
  }

  lemma LeadsOn(fd: Free, i: nat, path: seq<nat>, leaf: Free)
    requires fd.Compound? && i < |fd.ops| && LeadsTo(fd.ops[i], path, leaf)
    ensures LeadsTo(fd, [i] + path, leaf)
  {
    assert ([i] + path)[1..] == path;
  }

  lemma {:induction false} LocalsAre(fd: Free, d: nat)
    ensures d in Locals(fd) <==> KeepsBelow(fd, d)
  {
    if fd.Compound? {
      forall i: nat | i < |fd.ops|
        ensures d in Locals(fd.ops[i]) <==> KeepsBelow(fd.ops[i], d)
        ensures KeepsBelow(fd.ops[i], d) ==> KeepsBelow(fd, d)
      {
        LocalsAre(fd.ops[i], d);
        if KeepsBelow(fd.ops[i], d) {
          var path, leaf :| LeadsTo(fd.ops[i], path, leaf) && IsKept(leaf, d);
          LeadsOn(fd, i, path, leaf);
        }
      }
      LocalsOfOne(fd.ops, d);
      if KeepsBelow(fd, d) {
        var path, leaf :| LeadsTo(fd, path, leaf) && IsKept(leaf, d);
        assert LeadsTo(fd.ops[path[0]], path[1..], leaf);
        assert KeepsBelow(fd.ops[path[0]], d);
      }
    } else if d in Locals(fd) {
      assert LeadsTo(fd, [], fd);
    }
  }

  lemma {:induction false} RefsAre(fd: Free, m: nat)
    ensures m in Refs(fd) <==> RefersBelow(fd, m)
  {
    if fd.Compound? {
      forall i: nat | i < |fd.ops|
        ensures m in Refs(fd.ops[i]) <==> RefersBelow(fd.ops[i], m)
        ensures RefersBelow(fd.ops[i], m) ==> RefersBelow(fd, m)
      {
        RefsAre(fd.ops[i], m);
        if RefersBelow(fd.ops[i], m) {
          var path :| LeadsTo(fd.ops[i], path, Nominal(m));
          LeadsOn(fd, i, path, Nominal(m));
        }
      }
      RefsOfOne(fd.ops, m);
      if RefersBelow(fd, m) {
        var path :| LeadsTo(fd, path, Nominal(m));
        assert LeadsTo(fd.ops[path[0]], path[1..], Nominal(m));
        assert RefersBelow(fd.ops[path[0]], m);
      }
    } else if m in Refs(fd) {
      assert LeadsTo(fd, [], fd);
    }
  }

  lemma {:induction false} LocalsOfOne(fds: seq<Free>, d: nat)
    ensures d in LocalsOf(fds) <==> exists i :: 0 <= i < |fds| && d in Locals(fds[i])
  {
    if fds != [] { LocalsOfOne(fds[..|fds| - 1], d); }
  }

  lemma {:induction false} RefsOfOne(fds: seq<Free>, m: nat)
    ensures m in RefsOf(fds) <==> exists i :: 0 <= i < |fds| && m in Refs(fds[i])
  {
    if fds != [] { RefsOfOne(fds[..|fds| - 1], m); }
  }

  lemma LocalsOfAre(fds: seq<Free>, d: nat)
    ensures d in LocalsOf(fds) <==> exists leaf :: Contains(fds, leaf) && IsKept(leaf, d)
  {
    LocalsOfOne(fds, d);
    forall i | 0 <= i < |fds|
      ensures d in Locals(fds[i]) <==> KeepsBelow(fds[i], d)
    {
      LocalsAre(fds[i], d);
    }
    if d in LocalsOf(fds) {
      var i :| 0 <= i < |fds| && d in Locals(fds[i]);
      var path, leaf :| LeadsTo(fds[i], path, leaf) && IsKept(leaf, d);
      assert Contains(fds, leaf);
    }
    if leaf :| Contains(fds, leaf) && IsKept(leaf, d) {
      var i, path :| 0 <= i < |fds| && LeadsTo(fds[i], path, leaf);
      assert KeepsBelow(fds[i], d);
    }
  }

  lemma RefersMentions(input: Input, n: nat, m: nat)
    ensures RefersTo(input, n, m) <==> Mentions(input, n, m)
  {
    if n < |input| {
      RefsOfOne(input[n], m);
      forall i | 0 <= i < |input[n]|
        ensures m in Refs(input[n][i]) <==> RefersBelow(input[n][i], m)
      {
        RefsAre(input[n][i], m);
      }
    }
  }

  /** Free is what has to be captured. */
  lemma FreeIsCaptured(input: Input, n: nat, d: nat)
    ensures IsFree(input, n, d) <==> Captures(input, n, d)
  {
    forall k: nat, l: nat
      ensures RefersTo(input, k, l) <==> Mentions(input, k, l)
    {
      RefersMentions(input, k, l);
    }
    forall m: nat | m < |input|
      ensures d in LocalsOf(input[m]) <==> exists leaf :: Contains(input[m], leaf) && IsKept(leaf, d)
    {
      LocalsOfAre(input[m], d);
    }
    if IsFree(input, n, d) {
      var p, m: nat :| Chain(input, p, n, m) && m < |input| && d in LocalsOf(input[m]);
      forall i | 0 <= i < |p| - 1
        ensures Mentions(input, p[i], p[i + 1])
      {
        assert LinkAt(input, p, i);
      }
      assert Leads(input, p, n, m);
    }
    if Captures(input, n, d) {
      var p, m: nat, leaf :| Leads(input, p, n, m) && m < |input| && Contains(input[m], leaf) && IsKept(leaf, d);
      assert forall i | 0 <= i < |p| - 1 :: LinkAt(input, p, i);
      assert Chain(input, p, n, m);
    }
  }

  datatype Node = Node(fvs: set<nat>, preds: seq<nat>, succs: seq<nat>, passId: nat) {
    predicate IsBot() {
      passId == 0
    }
  }

  type Table = map<nat, Node>

  /** Nodes are linked both ways, and to nodes only. */
  ghost predicate Linked(t: Table) {
    && (forall n, m | n in t && m in t[n].preds :: m in t && n in t[m].succs)
    && (forall n, m | m in t && n in t[m].succs :: n in t && m in t[n].preds)
  }

  /** n knows all nominals it refers to. */
  ghost predicate Complete(input: Input, t: Table, n: nat)
    requires n in t
  {
    n < |input| && forall m :: m in t[n].preds <==> RefersTo(input, n, m)
  }

  /** n's set is somewhere between what is kept in n and what is free in n. */
  ghost predicate Sound(input: Input, t: Table, n: nat)
    requires n in t
  {
    && n < |input| && LocalsOf(input[n]) <= t[n].fvs
    && forall d | d in t[n].fvs :: IsFree(input, n, d)
  }

  /** n's set is exactly what is free in n. */
  ghost predicate Exact(input: Input, t: Table, n: nat)
    requires n in t
  {
    n < |input| && forall d :: d in t[n].fvs <==> IsFree(input, n, d)
  }

  /** Some node below n is not initialized yet and was created after n. */
  ghost predicate HasBotPred(t: Table, rank: map<nat, nat>, n: nat)
    requires n in t
  {
    exists p :: p in t[n].preds && BotAfter(t, rank, p, n)
  }

  ghost predicate BotAfter(t: Table, rank: map<nat, nat>, p: nat, n: nat) {
    p in t && t[p].IsBot() && p in rank && n in rank && rank[n] < rank[p]
  }

  /** Everything but the outgoing links of n is as in the other table. */
  ghost predicate Keeps(t: Table, t': Table, n: nat)
    requires n in t
  {
    n in t' && t'[n].fvs == t[n].fvs && t'[n].preds == t[n].preds && t'[n].passId == t[n].passId
  }

  /** The nodes that are being built lack some of their local definitions and links. */
  ghost predicate OpenOk(input: Input, t: Table, n: nat) {
    && n in t && n < |input| && t[n].IsBot()
    && t[n].fvs <= LocalsOf(input[n])
    && forall m | m in t[n].preds :: RefersTo(input, n, m)
  }

  /** A node built in this call is complete; its turn comes, or that of a node on which it depends. */
  ghost predicate NewOk(input: Input, t: Table, wl: seq<nat>, rank: map<nat, nat>, n: nat)
    requires n in t
  {
    && n < |input| && t[n].IsBot() && t[n].fvs == LocalsOf(input[n])
    && Complete(input, t, n)
    && (n in wl || HasBotPred(t, rank, n))
  }

  /** While nodes are built on top of the table old; open nodes are under construction. */
  ghost predicate BuildInv(input: Input, old_: Table, t: Table, wl: seq<nat>, open: set<nat>, rank: map<nat, nat>,
                           clock: nat) {
    && Linked(t) && t.Keys <= Range(|input|)
    && (forall n | n in t :: n in rank && rank[n] < clock)
    && (forall n | n in wl :: n in t)
    && (forall n {:trigger Keeps(old_, t, n)} | n in old_ :: Keeps(old_, t, n) && n !in open)
    && (forall n {:trigger OpenOk(input, t, n)} | n in open :: OpenOk(input, t, n))
    && (forall n {:trigger NewOk(input, t, wl, rank, n)} | n in t && n !in open && n !in old_ ::
        NewOk(input, t, wl, rank, n))
  }

  /** What a call of build_node or split_fd for node leaves alone. */
  ghost predicate Grows(t: Table, t': Table, node: nat, rank: map<nat, nat>, rank': map<nat, nat>, clock: nat) {
    && t.Keys <= t'.Keys
    && (forall n {:trigger Keeps(t, t', n)} | n in t && n != node :: Keeps(t, t', n))
    && (forall n {:trigger Stays(t, t', rank, rank', n)} | n in t :: Stays(t, t', rank, rank', n))
    && (forall n {:trigger Fresh(t', rank', clock, n)} | n in t' && n !in t :: Fresh(t', rank', clock, n))
  }

  ghost predicate Stays(t: Table, t': Table, rank: map<nat, nat>, rank': map<nat, nat>, n: nat)
    requires n in t
  {
    && n in t' && t'[n].passId == t[n].passId
    && (n in rank ==> n in rank' && rank'[n] == rank[n])
  }

  ghost predicate Fresh(t: Table, rank: map<nat, nat>, clock: nat, n: nat)
    requires n in t
  {
    t[n].IsBot() && n in rank && clock <= rank[n]
  }

  lemma GrowsBotPred(t: Table, t': Table, node: nat, rank: map<nat, nat>, rank': map<nat, nat>, clock: nat, n: nat)
    requires Grows(t, t', node, rank, rank', clock) && n in t && HasBotPred(t, rank, n)
    requires forall m | m in t[n].preds :: m in t'[n].preds
    ensures HasBotPred(t', rank', n)
  {
    var p :| p in t[n].preds && BotAfter(t, rank, p, n);
    assert Stays(t, t', rank, rank', p) && Stays(t, t', rank, rank', n);
    assert BotAfter(t', rank', p, n);
  }

  lemma NewStays(input: Input, t: Table, t': Table, wl: seq<nat>, rank: map<nat, nat>, n: nat)
    requires n in t && NewOk(input, t, wl, rank, n)
    requires n in t' && t'[n].fvs == t[n].fvs && t'[n].preds == t[n].preds && t'[n].passId == t[n].passId
    requires forall m | m in t :: m in t' && t'[m].passId == t[m].passId
    ensures NewOk(input, t', wl, rank, n)
  {
    if n !in wl {
      assert HasBotPred(t, rank, n);
      var p :| p in t[n].preds && BotAfter(t, rank, p, n);
      assert BotAfter(t', rank, p, n);
    }
  }

  /** The open node changed; other nodes may only have gained outgoing links. */
  lemma OpenChanges(input: Input, old_: Table, t: Table, t': Table, wl: seq<nat>, open: set<nat>, rank: map<nat, nat>,
                    clock: nat, node: nat)
    requires BuildInv(input, old_, t, wl, open, rank, clock) && node in open && Linked(t') && t'.Keys == t.Keys
    requires forall n {:trigger Keeps(t, t', n)} | n in t && n != node :: Keeps(t, t', n)
    requires OpenOk(input, t', node)
    ensures BuildInv(input, old_, t', wl, open, rank, clock)
  {
    assert OpenOk(input, t, node);
    forall n {:trigger Keeps(old_, t', n)} | n in old_
      ensures Keeps(old_, t', n) && n !in open
    {
      assert Keeps(old_, t, n) && Keeps(t, t', n);
    }
    forall n {:trigger OpenOk(input, t', n)} | n in open
      ensures OpenOk(input, t', n)
    {
      if n != node { assert OpenOk(input, t, n) && Keeps(t, t', n); }
    }
    forall n {:trigger NewOk(input, t', wl, rank, n)} | n in t' && n !in open && n !in old_
      ensures NewOk(input, t', wl, rank, n)
    {
      assert NewOk(input, t, wl, rank, n) && Keeps(t, t', n);
      forall m | m in t
        ensures m in t' && t'[m].passId == t[m].passId
      {
        if m != node { assert Keeps(t, t', m); }
      }
      NewStays(input, t, t', wl, rank, n);
    }
  }

  /** node learns about a local definition. */
  lemma AddLocal(input: Input, old_: Table, t: Table, wl: seq<nat>, open: set<nat>, rank: map<nat, nat>, clock: nat,
                 node: nat, ds: set<nat>)
    requires BuildInv(input, old_, t, wl, open, rank, clock) && node in open && node in t
    requires node < |input| && ds <= LocalsOf(input[node])
    ensures BuildInv(input, old_, t[node := t[node].(fvs := t[node].fvs + ds)], wl, open, rank, clock)
  {
    assert OpenOk(input, t, node);
    OpenChanges(input, old_, t, t[node := t[node].(fvs := t[node].fvs + ds)], wl, open, rank, clock, node);
  }

  /** node->preds.push_back(p); p->succs.push_back(node) */
  function LinkNodes(t: Table, node: nat, p: nat): Table
    requires node in t && p in t && node != p
  {
    t[node := t[node].(preds := t[node].preds + [p])][p := t[p].(succs := t[p].succs + [node])]
  }

  lemma LinkLinked(t: Table, node: nat, p: nat)
    requires Linked(t) && node in t && p in t && node != p
    ensures Linked(LinkNodes(t, node, p))
  {
    var t' := LinkNodes(t, node, p);
    forall n, m | n in t' && m in t'[n].preds
      ensures m in t' && n in t'[m].succs
    {
      if !(n == node && m == p) { assert m in t[n].preds; }
    }
    forall n, m | m in t' && n in t'[m].succs
      ensures n in t' && m in t'[n].preds
    {
      if !(n == node && m == p) { assert n in t[m].succs; }
    }
  }

  lemma OpenLinked(t: Table, node: nat)
    requires Linked(t) && node !in t
    ensures Linked(t[node := Node({}, [], [], 0)])
  {
    assert forall n | n in t :: node !in t[n].preds && node !in t[n].succs;
  }

  lemma AddLink(input: Input, old_: Table, t: Table, wl: seq<nat>, open: set<nat>, rank: map<nat, nat>, clock: nat,
                node: nat, p: nat)
    requires BuildInv(input, old_, t, wl, open, rank, clock) && node in open && node in t && p in t
             && RefersTo(input, node, p)
    ensures BuildInv(input, old_, LinkNodes(t, node, p), wl, open, rank, clock)
  {
    LinkLinked(t, node, p);
    assert OpenOk(input, t, node);
    OpenChanges(input, old_, t, LinkNodes(t, node, p), wl, open, rank, clock, node);
  }

  /** A node is created. */
  lemma Open(input: Input, old_: Table, t: Table, wl: seq<nat>, open: set<nat>, rank: map<nat, nat>, clock: nat,
             node: nat)
    requires BuildInv(input, old_, t, wl, open, rank, clock) && node !in t && node < |input|
    ensures BuildInv(input, old_, t[node := Node({}, [], [], 0)], wl, open + {node}, rank[node := clock], clock + 1)
  {
    var t', rank' := t[node := Node({}, [], [], 0)], rank[node := clock];
    OpenLinked(t, node);
    forall n {:trigger Keeps(old_, t', n)} | n in old_
      ensures Keeps(old_, t', n) && n !in open + {node}
    {
      assert Keeps(old_, t, n);
    }
    forall n {:trigger OpenOk(input, t', n)} | n in open + {node}
      ensures OpenOk(input, t', n)
    {
      if n != node { assert OpenOk(input, t, n); }
    }
    forall n {:trigger NewOk(input, t', wl, rank', n)} | n in t' && n !in open + {node} && n !in old_
      ensures NewOk(input, t', wl, rank', n)
    {
      assert NewOk(input, t, wl, rank, n);
      if n !in wl {
        var p :| p in t[n].preds && BotAfter(t, rank, p, n);
        assert BotAfter(t', rank', p, n);
      }
    }
    assert t'.Keys <= Range(|input|) && forall n | n in wl :: n in t';
    assert BuildInv(input, old_, t', wl, open + {node}, rank', clock + 1);
  }

  /** A node is finished: it enters the worklist unless it waits for a node created below it. */
  lemma Finish(input: Input, old_: Table, t: Table, wl: seq<nat>, wl': seq<nat>, open: set<nat>, rank: map<nat, nat>,
               clock: nat, node: nat)
    requires BuildInv(input, old_, t, wl, open + {node}, rank, clock) && node !in open && node in t && node < |input|
    requires t[node].fvs == LocalsOf(input[node]) && Complete(input, t, node)
    requires wl' == wl + [node] || (wl' == wl && HasBotPred(t, rank, node))
    ensures BuildInv(input, old_, t, wl', open, rank, clock)
  {
    forall n {:trigger OpenOk(input, t, n)} | n in open
      ensures OpenOk(input, t, n)
    {
      assert n in open + {node};
    }
    assert OpenOk(input, t, node);
    forall n {:trigger NewOk(input, t, wl', rank, n)} | n in t && n !in open && n !in old_
      ensures NewOk(input, t, wl', rank, n)
    {
      if n != node { assert NewOk(input, t, wl, rank, n); }
    }
  }

  lemma GrowsTrans(t0: Table, t1: Table, t2: Table, node: nat, rank0: map<nat, nat>, rank1: map<nat, nat>,
                   rank2: map<nat, nat>, clock0: nat, clock1: nat)
    requires Grows(t0, t1, node, rank0, rank1, clock0) && Grows(t1, t2, node, rank1, rank2, clock1) && clock0 <= clock1
    requires forall n | n in t0 :: n in rank0
    ensures Grows(t0, t2, node, rank0, rank2, clock0)
  {
    forall n {:trigger Keeps(t0, t2, n)} | n in t0 && n != node
      ensures Keeps(t0, t2, n)
    {
      assert Keeps(t0, t1, n) && Keeps(t1, t2, n);
    }
    forall n {:trigger Stays(t0, t2, rank0, rank2, n)} | n in t0
      ensures Stays(t0, t2, rank0, rank2, n)
    {
      assert Stays(t0, t1, rank0, rank1, n) && Stays(t1, t2, rank1, rank2, n);
    }
    forall n {:trigger Fresh(t2, rank2, clock0, n)} | n in t2 && n !in t0
      ensures Fresh(t2, rank2, clock0, n)
    {
      if n in t1 {
        assert Fresh(t1, rank1, clock0, n) && Stays(t1, t2, rank1, rank2, n);
      } else {
        assert Fresh(t2, rank2, clock1, n);
      }
    }
  }

  /** node has absorbed fd: its kept definitions and the nominals referred to. */
  ghost predicate Absorbed(t: Table, t': Table, node: nat, locals: set<nat>, refs: set<nat>)
    requires node in t
  {
    && node in t' && t'[node].fvs == t[node].fvs + locals
    && forall m :: m in t'[node].preds <==> m in t[node].preds || (m in refs && m != node)
  }

  /** A call for node took the table from t to t'. */
  ghost predicate Split(t: Table, t': Table, node: nat, rank: map<nat, nat>, rank': map<nat, nat>, clock: nat,
                        clock': nat, locals: set<nat>, refs: set<nat>, init: bool, init': bool)
    requires node in t
  {
    && Grows(t, t', node, rank, rank', clock) && clock <= clock'
    && Absorbed(t, t', node, locals, refs)
    && (init' == init || (init' && HasBotPred(t', rank', node)))
  }

  lemma SplitNext(t0: Table, t1: Table, t2: Table, node: nat, rank0: map<nat, nat>, rank1: map<nat, nat>,
                  rank2: map<nat, nat>, clock0: nat, clock1: nat, clock2: nat, fds: seq<Free>, i: nat, init0: bool,
                  init1: bool, init2: bool)
    requires node in t0 && node in t1 && i < |fds| && forall n | n in t0 :: n in rank0
    requires Split(t0, t1, node, rank0, rank1, clock0, clock1, LocalsOf(fds[..i]), RefsOf(fds[..i]), init0, init1)
    requires Split(t1, t2, node, rank1, rank2, clock1, clock2, Locals(fds[i]), Refs(fds[i]), init1, init2)
    ensures Split(t0, t2, node, rank0, rank2, clock0, clock2, LocalsOf(fds[..i + 1]), RefsOf(fds[..i + 1]), init0,
            init2)
  {
    PartsOf(fds, i);
    GrowsTrans(t0, t1, t2, node, rank0, rank1, rank2, clock0, clock1);
    if HasBotPred(t1, rank1, node) { GrowsBotPred(t1, t2, node, rank1, rank2, clock1, node); }
  }

  /** Other nodes were created, but those there are as they were. */
  ghost predicate Built(t: Table, t': Table, rank: map<nat, nat>, rank': map<nat, nat>, clock: nat, clock': nat) {
    && t.Keys <= t'.Keys && clock <= clock'
    && (forall n {:trigger Keeps(t, t', n)} | n in t :: Keeps(t, t', n))
    && (forall n {:trigger Stays(t, t', rank, rank', n)} | n in t :: Stays(t, t', rank, rank', n))
    && (forall n {:trigger Fresh(t', rank', clock, n)} | n in t' && n !in t :: Fresh(t', rank', clock, n))
  }

  lemma BuiltNext(t0: Table, t1: Table, t2: Table, nom: nat, rank0: map<nat, nat>, rank1: map<nat, nat>,
                  rank2: map<nat, nat>, clock0: nat, clock1: nat, clock2: nat, locals: set<nat>, refs: set<nat>,
                  init: bool)
    requires nom !in t0 && t1 == t0[nom := Node({}, [], [], 0)] && rank1 == rank0[nom := clock0] && clock1 == clock0 + 1
    requires Split(t1, t2, nom, rank1, rank2, clock1, clock2, locals, refs, false, init)
    ensures Built(t0, t2, rank0, rank2, clock0, clock2)
    ensures nom in t2 && t2[nom].fvs == locals && (forall m :: m in t2[nom].preds <==> m in refs && m != nom)
    ensures init ==> HasBotPred(t2, rank2, nom)
  {
    forall n {:trigger Keeps(t0, t2, n)} | n in t0
      ensures Keeps(t0, t2, n)
    {
      assert Keeps(t1, t2, n);
    }
    forall n {:trigger Stays(t0, t2, rank0, rank2, n)} | n in t0
      ensures Stays(t0, t2, rank0, rank2, n)
    {
      assert Stays(t1, t2, rank1, rank2, n);
    }
    forall n {:trigger Fresh(t2, rank2, clock0, n)} | n in t2 && n !in t0
      ensures Fresh(t2, rank2, clock0, n)
    {
      if n == nom { assert Stays(t1, t2, rank1, rank2, n); } else { assert Fresh(t2, rank2, clock1, n); }
    }
  }

  lemma NominalNext(t0: Table, t1: Table, t2: Table, node: nat, pred: nat, rank0: map<nat, nat>, rank1: map<nat, nat>,
                    clock0: nat, clock1: nat, init: bool)
    requires Built(t0, t1, rank0, rank1, clock0, clock1) && node in t0 && node in rank0 && rank0[node] < clock0
             && pred in t1 && pred != node
    requires t2 == LinkNodes(t1, node, pred)
    ensures Split(t0, t2, node, rank0, rank1, clock0, clock1, {}, {pred}, init, init || pred !in t0)
  {
    assert Keeps(t0, t1, node) && Stays(t0, t1, rank0, rank1, node);
    forall n {:trigger Keeps(t0, t2, n)} | n in t0 && n != node
      ensures Keeps(t0, t2, n)
    {
      assert Keeps(t0, t1, n);
    }
    forall n {:trigger Stays(t0, t2, rank0, rank1, n)} | n in t0
      ensures Stays(t0, t2, rank0, rank1, n)
    {
      assert Stays(t0, t1, rank0, rank1, n);
    }
    forall n {:trigger Fresh(t2, rank1, clock0, n)} | n in t2 && n !in t0
      ensures Fresh(t2, rank1, clock0, n)
    {
      assert Fresh(t1, rank1, clock0, n);
    }
    assert pred !in t0 ==> Fresh(t1, rank1, clock0, pred);
    assert pred !in t0 ==> pred in t2[node].preds && BotAfter(t2, rank1, pred, node);
  }

  /** Finished in an earlier run. */
  ghost predicate DoneOk(input: Input, t: Table, cur: nat, n: nat)
    requires n in t
  {
    0 < t[n].passId < cur && Complete(input, t, n) && Exact(input, t, n)
  }

  /** What n's predecessors know, n knows, unless they or n are still to be looked at. */
  ghost predicate UpToDate(t: Table, rank: map<nat, nat>, n: nat)
    requires n in t
  {
    if t[n].IsBot() then HasBotPred(t, rank, n)
    else forall p | p in t[n].preds && p in t :: t[p].IsBot() || t[p].fvs <= t[n].fvs
  }

  ghost predicate TodoOk(input: Input, t: Table, wl: seq<nat>, rank: map<nat, nat>, cur: nat, n: nat)
    requires n in t
  {
    && (t[n].passId == 0 || t[n].passId == cur) && Complete(input, t, n) && Sound(input, t, n)
    && (n in wl || UpToDate(t, rank, n))
  }

  /** While the worklist runs; done nodes are those finished earlier. */
  ghost predicate RunInv(input: Input, done: set<nat>, t: Table, wl: seq<nat>, rank: map<nat, nat>, clock: nat,
                         cur: nat) {
    && Linked(t) && t.Keys <= Range(|input|) && 0 < cur
    && (forall n | n in t :: n in rank && rank[n] < clock)
    && (forall n | n in wl :: n in t)
    && (forall n {:trigger DoneOk(input, t, cur, n)} | n in t && n in done :: DoneOk(input, t, cur, n))
    && (forall n {:trigger TodoOk(input, t, wl, rank, cur, n)} | n in t && n !in done ::
        TodoOk(input, t, wl, rank, cur, n))
  }

  lemma RunStart(input: Input, old_: Table, t: Table, wl: seq<nat>, rank: map<nat, nat>, clock: nat, cur: nat)
    requires BuildInv(input, old_, t, wl, {}, rank, clock) && 1 < cur
    requires forall n {:trigger DoneOk(input, old_, cur, n)} | n in old_ :: DoneOk(input, old_, cur, n)
    ensures RunInv(input, old_.Keys, t, wl, rank, clock, cur)
  {
    forall n {:trigger DoneOk(input, t, cur, n)} | n in t && n in old_.Keys
      ensures DoneOk(input, t, cur, n)
    {
      assert Keeps(old_, t, n) && DoneOk(input, old_, cur, n);
    }
    forall n {:trigger TodoOk(input, t, wl, rank, cur, n)} | n in t && n !in old_.Keys
      ensures TodoOk(input, t, wl, rank, cur, n)
    {
      assert NewOk(input, t, wl, rank, n);
      forall d | d in t[n].fvs
        ensures IsFree(input, n, d)
      {
        FreeLocal(input, n, d);
      }
    }
  }

  /** n's turn is over; if its set grew, all that depend on it are to be looked at again. */
  lemma RunStep(input: Input, done: set<nat>, t: Table, t': Table, wl: seq<nat>, wl': seq<nat>, rank: map<nat, nat>,
                clock: nat, cur: nat, n: nat, changed: bool)
    requires RunInv(input, done, t, wl, rank, clock, cur) && n in t && n !in done
    requires n in t' && t' == t[n := t'[n]] && t'[n] == t[n].(fvs := t'[n].fvs, passId := cur)
    requires t[n].fvs <= t'[n].fvs && Sound(input, t', n)
    requires forall p | p in t[n].preds && p in t :: t[p].fvs <= t'[n].fvs
    requires !changed ==> t' == t
    requires forall m | m in wl :: m == n || m in wl'
    requires forall m | m in wl' :: m in wl || m in t[n].succs
    requires changed ==> forall m | m in t[n].succs :: m in wl'
    ensures RunInv(input, done, t', wl', rank, clock, cur)
  {
    forall m {:trigger DoneOk(input, t', cur, m)} | m in t' && m in done
      ensures DoneOk(input, t', cur, m)
    {
      assert DoneOk(input, t, cur, m);
    }
    assert n !in t[n].preds by { assert TodoOk(input, t, wl, rank, cur, n); }
    forall m {:trigger TodoOk(input, t', wl', rank, cur, m)} | m in t' && m !in done
      ensures TodoOk(input, t', wl', rank, cur, m)
    {
      TodoStep(input, done, t, t', wl, wl', rank, clock, cur, n, changed, m);
    }
  }

  lemma TodoStep(input: Input, done: set<nat>, t: Table, t': Table, wl: seq<nat>, wl': seq<nat>, rank: map<nat, nat>,
                 clock: nat, cur: nat, n: nat, changed: bool, m: nat)
    requires RunInv(input, done, t, wl, rank, clock, cur) && n in t && m in t && m !in done
    requires n in t' && t' == t[n := t'[n]] && t'[n] == t[n].(fvs := t'[n].fvs, passId := cur)
    requires Sound(input, t', n) && n !in t[n].preds
    requires forall p | p in t[n].preds && p in t :: t[p].fvs <= t'[n].fvs
    requires !changed ==> t' == t
    requires m in wl ==> m == n || m in wl'
    requires changed && m in t[n].succs ==> m in wl'
    ensures TodoOk(input, t', wl', rank, cur, m)
  {
    assert TodoOk(input, t, wl, rank, cur, m);
    if m != n && m !in wl' { StaysUpToDate(t, t', rank, n, m); }
  }

  lemma StaysUpToDate(t: Table, t': Table, rank: map<nat, nat>, n: nat, m: nat)
    requires n in t && m in t && m != n && UpToDate(t, rank, m)
    requires n in t' && t' == t[n := t'[n]] && (t' == t || n !in t[m].preds)
    ensures UpToDate(t', rank, m)
  {
    if t[m].IsBot() {
      var p :| p in t[m].preds && BotAfter(t, rank, p, m);
      assert BotAfter(t', rank, p, m);
    }
  }

  /** Once nothing is left to do, no node is uninitialized: the one created last could wait for nobody. */
  lemma {:induction false} NoneBot(input: Input, done: set<nat>, t: Table, rank: map<nat, nat>, clock: nat, cur: nat,
                                   n: nat)
    requires RunInv(input, done, t, [], rank, clock, cur) && n in t
    ensures !t[n].IsBot()
    decreases clock - rank[n]
  {
    if n in done {
      assert DoneOk(input, t, cur, n);
    } else if t[n].IsBot() {
      assert TodoOk(input, t, [], rank, cur, n);
      var p :| p in t[n].preds && BotAfter(t, rank, p, n);
      NoneBot(input, done, t, rank, clock, cur, p);
    }
  }

  /** Then every set is exact. */
  lemma RunEnd(input: Input, done: set<nat>, t: Table, rank: map<nat, nat>, clock: nat, cur: nat)
    requires RunInv(input, done, t, [], rank, clock, cur)
    ensures forall n | n in t :: 0 < t[n].passId <= cur && Complete(input, t, n) && Exact(input, t, n)
  {
    forall n | n in t
      ensures !t[n].IsBot()
    {
      NoneBot(input, done, t, rank, clock, cur, n);
    }
    forall n | n in t
      ensures Complete(input, t, n) && LocalsOf(input[n]) <= t[n].fvs && 0 < t[n].passId <= cur
    {
      NodeOk(input, done, t, rank, clock, cur, n);
    }
    forall k, l | k in t && RefersTo(input, k, l)
      ensures l in t && t[l].fvs <= t[k].fvs
    {
      PassedOn(input, done, t, rank, clock, cur, k, l);
    }
    forall n | n in t
      ensures Exact(input, t, n)
    {
      NodeOk(input, done, t, rank, clock, cur, n);
      AllFound(input, t, n);
    }
  }

  lemma NodeOk(input: Input, done: set<nat>, t: Table, rank: map<nat, nat>, clock: nat, cur: nat, n: nat)
    requires RunInv(input, done, t, [], rank, clock, cur) && n in t
    ensures Complete(input, t, n) && Sound(input, t, n) && t[n].passId <= cur
  {
    if n in done {
      assert DoneOk(input, t, cur, n);
      forall d | d in LocalsOf(input[n])
        ensures d in t[n].fvs
      {
        FreeLocal(input, n, d);
      }
    } else {
      assert TodoOk(input, t, [], rank, cur, n);
    }
  }

  lemma PassedOn(input: Input, done: set<nat>, t: Table, rank: map<nat, nat>, clock: nat, cur: nat, k: nat, l: nat)
    requires RunInv(input, done, t, [], rank, clock, cur) && k in t && RefersTo(input, k, l)
    requires forall n | n in t :: !t[n].IsBot()
    ensures l in t && t[l].fvs <= t[k].fvs
  {
    NodeOk(input, done, t, rank, clock, cur, k);
    NodeOk(input, done, t, rank, clock, cur, l);
    if k in done {
      assert DoneOk(input, t, cur, k);
      forall d | d in t[l].fvs
        ensures d in t[k].fvs
      {
        FreeThrough(input, k, l, d);
      }
    } else {
      assert TodoOk(input, t, [], rank, cur, k);
    }
  }

  lemma AllFound(input: Input, t: Table, n: nat)
    requires n in t && n < |input| && Sound(input, t, n)
    requires forall k | k in t && k < |input| :: LocalsOf(input[k]) <= t[k].fvs
    requires forall k, l | k in t && RefersTo(input, k, l) :: l in t && t[l].fvs <= t[k].fvs
    ensures Exact(input, t, n)
  {
    var fvs := map k | k in t :: t[k].fvs;
    forall d | IsFree(input, n, d)
      ensures d in t[n].fvs
    {
      var p, m: nat :| Chain(input, p, n, m) && m < |input| && d in LocalsOf(input[m]);
      FreeIsLeast(input, fvs, p, n, m, d);
    }
  }

  /** The measure of the worklist: what is still missing from the sets, then the nodes not yet initialized. */
  ghost function Missing(input: Input, t: Table): set<(nat, nat)> {
    set n, d | n in t && d in AllLocals(input) && d !in t[n].fvs :: (n, d)
  }

  ghost predicate Less(input: Input, t: Table, t': Table, wl: seq<nat>, wl': seq<nat>) {
    || Missing(input, t') < Missing(input, t)
    || (Missing(input, t') == Missing(input, t)
        && (Bots(t') < Bots(t) || (Bots(t') == Bots(t) && |wl'| < |wl|)))
  }

  /** Earlier results stay. */
  ghost predicate Finished(t: Table, t': Table, n: nat)
    requires n in t
  {
    n in t' && t'[n].fvs == t[n].fvs && t'[n].passId == t[n].passId
  }

  ghost function AllLocals(input: Input): set<nat> {
    set n: nat, d | n < |input| && d in LocalsOf(input[n]) :: d
  }

  ghost function Bots(t: Table): set<nat> {
    set n | n in t && t[n].IsBot()
  }

  class FreeDefAna {
    const input: Input
    var curPassId: nat
    var nodes: Table
    /** When every node was created. */
    ghost var rank: map<nat, nat>
    ghost var clock: nat

    /** Between runs every node is finished and its set is exact. */
    ghost predicate Valid()
      reads this
    {
      && Closed(input) && 1 <= curPassId
      && Linked(nodes) && nodes.Keys <= Range(|input|)
      && (forall n | n in nodes :: n in rank && rank[n] < clock)
      && (forall n | n in nodes ::
            0 < nodes[n].passId <= curPassId && Complete(input, nodes, n) && Exact(input, nodes, n))
    }

    constructor (input: Input)
      requires Closed(input)
      ensures Valid() && this.input == input && nodes == map[] && curPassId == 1
    {
      this.input := input;
      curPassId := 1;
      nodes := map[];
      rank := map[];
      clock := 0;
    }

    method AddFv(node: nat, d: nat) returns (inserted: bool)
      requires node in nodes
      modifies this`nodes
      ensures nodes == old(nodes)[node := old(nodes)[node].(fvs := old(nodes)[node].fvs + {d})]
      ensures inserted == (d !in old(nodes)[node].fvs)
    {
      inserted := d !in nodes[node].fvs;
      nodes := nodes[node := nodes[node].(fvs := nodes[node].fvs + {d})];
    }

    /** Adds what node gets from fd, building nodes for the nominals discovered. */
    method SplitFd(node: nat, fd: Free, initNode: bool, worklist: seq<nat>, ghost old_: Table, ghost open: set<nat>)
      returns (init: bool, wl: seq<nat>)
      requires Closed(input) && BuildInv(input, old_, nodes, worklist, open, rank, clock)
      requires node in open && node in nodes && node < |input|
      requires Locals(fd) <= LocalsOf(input[node]) && Refs(fd) <= RefsOf(input[node])
      modifies this`nodes, this`rank, this`clock
      ensures BuildInv(input, old_, nodes, wl, open, rank, clock)
      ensures Split(old(nodes), nodes, node, old(rank), rank, old(clock), clock, Locals(fd), Refs(fd), initNode, init)
      decreases Range(|input|) - nodes.Keys, 1, fd, 1
    {
      init, wl := initNode, worklist;
      match fd
      case Toplevel =>
      case Param(id, isRet) =>
        if !isRet { SplitLocal(node, id, wl, old_, open); }
      case FreeBB(id) =>
        SplitLocal(node, id, wl, old_, open);
      case Opaque(id) =>
        SplitLocal(node, id, wl, old_, open);
      case Nominal(pred) =>
        if pred != node {
          init, wl := SplitNominal(node, pred, initNode, wl, old_, open);
        }
      case Compound(ops) =>
        init, wl := SplitAll(node, ops, initNode, wl, old_, open);
    }

    method SplitLocal(node: nat, d: nat, ghost wl: seq<nat>, ghost old_: Table, ghost open: set<nat>)
      requires BuildInv(input, old_, nodes, wl, open, rank, clock)
      requires node in open && node in nodes && node < |input| && d in LocalsOf(input[node])
      modifies this`nodes
      ensures BuildInv(input, old_, nodes, wl, open, rank, clock)
      ensures Grows(old(nodes), nodes, node, rank, rank, clock)
      ensures Absorbed(old(nodes), nodes, node, {d}, {})
    {
      AddLocal(input, old_, nodes, wl, open, rank, clock, node, {d});
      var _ := AddFv(node, d);
    }

    method SplitNominal(node: nat, pred: nat, initNode: bool, worklist: seq<nat>, ghost old_: Table,
                        ghost open: set<nat>)
      returns (init: bool, wl: seq<nat>)
      requires Closed(input) && BuildInv(input, old_, nodes, worklist, open, rank, clock)
      requires node in open && node in nodes && node < |input| && pred != node && pred in RefsOf(input[node])
      modifies this`nodes, this`rank, this`clock
      ensures BuildInv(input, old_, nodes, wl, open, rank, clock)
      ensures Split(old(nodes), nodes, node, old(rank), rank, old(clock), clock, {}, {pred}, initNode, init)
      decreases Range(|input|) - nodes.Keys, 1, Nominal(pred), 0
    {
      var inserted;
      inserted, wl := BuildNode(pred, worklist, old_, open);
      ghost var t1 := nodes;
      assert Keeps(old(nodes), t1, node);
      NominalNext(old(nodes), t1, LinkNodes(t1, node, pred), node, pred, old(rank), rank, old(clock), clock, initNode);
      AddPred(node, pred, wl, old_, open);
      init := initNode || inserted;
    }

    method AddPred(node: nat, pred: nat, ghost wl: seq<nat>, ghost old_: Table, ghost open: set<nat>)
      requires BuildInv(input, old_, nodes, wl, open, rank, clock)
      requires node in open && node in nodes && pred in nodes && node != pred && RefersTo(input, node, pred)
      modifies this`nodes
      ensures nodes == LinkNodes(old(nodes), node, pred) && BuildInv(input, old_, nodes, wl, open, rank, clock)
    {
      AddLink(input, old_, nodes, wl, open, rank, clock, node, pred);
      nodes := LinkNodes(nodes, node, pred);
    }

    method SplitAll(node: nat, fds: seq<Free>, initNode: bool, worklist: seq<nat>, ghost old_: Table,
                    ghost open: set<nat>)
      returns (init: bool, wl: seq<nat>)
      requires Closed(input) && BuildInv(input, old_, nodes, worklist, open, rank, clock)
      requires node in open && node in nodes && node < |input|
      requires LocalsOf(fds) <= LocalsOf(input[node]) && RefsOf(fds) <= RefsOf(input[node])
      modifies this`nodes, this`rank, this`clock
      ensures BuildInv(input, old_, nodes, wl, open, rank, clock)
      ensures Split(old(nodes), nodes, node, old(rank), rank, old(clock), clock, LocalsOf(fds), RefsOf(fds), initNode,
              init)
      decreases Range(|input|) - nodes.Keys, 1, Compound(fds), 0
    {
      init, wl := initNode, worklist;
      ghost var t0, rank0, clock0 := nodes, rank, clock;
      for i := 0 to |fds|
        invariant BuildInv(input, old_, nodes, wl, open, rank, clock)
        invariant Split(t0, nodes, node, rank0, rank, clock0, clock, LocalsOf(fds[..i]), RefsOf(fds[..i]), initNode,
                  init)
      {
        ghost var t1, rank1, clock1, init1 := nodes, rank, clock, init;
        PartsOf(fds, i);
        init, wl := SplitFd(node, fds[i], init, wl, old_, open);
        SplitNext(t0, t1, nodes, node, rank0, rank1, rank, clock0, clock1, clock, fds, i, initNode, init1, init);
      }
      assert fds[..|fds|] == fds;
    }

    /** The node of nom, built if there is none yet. */
    method BuildNode(nom: nat, worklist: seq<nat>, ghost old_: Table, ghost open: set<nat>)
      returns (inserted: bool, wl: seq<nat>)
      requires Closed(input) && BuildInv(input, old_, nodes, worklist, open, rank, clock) && nom < |input|
      modifies this`nodes, this`rank, this`clock
      ensures BuildInv(input, old_, nodes, wl, open, rank, clock)
      ensures nom in nodes && inserted == (nom !in old(nodes))
      ensures !inserted ==> nodes == old(nodes) && wl == worklist
      ensures Built(old(nodes), nodes, old(rank), rank, old(clock), clock)
      decreases Range(|input|) - nodes.Keys, 0
    {
      if nom in nodes {
        return false, worklist;
      }
      ghost var t0, rank0, clock0 := nodes, rank, clock;
      Open(input, old_, nodes, worklist, open, rank, clock, nom);
      nodes, rank, clock := nodes[nom := Node({}, [], [], 0)], rank[nom := clock], clock + 1;
      ghost var t1 := nodes;
      ghost var rank1, clock1 := rank, clock;
      assert nom in Range(|input|) - t0.Keys;
      assert nom in open ==> OpenOk(input, t0, nom);
      var init;
      init, wl := SplitAll(nom, input[nom], false, worklist, old_, open + {nom});
      BuiltNext(t0, t1, nodes, nom, rank0, rank1, rank, clock0, clock1, clock, LocalsOf(input[nom]),
          RefsOf(input[nom]), init);
      ghost var wl0 := wl;
      if !init {
        wl := wl + [nom];
      }
      Finish(input, old_, nodes, wl0, wl, open, rank, clock, nom);
      inserted := true;
    }

    predicate IsDone(n: nat)
      requires n in nodes
      reads this
    {
      !nodes[n].IsBot() && nodes[n].passId < curPassId
    }

    method Mark(n: nat)
      requires n in nodes
      modifies this`nodes
      ensures nodes == old(nodes)[n := old(nodes)[n].(passId := curPassId)]
    {
      nodes := nodes[n := nodes[n].(passId := curPassId)];
    }

    /** Adds p's set to n's. */
    method Union(n: nat, p: nat) returns (changed: bool)
      requires n in nodes && p in nodes && n != p
      modifies this`nodes
      ensures nodes == old(nodes)[n := old(nodes)[n].(fvs := old(nodes)[n].fvs + old(nodes)[p].fvs)]
      ensures changed == !(old(nodes)[p].fvs <= old(nodes)[n].fvs)
    {
      ghost var t, have := nodes, nodes[n].fvs;
      changed := false;
      var todo := nodes[p].fvs;
      while todo != {}
        invariant todo <= t[p].fvs
        invariant nodes == t[n := t[n].(fvs := have)] && have == t[n].fvs + (t[p].fvs - todo)
        invariant changed == !(t[p].fvs - todo <= t[n].fvs)
      {
        var d :| d in todo;
        var inserted := AddFv(n, d);
        changed := changed || inserted;
        todo := todo - {d};
        have := have + {d};
      }
      assert have == t[n].fvs + t[p].fvs;
    }

    /** Processes the worklist until it is empty. */
    method RunWorklist(worklist: seq<nat>, ghost done: set<nat>)
      requires Closed(input) && done <= nodes.Keys && RunInv(input, done, nodes, worklist, rank, clock, curPassId)
      modifies this`nodes
      ensures nodes.Keys == old(nodes.Keys) && RunInv(input, done, nodes, [], rank, clock, curPassId)
      ensures forall n | n in done :: nodes[n] == old(nodes)[n]
    {
      ghost var t0 := nodes;
      var wl := worklist;
      while wl != []
        invariant nodes.Keys == t0.Keys && RunInv(input, done, nodes, wl, rank, clock, curPassId)
        invariant forall n | n in done :: nodes[n] == t0[n]
        decreases Missing(input, nodes), Bots(nodes), |wl|
      {
        wl := RunFront(wl, done);
      }
    }

    /** Processes the front of the worklist. */
    method RunFront(wl: seq<nat>, ghost done: set<nat>) returns (wl': seq<nat>)
      requires wl != [] && RunInv(input, done, nodes, wl, rank, clock, curPassId)
      modifies this`nodes
      ensures nodes.Keys == old(nodes.Keys) && RunInv(input, done, nodes, wl', rank, clock, curPassId)
      ensures forall n | n in done && n in old(nodes) :: nodes[n] == old(nodes)[n]
      ensures Less(input, old(nodes), nodes, wl, wl')
    {
      var n := wl[0];
      wl' := wl[1..];
      ghost var t := nodes;
      if n in done { assert DoneOk(input, t, curPassId, n); } else { assert TodoOk(input, t, wl, rank, curPassId, n); }
      if IsDone(n) {
        SkipDone(input, done, nodes, wl, rank, clock, curPassId);
        return;
      }
      var changed := Process(n);
      if changed {
        wl' := wl' + nodes[n].succs;
      }
      StaysSound(input, done, t, nodes, wl, rank, clock, curPassId, n);
      RunStep(input, done, t, nodes, wl, wl', rank, clock, curPassId, n, changed);
      Shrinks(input, t, nodes, curPassId, n);
    }

    /** The definitions free in lam, computed now or in an earlier run. */
    method Run(lam: nat) returns (fvs: set<nat>)
      requires Valid() && lam < |input|
      modifies this
      ensures Valid() && forall d: nat :: d in fvs <==> Captures(input, lam, d)
      ensures forall n | n in old(nodes) :: Finished(old(nodes), nodes, n)
      ensures lam in nodes && nodes[lam].fvs == fvs
    {
      ghost var t := nodes;
      var inserted, worklist := BuildNode(lam, [], t, {});
      ghost var built := nodes;
      assert inserted ==> Fresh(built, rank, old(clock), lam);
      assert forall n | n in t :: Keeps(t, built, n);
      if !IsDone(lam) {
        curPassId := curPassId + 1;
        assert forall n | n in t :: DoneOk(input, t, curPassId, n);
        RunStart(input, t, nodes, worklist, rank, clock, curPassId);
        RunWorklist(worklist, t.Keys);
        RunEnd(input, t.Keys, nodes, rank, clock, curPassId);
        assert forall n | n in t :: nodes[n] == built[n];
      }
      assert Exact(input, nodes, lam);
      fvs := nodes[lam].fvs;
      forall d: nat
        ensures IsFree(input, lam, d) <==> Captures(input, lam, d)
      {
        FreeIsCaptured(input, lam, d);
      }
    }

    /** Marks n and takes over the sets of its predecessors. */
    method Process(n: nat) returns (changed: bool)
      requires n in nodes && n !in nodes[n].preds && forall p | p in nodes[n].preds :: p in nodes
      requires 0 < curPassId && (nodes[n].passId == 0 || nodes[n].passId == curPassId)
      modifies this`nodes
      ensures n in nodes && nodes == old(nodes)[n := nodes[n]]
      ensures nodes[n] == old(nodes)[n].(fvs := nodes[n].fvs, passId := curPassId)
      ensures FromPreds(old(nodes), nodes[n].fvs, n, |old(nodes)[n].preds|)
      ensures !changed ==> nodes == old(nodes)
      ensures changed ==> nodes[n].fvs != old(nodes)[n].fvs || old(nodes)[n].IsBot()
    {
      ghost var t := nodes;
      changed := nodes[n].IsBot();
      Mark(n);
      var preds := nodes[n].preds;
      for i := 0 to |preds|
        invariant n in nodes && nodes == t[n := nodes[n]] && nodes[n] == t[n].(fvs := nodes[n].fvs, passId := curPassId)
        invariant FromPreds(t, nodes[n].fvs, n, i)
        invariant changed == (t[n].IsBot() || nodes[n].fvs != t[n].fvs)
      {
        var more := Union(n, preds[i]);
        changed := changed || more;
      }
    }
  }

  /** The union of n's set and those of its first i predecessors. */
  ghost predicate FromPreds(t: Table, fvs: set<nat>, n: nat, i: nat)
    requires n in t && i <= |t[n].preds| && forall p | p in t[n].preds :: p in t
  {
    && t[n].fvs <= fvs
    && (forall j | 0 <= j < i :: t[t[n].preds[j]].fvs <= fvs)
    && (forall d | d in fvs :: d in t[n].fvs || exists j :: 0 <= j < i && d in t[t[n].preds[j]].fvs)
  }

  lemma SkipDone(input: Input, done: set<nat>, t: Table, wl: seq<nat>, rank: map<nat, nat>, clock: nat, cur: nat)
    requires RunInv(input, done, t, wl, rank, clock, cur) && wl != [] && 0 < t[wl[0]].passId < cur
    ensures RunInv(input, done, t, wl[1..], rank, clock, cur)
  {
    forall m {:trigger TodoOk(input, t, wl[1..], rank, cur, m)} | m in t && m !in done
      ensures TodoOk(input, t, wl[1..], rank, cur, m)
    {
      assert TodoOk(input, t, wl, rank, cur, m);
    }
  }

  lemma StaysSound(input: Input, done: set<nat>, t: Table, t': Table, wl: seq<nat>, rank: map<nat, nat>, clock: nat,
                   cur: nat, n: nat)
    requires RunInv(input, done, t, wl, rank, clock, cur) && n in t && n !in done
    requires n in t' && FromPreds(t, t'[n].fvs, n, |t[n].preds|)
    ensures Sound(input, t', n) && forall p | p in t[n].preds && p in t :: t[p].fvs <= t'[n].fvs
  {
    assert TodoOk(input, t, wl, rank, cur, n);
    forall d | d in t'[n].fvs
      ensures IsFree(input, n, d)
    {
      if d !in t[n].fvs {
        var j :| 0 <= j < |t[n].preds| && d in t[t[n].preds[j]].fvs;
        var p := t[n].preds[j];
        if p in done { assert DoneOk(input, t, cur, p); } else { assert TodoOk(input, t, wl, rank, cur, p); }
        FreeThrough(input, n, p, d);
      }
    }
  }

  lemma Shrinks(input: Input, t: Table, t': Table, cur: nat, n: nat)
    requires n in t && n in t' && t' == t[n := t'[n]] && t'[n] == t[n].(fvs := t'[n].fvs, passId := cur) && 0 < cur
    requires t[n].fvs <= t'[n].fvs && Sound(input, t', n)
    ensures Missing(input, t') <= Missing(input, t) && Bots(t') <= Bots(t)
    ensures t'[n].fvs != t[n].fvs ==> Missing(input, t') < Missing(input, t)
    ensures t[n].IsBot() ==> Bots(t') < Bots(t)
  {
    if t'[n].fvs != t[n].fvs {
      var d :| d in t'[n].fvs && d !in t[n].fvs;
      assert IsFree(input, n, d);
      assert (n, d) in Missing(input, t) && (n, d) !in Missing(input, t');
    }
    if t[n].IsBot() {
      assert n in Bots(t) && n !in Bots(t');
    }
  }

  lemma PartsOf(fds: seq<Free>, i: nat)
    requires i < |fds|
    ensures LocalsOf(fds[..i + 1]) == LocalsOf(fds[..i]) + Locals(fds[i]) && Locals(fds[i]) <= LocalsOf(fds)
    ensures RefsOf(fds[..i + 1]) == RefsOf(fds[..i]) + Refs(fds[i]) && Refs(fds[i]) <= RefsOf(fds)
  {
    assert fds[..i + 1][..i] == fds[..i];
    PrefixOf(fds, i + 1);
  }

  lemma {:induction false} PrefixOf(fds: seq<Free>, i: nat)
    requires i <= |fds|
    ensures LocalsOf(fds[..i]) <= LocalsOf(fds) && RefsOf(fds[..i]) <= RefsOf(fds)
    decreases |fds|
  {
    if i < |fds| {
      PrefixOf(fds[..|fds| - 1], i);
      assert fds[..|fds| - 1][..i] == fds[..i];
    } else {
      assert fds[..i] == fds;
    }
  }
}
