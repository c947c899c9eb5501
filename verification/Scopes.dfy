/** What is bound by the variable of a nominal, and what is free. */
module Scopes {
  import opened Wrappers
  import Graphs

  /** All definitions by number: operands and users, and what kind of definition it is. */
  datatype Defs = Defs(ops: seq<seq<nat>>, uses: seq<seq<nat>>, isConst: seq<bool>, isNom: seq<bool>,
                       isVar: seq<bool>) {
    /** Users of what is not constant are recorded; constants depend on constants only; structural definitions come
        after their operands. */
    ghost predicate Valid() {
      var n := |ops|;
      && |uses| == |isConst| == |isNom| == |isVar| == n
      && (forall d, o | 0 <= d < n && o in ops[d] :: o < n)
      && (forall d, u: nat | 0 <= d < n && !isConst[d] :: u in uses[d] <==> Uses(u, d))
      && (forall d | 0 <= d < n && isConst[d] :: !isVar[d] && !isNom[d] && forall o | o in ops[d] :: isConst[o])
      && (forall d, o | 0 <= d < n && !isNom[d] && o in ops[d] :: o < d)
    }

    predicate Const(d: nat) {
      d < |isConst| && isConst[d]
    }

    predicate Nom(d: nat) {
      d < |isNom| && isNom[d]
    }

    predicate Variable(d: nat) {
      d < |isVar| && isVar[d]
    }

    predicate Uses(u: nat, d: nat) {
      u < |ops| && d in ops[u]
    }

    /** From definition to operand, keeping clear of entry and exit. */
    ghost predicate Path(p: seq<nat>, entry: nat, exit: nat) {
      && |p| > 0 && (forall i | 0 <= i < |p| :: p[i] < |ops| && p[i] != entry && p[i] != exit)
      && forall i | 0 <= i < |p| - 1 :: StepAt(p, i)
    }

    ghost predicate StepAt(p: seq<nat>, i: int)
      requires 0 <= i < |p| - 1
    {
      Uses(p[i], p[i + 1])
    }
  }

  /** d refers to v, other than through entry. */
  ghost predicate Refers(g: Defs, entry: nat, exit: nat, v: Option<nat>, d: nat) {
    v.Some? && exists p :: g.Path(p, entry, exit) && p[0] == d && p[|p| - 1] == v.value
  }

  /** d can be reached from an operand of entry, other than through entry. */
  ghost predicate Reached(g: Defs, entry: nat, exit: nat, d: nat) {
    exists p :: g.Path(p, entry, exit) && g.Uses(entry, p[0]) && p[|p| - 1] == d
  }

  lemma RefersStep(g: Defs, entry: nat, exit: nat, v: Option<nat>, u: nat, d: nat)
    requires g.Valid() && Refers(g, entry, exit, v, d) && g.Uses(u, d) && u != entry && u != exit
    ensures Refers(g, entry, exit, v, u)
  {
    var p :| g.Path(p, entry, exit) && p[0] == d && p[|p| - 1] == v.value;
    var q := [u] + p;
    forall i | 0 <= i < |q| - 1
      ensures g.StepAt(q, i)
    {
      if i > 0 { assert g.StepAt(p, i - 1); }
    }
    assert g.Path(q, entry, exit);
  }

  lemma ReachedStep(g: Defs, entry: nat, exit: nat, d: nat, o: nat)
    requires g.Valid() && Reached(g, entry, exit, d) && g.Uses(d, o) && o != entry && o != exit
    ensures Reached(g, entry, exit, o)
  {
    var p :| g.Path(p, entry, exit) && g.Uses(entry, p[0]) && p[|p| - 1] == d;
    var q := p + [o];
    forall i | 0 <= i < |q| - 1
      ensures g.StepAt(q, i)
    {
      if i < |p| - 1 { assert g.StepAt(p, i); }
    }
    assert g.Path(q, entry, exit);
  }

  /** What is closed under users, but for entry and exit, and has the variable has all that refers to it. */
  lemma {:induction false} AllRefer(g: Defs, entry: nat, exit: nat, s: set<nat>, p: seq<nat>)
    requires g.Path(p, entry, exit) && p[|p| - 1] in s
    requires forall u: nat, d: nat | d in s && g.Uses(u, d) && u != entry && u != exit :: u in s
    ensures p[0] in s
    decreases |p|
  {
    if |p| > 1 {
      assert g.StepAt(p, 0);
      Tail(g, entry, exit, p);
      AllRefer(g, entry, exit, s, p[1..]);
    }
  }

  lemma Tail(g: Defs, entry: nat, exit: nat, p: seq<nat>)
    requires g.Path(p, entry, exit) && |p| > 1
    ensures g.Path(p[1..], entry, exit)
  {
    forall i | 0 <= i < |p[1..]| - 1
      ensures g.StepAt(p[1..], i)
    {
      assert g.StepAt(p, i + 1);
    }
  }

  /** Whatever refers to a variable is not constant. */
  lemma {:induction false} NotConst(g: Defs, entry: nat, exit: nat, p: seq<nat>)
    requires g.Valid() && g.Path(p, entry, exit) && g.Variable(p[|p| - 1])
    ensures !g.Const(p[0])
    decreases |p|
  {
    if |p| > 1 {
      assert g.StepAt(p, 0);
      Tail(g, entry, exit, p);
      NotConst(g, entry, exit, p[1..]);
    }
  }

  /** All nodes of a path to something that refers to the variable refer to it. */
  lemma {:induction false} PathRefers(g: Defs, entry: nat, exit: nat, v: Option<nat>, p: seq<nat>, i: nat)
    requires g.Valid() && g.Path(p, entry, exit) && Refers(g, entry, exit, v, p[|p| - 1]) && i < |p|
    ensures Refers(g, entry, exit, v, p[i])
    decreases |p| - i
  {
    if i < |p| - 1 {
      PathRefers(g, entry, exit, v, p, i + 1);
      assert g.StepAt(p, i);
      RefersStep(g, entry, exit, v, p[i], p[i + 1]);
    }
  }

  /** What is closed under operands that refer to the variable, and has those of entry, has all of them. */
  lemma {:induction false} AllLive(g: Defs, entry: nat, exit: nat, v: Option<nat>, live: set<nat>, p: seq<nat>, i: nat)
    requires g.Valid() && g.Path(p, entry, exit) && g.Uses(entry, p[0]) && Refers(g, entry, exit, v, p[|p| - 1])
             && i < |p|
    requires forall o: nat | g.Uses(entry, o) && Refers(g, entry, exit, v, o) :: o in live
    requires forall d: nat, o: nat | d in live && g.Uses(d, o) && Refers(g, entry, exit, v, o) :: o in live
    ensures p[i] in live
    decreases i
  {
    PathRefers(g, entry, exit, v, p, i);
    if i > 0 {
      AllLive(g, entry, exit, v, live, p, i - 1);
      assert g.StepAt(p, i - 1);
    }
  }

  class Scope {
    const g: Defs
    const entry: nat
    const exit: nat
    const entryVar: Option<nat>
    var hasBound: bool
    var hasFree: bool
    var bound: set<nat>
    var freeDefs: set<nat>
    var freeVars: set<nat>
    var freeNoms: set<nat>

    ghost predicate InputOk() {
      && g.Valid() && entry < |g.ops| && g.Nom(entry)
      && (entryVar.Some? ==>
            entryVar.value < |g.ops| && g.Variable(entryVar.value)
            && entryVar.value != entry && entryVar.value != exit)
    }

    /** Some reached definition, or entry, has d for an operand. */
    ghost predicate Mentioned(d: nat) {
      g.Uses(entry, d) || exists b: nat :: g.Uses(b, d) && IsBound(b)
    }

    ghost predicate IsBound(d: nat) {
      Refers(g, entry, exit, entryVar, d) && Reached(g, entry, exit, d)
    }

    ghost predicate IsFree(d: nat) {
      d < |g.ops| && !g.Const(d) && !Refers(g, entry, exit, entryVar, d) && Mentioned(d)
    }

    ghost predicate Valid()
      reads this
    {
      && InputOk()
      && (if hasBound then
            (forall d: nat :: d in bound <==> IsBound(d)) && (forall d: nat :: d in freeDefs <==> IsFree(d))
          else (forall d: nat :: d in bound <==> Refers(g, entry, exit, entryVar, d)) && freeDefs == {} && !hasFree)
      && (hasFree ==> forall d: nat :: (d in freeVars <==> FreeBelow(g, freeDefs, d) && g.Variable(d))
                                    && (d in freeNoms <==> FreeBelow(g, freeDefs, d) && g.Nom(d) && !g.Variable(d)))
      && (!hasFree ==> freeVars == {} && freeNoms == {})
    }

    constructor (g: Defs, entry: nat, exit: nat, entryVar: Option<nat>)
      requires g.Valid() && entry < |g.ops| && g.Nom(entry)
      requires entryVar.Some? ==>
                 entryVar.value < |g.ops| && g.Variable(entryVar.value)
                 && entryVar.value != entry && entryVar.value != exit
      ensures Valid() && this.g == g && this.entry == entry && this.exit == exit && this.entryVar == entryVar
              && !hasBound && !hasFree
    {
      this.g, this.entry, this.exit, this.entryVar := g, entry, exit, entryVar;
      hasBound, hasFree, bound, freeDefs, freeVars, freeNoms := false, false, {}, {}, {}, {};
      new;
      Run();
    }

    /** Walks from the variable to its users, their users, and so on. */
    method Run()
      requires InputOk() && bound == {}
      modifies this`bound
      ensures forall d: nat :: d in bound <==> Refers(g, entry, exit, entryVar, d)
    {
      if entryVar.None? { return; }
      var v := entryVar.value;
      var queue := [v];
      bound := {v};
      assert g.Path([v], entry, exit);
      while queue != []
        invariant v in bound && forall d | d in bound :: Refers(g, entry, exit, entryVar, d)
        invariant forall d | d in queue :: d in bound
        invariant forall u: nat, d: nat | d in bound && d !in queue && g.Uses(u, d) && u != entry && u != exit ::
                  u in bound
        decreases Graphs.Range(|g.ops|) - bound, |queue|
      {
        var d := queue[0];
        ghost var rest := queue[1..];
        queue := PushUses(d, queue[1..]);
      }
      forall d: nat | Refers(g, entry, exit, entryVar, d)
        ensures d in bound
      {
        var p :| g.Path(p, entry, exit) && p[0] == d && p[|p| - 1] == v;
        AllRefer(g, entry, exit, bound, p);
      }
    }

    /** Enqueues the users of d that are new. */
    method PushUses(d: nat, queue: seq<nat>) returns (queue': seq<nat>)
      requires InputOk() && d in bound && Refers(g, entry, exit, entryVar, d)
      requires forall e | e in queue :: e in bound
      modifies this`bound
      ensures old(bound) <= bound
              && forall e | e in bound && e !in old(bound) :: Refers(g, entry, exit, entryVar, e) && e in queue'
      ensures forall e | e in queue :: e in queue'
      ensures forall e | e in queue' :: e in bound
      ensures bound == old(bound) ==> queue' == queue
      ensures forall u: nat | g.Uses(u, d) && u != entry && u != exit :: u in bound
    {
      queue' := queue;
      var uses := g.uses[d];
      ghost var p :| g.Path(p, entry, exit) && p[0] == d && p[|p| - 1] == entryVar.value;
      NotConst(g, entry, exit, p);
      for i := 0 to |uses|
        invariant old(bound) <= bound
                  && forall e | e in bound && e !in old(bound) :: Refers(g, entry, exit, entryVar, e) && e in queue'
        invariant forall e | e in queue :: e in queue'
        invariant forall e | e in queue' :: e in bound
        invariant bound == old(bound) ==> queue' == queue
        invariant forall k | 0 <= k < i && uses[k] != entry && uses[k] != exit :: uses[k] in bound
      {
        var u := uses[i];
        assert g.Uses(u, d);
        if u != entry && u != exit && u !in bound {
          RefersStep(g, entry, exit, entryVar, u, d);
          bound := bound + {u};
          queue' := queue' + [u];
        }
      }
    }

    /** Keeps what can be reached from entry; what is not bound there is free. */
    method CalcBound()
      requires Valid()
      modifies this`hasBound, this`bound, this`freeDefs
      ensures Valid() && hasBound
    {
      if hasBound { return; }
      var live := WalkDown();
      AllBound(live);
      bound := live;
      hasBound := true;
    }

    /** Walks from entry to the operands, their operands, and so on. */
    method WalkDown() returns (live: set<nat>)
      requires InputOk() && freeDefs == {} && forall d: nat :: d in bound <==> Refers(g, entry, exit, entryVar, d)
      modifies this`freeDefs
      ensures EnqueuedOps(entry, live) && forall d | d in live :: IsBound(d) && EnqueuedOps(d, live)
      ensures forall d | d in freeDefs :: IsFree(d)
    {
      var queue;
      live, queue := EnqueueOps(entry, {}, []);
      while queue != []
        invariant forall d | d in live :: IsBound(d)
        invariant forall d | d in queue :: d in live
        invariant forall d | d in freeDefs :: IsFree(d)
        invariant EnqueuedOps(entry, live)
        invariant forall d | d in live && d !in queue :: EnqueuedOps(d, live)
        decreases Graphs.Range(|g.ops|) - live, |queue|
      {
        var d := queue[0];
        ghost var before := live;
        live, queue := EnqueueOps(d, live, queue[1..]);
        Shrinks(before, live);
      }
    }

    /** Collects the variables and nominals below the free definitions. */
    method CalcFree()
      requires Valid() && hasBound
      modifies this`hasFree, this`freeVars, this`freeNoms
      ensures Valid() && hasFree
    {
      if hasFree { return; }
      AllStart();
      FindFree();
      hasFree := true;
    }

    method FindFree()
      requires FreeInv({}, []) && forall d {:trigger FreeBelow(g, freeDefs, d)} | d in freeDefs ::
               FreeBelow(g, freeDefs, d)
      modifies this`freeVars, this`freeNoms
      ensures forall d: nat :: (d in freeVars <==> FreeBelow(g, freeDefs, d) && g.Variable(d))
                            && (d in freeNoms <==> FreeBelow(g, freeDefs, d) && g.Nom(d) && !g.Variable(d))
    {
      var done, queue := EnqueueFreeDefs();
      while queue != []
        invariant FreeInv(done, queue) && freeDefs == old(freeDefs)
        invariant forall d {:trigger Enqueued(d, done)} | d in freeDefs :: Enqueued(d, done)
        invariant OpsEnqueued(done, queue)
        decreases Graphs.Range(|g.ops|) - done, |queue|
      {
        var d := queue[0];
        ghost var before := done;
        done, queue := EnqueueFreeOps(d, done, queue[1..]);
        FreeShrinks(before, done);
      }
      AllFree(done);
    }

    /** The operands of what is done and not in the queue have been looked at. */
    ghost predicate OpsEnqueued(done: set<nat>, queue: seq<nat>)
      reads this`freeVars, this`freeNoms
    {
      forall d, o: nat {:trigger d in done, g.Uses(d, o)} | d in done && d !in queue && g.Uses(d, o) ::
          Enqueued(o, done)
    }

    method EnqueueFreeDefs() returns (done: set<nat>, queue: seq<nat>)
      requires FreeInv({}, []) && forall d {:trigger FreeBelow(g, freeDefs, d)} | d in freeDefs ::
               FreeBelow(g, freeDefs, d)
      modifies this`freeVars, this`freeNoms
      ensures FreeInv(done, queue) && (forall d | d in done :: d in queue)
      ensures forall d {:trigger Enqueued(d, done)} | d in freeDefs :: Enqueued(d, done)
    {
      done, queue := {}, [];
      var rest := freeDefs;
      while rest != {}
        invariant FreeInv(done, queue) && rest <= freeDefs && forall d | d in done :: d in queue
        invariant forall d {:trigger Enqueued(d, done)} | d in freeDefs && d !in rest :: Enqueued(d, done)
      {
        var d :| d in rest;
        done, queue := EnqueueFree(d, done, queue);
        rest := rest - {d};
      }
    }

    /** What has been collected is below the free definitions, and sorted by kind. */
    ghost predicate FreeInv(done: set<nat>, queue: seq<nat>)
      reads this`freeDefs, this`freeVars, this`freeNoms
    {
      && InputOk()
      && (forall d {:trigger FreeBelow(g, freeDefs, d)} {:trigger d in done} | d in done ::
            FreeBelow(g, freeDefs, d) && !g.Variable(d) && !g.Nom(d))
      && (forall d {:trigger FreeBelow(g, freeDefs, d)} {:trigger d in freeVars} | d in freeVars ::
            FreeBelow(g, freeDefs, d) && g.Variable(d))
      && (forall d {:trigger FreeBelow(g, freeDefs, d)} {:trigger d in freeNoms} | d in freeNoms ::
            FreeBelow(g, freeDefs, d) && g.Nom(d) && !g.Variable(d))
      && (forall d | d in queue :: d in done)
    }

    ghost predicate Enqueued(d: nat, done: set<nat>)
      reads this`freeVars, this`freeNoms
    {
      g.Const(d) || if g.Variable(d) then d in freeVars else if g.Nom(d) then d in freeNoms else d in done
    }

    method EnqueueFree(d: nat, done: set<nat>, queue: seq<nat>) returns (done': set<nat>, queue': seq<nat>)
      requires FreeInv(done, queue) && (g.Const(d) || FreeBelow(g, freeDefs, d))
      modifies this`freeVars, this`freeNoms
      ensures FreeInv(done', queue') && Enqueued(d, done') && done <= done'
      ensures forall e: nat {:trigger Enqueued(e, done')} | old(Enqueued(e, done)) :: Enqueued(e, done')
      ensures if done' == done then queue' == queue else queue' == queue + [d] && done' == done + {d}
    {
      done', queue' := done, queue;
      if g.Const(d) { return; }
      if g.Variable(d) {
        freeVars := freeVars + {d};
      } else if g.Nom(d) {
        freeNoms := freeNoms + {d};
      } else if d !in done {
        done', queue' := done + {d}, queue + [d];
      }
    }

    method EnqueueFreeOps(d: nat, done: set<nat>, queue: seq<nat>) returns (done': set<nat>, queue': seq<nat>)
      requires FreeInv(done, queue) && d in done
      modifies this`freeVars, this`freeNoms
      ensures FreeInv(done', queue') && done <= done'
      ensures forall o: nat | g.Uses(d, o) :: Enqueued(o, done')
      ensures forall e: nat {:trigger Enqueued(e, done')} | old(Enqueued(e, done)) :: Enqueued(e, done')
      ensures forall e | e in done' && e !in done :: e in queue'
      ensures forall e | e in queue :: e in queue'
      ensures done' == done ==> queue' == queue
    {
      done', queue' := done, queue;
      FreeRange(d);
      var ops := g.ops[d];
      for i := 0 to |ops|
        invariant FreeInv(done', queue') && done <= done'
        invariant forall k | 0 <= k < i :: Enqueued(ops[k], done')
        invariant forall e: nat {:trigger Enqueued(e, done')} | old(Enqueued(e, done)) :: Enqueued(e, done')
        invariant forall e | e in done' && e !in done :: e in queue'
        invariant forall e | e in queue :: e in queue'
        invariant done' == done ==> queue' == queue
      {
        if !g.Const(ops[i]) { FreeStep(d, ops[i]); }
        done', queue' := EnqueueFree(ops[i], done', queue');
      }
    }

    lemma AllStart()
      requires Valid() && hasBound
      ensures forall d {:trigger FreeBelow(g, freeDefs, d)} | d in freeDefs :: FreeBelow(g, freeDefs, d)
    {
      forall d {:trigger FreeBelow(g, freeDefs, d)} | d in freeDefs
        ensures FreeBelow(g, freeDefs, d)
      {
        FreeStart(d);
      }
    }

    lemma FreeStart(d: nat)
      requires Valid() && hasBound && d in freeDefs
      ensures FreeBelow(g, freeDefs, d)
    {
      assert IsFree(d);
      assert Below(g, freeDefs, [d]);
    }

    lemma FreeRange(d: nat)
      requires FreeBelow(g, freeDefs, d)
      ensures d < |g.ops|
    {
    }

    lemma FreeStep(d: nat, o: nat)
      requires InputOk() && FreeBelow(g, freeDefs, d) && !g.Variable(d) && !g.Nom(d) && g.Uses(d, o) && !g.Const(o)
      ensures FreeBelow(g, freeDefs, o)
    {
      var p :| Below(g, freeDefs, p) && p[|p| - 1] == d;
      var q := p + [o];
      forall i | 0 <= i < |q| - 1
        ensures g.StepAt(q, i) && !g.Variable(q[i]) && !g.Nom(q[i])
      {
        if i < |p| - 1 { assert g.StepAt(p, i); }
      }
      assert Below(g, freeDefs, q);
    }

    lemma FreeShrinks(s: set<nat>, t: set<nat>)
      requires s <= t && forall d | d in t :: FreeBelow(g, freeDefs, d)
      ensures s != t ==> Graphs.Range(|g.ops|) - t < Graphs.Range(|g.ops|) - s
    {
      if s != t {
        var d :| d in t && d !in s;
        assert d in Graphs.Range(|g.ops|) - s && d !in Graphs.Range(|g.ops|) - t;
      }
    }

    lemma AllFree(done: set<nat>)
      requires FreeInv(done, []) && (forall d | d in freeDefs :: Enqueued(d, done)) && OpsEnqueued(done, [])
      ensures forall d: nat :: (d in freeVars <==> FreeBelow(g, freeDefs, d) && g.Variable(d))
                            && (d in freeNoms <==> FreeBelow(g, freeDefs, d) && g.Nom(d) && !g.Variable(d))
    {
      forall d: nat | FreeBelow(g, freeDefs, d)
        ensures Enqueued(d, done) && !g.Const(d)
      {
        var p :| Below(g, freeDefs, p) && p[|p| - 1] == d;
        AllBelow(done, p, |p| - 1);
      }
    }

    lemma {:induction false} AllBelow(done: set<nat>, p: seq<nat>, i: nat)
      requires Below(g, freeDefs, p) && i < |p| && (forall d | d in freeDefs :: Enqueued(d, done))
               && OpsEnqueued(done, [])
      ensures Enqueued(p[i], done)
    {
      if i > 0 {
        AllBelow(done, p, i - 1);
        assert g.StepAt(p, i - 1) && !g.Variable(p[i - 1]) && !g.Nom(p[i - 1]);
      }
    }

    /** The operands of d have been looked at. */
    ghost predicate EnqueuedOps(d: nat, live: set<nat>)
      reads this`bound, this`freeDefs
    {
      forall o: nat | g.Uses(d, o) && !g.Const(o) :: if o in bound then o in live else o in freeDefs
    }

    method EnqueueOps(d: nat, live: set<nat>, queue: seq<nat>) returns (live': set<nat>, queue': seq<nat>)
      requires InputOk() && (d == entry || IsBound(d))
      requires forall e: nat :: e in bound <==> Refers(g, entry, exit, entryVar, e)
      requires (forall e | e in live :: IsBound(e)) && (forall e | e in queue :: e in live)
               && forall e | e in freeDefs :: IsFree(e)
      modifies this`freeDefs
      ensures (forall e | e in live' :: IsBound(e)) && (forall e | e in queue' :: e in live')
              && forall e | e in freeDefs :: IsFree(e)
      ensures live <= live' && old(freeDefs) <= freeDefs && EnqueuedOps(d, live')
      ensures forall e | e in live' && e !in live :: e in queue'
      ensures forall e | e in queue :: e in queue'
      ensures live' == live ==> queue' == queue
    {
      live', queue' := live, queue;
      InRange(d);
      var ops := g.ops[d];
      for i := 0 to |ops|
        invariant (forall e | e in live' :: IsBound(e)) && (forall e | e in queue' :: e in live')
                  && forall e | e in freeDefs :: IsFree(e)
        invariant live <= live' && old(freeDefs) <= freeDefs
        invariant forall e | e in live' && e !in live :: e in queue'
        invariant forall e | e in queue :: e in queue'
        invariant live' == live ==> queue' == queue
        invariant forall k | 0 <= k < i && !g.Const(ops[k]) :: if ops[k] in bound then ops[k] in live'
                  else ops[k] in freeDefs
      {
        var o := ops[i];
        assert g.Uses(d, o);
        if !g.Const(o) {
          if o in bound {
            BoundStep(d, o);
            if o !in live' {
              live', queue' := live' + {o}, queue' + [o];
            }
          } else {
            assert Mentioned(o);
            freeDefs := freeDefs + {o};
          }
        }
      }
    }

    lemma Shrinks(s: set<nat>, t: set<nat>)
      requires InputOk() && s <= t && forall d | d in t :: IsBound(d)
      ensures s != t ==> Graphs.Range(|g.ops|) - t < Graphs.Range(|g.ops|) - s
    {
      if s != t {
        var d :| d in t && d !in s;
        InRange(d);
        assert d in Graphs.Range(|g.ops|) - s && d !in Graphs.Range(|g.ops|) - t;
      }
    }

    lemma InRange(d: nat)
      requires InputOk() && (d == entry || Refers(g, entry, exit, entryVar, d))
      ensures d < |g.ops|
    {
      if d != entry {
        var p :| g.Path(p, entry, exit) && p[0] == d && p[|p| - 1] == entryVar.value;
      }
    }

    lemma BoundStep(d: nat, o: nat)
      requires InputOk() && (d == entry || IsBound(d)) && g.Uses(d, o) && Refers(g, entry, exit, entryVar, o)
      ensures IsBound(o)
    {
      var p :| g.Path(p, entry, exit) && p[0] == o && p[|p| - 1] == entryVar.value;
      if d == entry {
        assert g.Path([o], entry, exit);
      } else {
        ReachedStep(g, entry, exit, d, o);
      }
    }

    lemma AllBound(live: set<nat>)
      requires InputOk() && EnqueuedOps(entry, live) && forall d | d in live :: IsBound(d) && EnqueuedOps(d, live)
      requires forall e: nat :: e in bound <==> Refers(g, entry, exit, entryVar, e)
      requires forall e | e in freeDefs :: IsFree(e)
      ensures forall d: nat :: (d in live <==> IsBound(d)) && (d in freeDefs <==> IsFree(d))
    {
      forall d: nat | Refers(g, entry, exit, entryVar, d)
        ensures !g.Const(d)
      {
        var p :| g.Path(p, entry, exit) && p[0] == d && p[|p| - 1] == entryVar.value;
        NotConst(g, entry, exit, p);
      }
      forall d: nat | IsBound(d)
        ensures d in live
      {
        var p :| g.Path(p, entry, exit) && g.Uses(entry, p[0]) && p[|p| - 1] == d;
        AllLive(g, entry, exit, entryVar, live, p, |p| - 1);
      }
      forall d: nat | IsFree(d)
        ensures d in freeDefs
      {
        if !g.Uses(entry, d) {
          var b: nat :| g.Uses(b, d) && IsBound(b);
          assert EnqueuedOps(b, live);
        }
      }
    }
  }

  /** d is a variable or a nominal below some free definition, or one of them, with only structural definitions
      in between. */
  ghost predicate FreeBelow(g: Defs, free: set<nat>, d: nat) {
    d < |g.ops| && exists p :: Below(g, free, p) && p[|p| - 1] == d
  }

  ghost predicate Below(g: Defs, free: set<nat>, p: seq<nat>) {
    && |p| > 0 && p[0] in free && (forall i | 0 <= i < |p| :: p[i] < |g.ops| && !g.Const(p[i]))
    && (forall i | 0 <= i < |p| - 1 :: g.StepAt(p, i) && !g.Variable(p[i]) && !g.Nom(p[i]))
  }
}
