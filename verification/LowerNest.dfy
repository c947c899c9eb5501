/** The nest of counting loops of a map-reduce, lowered to functions in continuation-passing style. */
module NestLowering {
  import opened Wrappers
  import opened Cps
  import opened LowerFor
  import opened MapReduce

  const INIT := 0
  const ZERO := 1
  const COMBINE := 2
  const WRITE := 3

  /** Function 0 is entered from outside; the loop over dimension k is made of four functions from here on. */
  function ForLam(k: nat): nat {
    1 + 4 * k
  }

  /** The function that the body of function j of the nest becomes: the body of loop j - 1. */
  function CodeLam(j: nat): nat {
    if j == 0 then 0 else ForLam(j - 1) + 2
  }

  function YieldLam(j: nat): nat {
    if j == 0 then 0 else ForLam(j - 1) + 1
  }

  function WriteLam(size: nat): nat {
    ForLam(size)
  }

  function IterExp(j: nat): Exp {
    if j == 0 then Num(0) else Param(ForLam(j - 1), 0)
  }

  function CarryExp(s: Source): Exp {
    match s
    case InitMatrix => Con(INIT)
    case ZeroElem => Con(ZERO)
    case CarryOf(lam) => Param(CodeLam(lam), 0)
  }

  /** Where to go on. Function 0 returns to its caller. */
  function TargetOf(exit: Cont, size: nat): Target {
    match exit
    case YieldOf(lam) => if lam == 0 then Ret else To(YieldLam(lam))
    case WriteBack => To(WriteLam(size))
  }

  /** The iterators that an element is read at; i is the one of function j. */
  function IterExps(lams: seq<nat>, j: nat, i: Exp): seq<Exp> {
    seq(|lams|, x requires 0 <= x < |lams| => if lams[x] == j then i else IterExp(lams[x]))
  }

  /** The body of function j, with i, a and y for its parameters: iterator, carry and the function to continue with. */
  function CodeOf(b: Body, size: nat, j: nat, i: Exp, a: Exp, y: Target): Code {
    match b
    case Unset => Code.Unset
    case CountingFor(dim, init, _, _) =>
      Jump(To(ForLam(j)), [Num(0), Num(dim), Num(1), if init == CarryOf(j) then a else CarryExp(init)])
    case Combine(acc, inputs, exit) =>
      Prim(COMBINE,
           [[if acc == CarryOf(j) then a else CarryExp(acc)]] + seq(|inputs|,
               m requires 0 <= m < |inputs| => IterExps(inputs[m], j, i)),
           if exit == YieldOf(j) then y else TargetOf(exit, size))
  }

  /** The body of function j when its parameters are those of the functions it is lowered to. */
  function CodeAt(p: Program, j: nat): Code
    requires j < |p.bodies|
  {
    CodeOf(p.bodies[j], |p.bodies| - 1, j, IterExp(j), CarryExp(CarryOf(j)), TargetOf(YieldOf(j), |p.bodies| - 1))
  }

  /** The loop that function k of the nest consists of, as an affine loop: from 0 in steps of 1. */
  function LoopOf(p: Program, k: nat): For
    requires k + 1 < |p.bodies| && p.bodies[k].CountingFor?
  {
    var b, size := p.bodies[k], |p.bodies| - 1;
    For(Num(0), Num(b.dim), Num(1), CarryExp(b.init),
        (i, a, y: nat) => CodeOf(p.bodies[k + 1], size, k + 1, i, a, To(y)),
        a => Jump(TargetOf(b.exit, size), [a]))
  }

  /** Writes the final element and goes on. */
  function WriteCode(p: Program, size: nat): Code {
    Prim(WRITE, [[CarryExp(p.write.matrix)], [Param(WriteLam(size), 0)], IterExps(p.write.at, 0, IterExp(0))],
         TargetOf(YieldOf(p.write.exit), size))
  }

  /** A nest of loops around a single body. */
  predicate IsChain(p: Program) {
    p.bodies != [] && forall k | 0 <= k < |p.bodies| - 1 :: p.bodies[k].CountingFor?
  }

  ghost predicate LoopIs(bodies: seq<Code>, p: Program, k: nat)
    requires IsChain(p) && k + 1 < |p.bodies|
  {
    IsLoop(bodies, ForLam(k), LoopOf(p, k))
  }

  /** The first k loops have been lowered. */
  ghost predicate LoopsAre(bodies: seq<Code>, p: Program, k: nat)
    requires IsChain(p) && k < |p.bodies|
  {
    forall d {:trigger LoopIs(bodies, p, d)} | 0 <= d < k :: LoopIs(bodies, p, d)
  }

  /** Every counting loop of p has been replaced by four functions. */
  ghost predicate IsLowered(prog: seq<Code>, p: Program) {
    && IsChain(p)
    && var size := |p.bodies| - 1;
       && |prog| == WriteLam(size) + 1
       && prog[0] == CodeAt(p, 0)
       && LoopsAre(prog, p, size)
       && prog[WriteLam(size)] == WriteCode(p, size)
  }

  /** Lowers all loops of the nest. */
  method LowerNest(p: Program) returns (prog: seq<Code>)
    requires IsChain(p)
    ensures IsLowered(prog, p)
  {
    var size := |p.bodies| - 1;
    var lowering := new Lowering();
    var fun := lowering.NomLam();
    for k := 0 to size
      invariant fresh(lowering) && lowering.Valid() && |lowering.bodies| == ForLam(k)
      invariant forall d | d in lowering.loops :: d < k
      invariant LoopsAre(lowering.bodies, p, k)
    {
      ghost var before := lowering.bodies;
      LowerLoop(lowering, p, k);
      LoopsMore(before, lowering.bodies, p, k);
    }
    prog := lowering.bodies[fun := CodeAt(p, 0)] + [WriteCode(p, size)];
    Assembled(lowering.bodies, p);
  }

  /** Lowers the loop over dimension k. */
  method LowerLoop(lowering: Lowering, p: Program, k: nat)
    requires IsChain(p) && k + 1 < |p.bodies| && lowering.Valid() && k !in lowering.loops
             && |lowering.bodies| == ForLam(k)
    modifies lowering
    ensures lowering.Valid() && forall d | d in lowering.loops :: d in old(lowering.loops) || d == k
    ensures |lowering.bodies| == ForLam(k + 1) && old(lowering.bodies) <= lowering.bodies
    ensures LoopIs(lowering.bodies, p, k)
  {
    var loop := LoopOf(p, k);
    var _ := lowering.Rewrite(k, loop);
    assert lowering.loops[k] == loop && lowering.Lowered(k);
  }

  lemma LoopsMore(bodies: seq<Code>, bodies': seq<Code>, p: Program, k: nat)
    requires IsChain(p) && k + 1 < |p.bodies| && LoopsAre(bodies, p, k) && bodies <= bodies' && LoopIs(bodies', p, k)
    ensures LoopsAre(bodies', p, k + 1)
  {
    forall d {:trigger LoopIs(bodies', p, d)} | 0 <= d < k + 1
      ensures LoopIs(bodies', p, d)
    {
      if d < k {
        assert LoopIs(bodies, p, d);
        Extended(bodies, bodies', ForLam(d), LoopOf(p, d));
      }
    }
  }

  lemma Assembled(bodies: seq<Code>, p: Program)
    requires IsChain(p) && |bodies| == ForLam(|p.bodies| - 1)
    requires LoopsAre(bodies, p, |p.bodies| - 1)
    ensures IsLowered(bodies[0 := CodeAt(p, 0)] + [WriteCode(p, |p.bodies| - 1)], p)
  {
    var prog := bodies[0 := CodeAt(p, 0)] + [WriteCode(p, |p.bodies| - 1)];
    forall k {:trigger LoopIs(prog, p, k)} | 0 <= k < |p.bodies| - 1
      ensures LoopIs(prog, p, k)
    {
      assert LoopIs(bodies, p, k);
      LoopKept(bodies, prog, ForLam(k), LoopOf(p, k));
    }
  }

  lemma LoopKept(prog: seq<Code>, prog': seq<Code>, l: nat, loop: For)
    requires IsLoop(prog, l, loop) && |prog| <= |prog'| && forall i | l <= i < l + 4 :: prog'[i] == prog[i]
    ensures IsLoop(prog', l, loop)
  {
  }

  function Words<V>(vals: seq<Val<Carry<V>>>): Index {
    seq(|vals|, x requires 0 <= x < |vals| => if vals[x].Word? then vals[x].n else 0)
  }

  /** Reading, combining and writing; matrices are carried along as values. */
  function Primitive<V>(task: Task<V>, op: nat, lists: seq<seq<Val<Carry<V>>>>): Carry<V> {
    if op == INIT then Mat(task.init)
    else if op == COMBINE && |lists| > 0 && |lists[0]| == 1 && lists[0][0].Acc? && lists[0][0].acc.Elem? then
      Elem(task.combine(lists[0][0].acc.v,
          seq(|lists| - 1, m requires 0 <= m < |lists| - 1 => task.read(m, Words(lists[m + 1])))))
    else if op == WRITE && |lists| == 3 && |lists[0]| == 1 && lists[0][0].Acc? && lists[0][0].acc.Mat?
            && |lists[1]| == 1 && lists[1][0].Acc? && lists[1][0].acc.Elem? then
      Mat(lists[0][0].acc.m[Words(lists[2]) := lists[1][0].acc.v])
    else Elem(task.zero)
  }

  function PrimsOf<V>(task: Task<V>): Prims<Carry<V>> {
    (op: nat, lists: seq<seq<Val<Carry<V>>>>) => Primitive(task, op, lists)
  }

  /** Function j < |dims| of the nest starts the loop over dimension j. */
  ghost predicate StartsAt(prog: seq<Code>, dims: seq<nat>, n: nat, j: nat)
    requires j < |dims|
  {
    CodeLam(j) < |prog| && prog[CodeLam(j)]
        == Jump(To(ForLam(j)), [Num(0), Num(dims[j]), Num(1), CarryExp(First(j, n))])
  }

  /** That loop counts, and passes what it ends with to what function j exits to. */
  ghost predicate LoopAt(prog: seq<Code>, dims: seq<nat>, n: nat, j: nat) {
    IsCounter(prog, ForLam(j)) && prog[ForLam(j) + 3] == Jump(TargetOf(Exit(j, n), |dims|), [Param(ForLam(j) + 3, 0)])
  }

  function ReadExps(lams: seq<nat>): seq<Exp> {
    seq(|lams|, x requires 0 <= x < |lams| => IterExp(lams[x]))
  }

  function CombineArgs(carry: Exp, inputs: seq<seq<nat>>): seq<seq<Exp>> {
    [[carry]] + seq(|inputs|, m requires 0 <= m < |inputs| => ReadExps(inputs[m]))
  }

  /** The innermost function combines. */
  ghost predicate CombinesAt(prog: seq<Code>, dims: seq<nat>, n: nat, inputs: seq<seq<nat>>) {
    && CodeLam(|dims|) < |prog|
    && prog[CodeLam(|dims|)]
        == Prim(COMBINE, CombineArgs(CarryExp(First(|dims|, n)), inputs), TargetOf(Exit(|dims|, n), |dims|))
  }

  /** The last function writes. */
  ghost predicate WritesAt(prog: seq<Code>, dims: seq<nat>, n: nat) {
    && WriteLam(|dims|) < |prog|
    && prog[WriteLam(|dims|)]
        == Prim(WRITE, [[CarryExp(MatrixOf(n))], [Param(WriteLam(|dims|), 0)], ReadExps(seq(n, j => j + 1))],
                TargetOf(YieldOf(n), |dims|))
  }

  function MatrixOf(n: nat): Source {
    if n == 0 then InitMatrix else CarryOf(n)
  }

  ghost predicate LevelAt(prog: seq<Code>, dims: seq<nat>, n: nat, j: nat) {
    j < |dims| ==> dims[j] < WORD && StartsAt(prog, dims, n, j) && LoopAt(prog, dims, n, j)
  }

  /** The functions of a lowered nest; all dimensions are words. */
  ghost predicate NestCode(prog: seq<Code>, dims: seq<nat>, n: nat, inputs: seq<seq<nat>>) {
    && n <= |dims| && ReadsOk(inputs, |dims|)
    && (forall j: nat {:trigger LevelAt(prog, dims, n, j)} :: LevelAt(prog, dims, n, j))
    && CombinesAt(prog, dims, n, inputs) && WritesAt(prog, dims, n)
  }

  /** Lowering a nest gives these functions. */
  lemma LoweredNest(prog: seq<Code>, p: Program, dims: seq<nat>, n: nat, inputs: seq<seq<nat>>)
    requires IsLowered(prog, p) && IsNest(p, dims, n, inputs) && ReadsOk(inputs, |dims|)
             && forall d | d in dims :: d < WORD
    ensures NestCode(prog, dims, n, inputs)
  {
    forall j: nat {:trigger LevelAt(prog, dims, n, j)}
      ensures LevelAt(prog, dims, n, j)
    {
      if j < |dims| { LoweredLevel(prog, p, dims, n, inputs, j); }
    }
    CodeIs(prog, p, |dims|);
    CombineCode(First(|dims|, n), inputs, |dims|, n);
    ReadsAlone(p.write.at, 0, IterExp(0));
  }

  lemma LoweredLevel(prog: seq<Code>, p: Program, dims: seq<nat>, n: nat, inputs: seq<seq<nat>>, j: nat)
    requires IsLowered(prog, p) && IsNest(p, dims, n, inputs) && j < |dims| && forall d | d in dims :: d < WORD
    ensures LevelAt(prog, dims, n, j)
  {
    assert dims[j] in dims;
    assert p.bodies[j] == CountingFor(dims[j], First(j, n), j + 1, Exit(j, n));
    assert StartsAt(prog, dims, n, j) by { CodeIs(prog, p, j); }
    assert LoopAt(prog, dims, n, j) by { assert LoopIs(prog, p, j); }
  }

  lemma CodeIs(prog: seq<Code>, p: Program, j: nat)
    requires IsLowered(prog, p) && j < |p.bodies|
    ensures CodeLam(j) < |prog| && prog[CodeLam(j)] == CodeAt(p, j)
  {
    if j > 0 { assert LoopIs(prog, p, j - 1); }
  }

  lemma CombineCode(acc: Source, inputs: seq<seq<nat>>, j: nat, n: nat)
    ensures CodeOf(Combine(acc, inputs, Exit(j, n)), j, j, IterExp(j), CarryExp(CarryOf(j)), TargetOf(YieldOf(j), j))
         == Prim(COMBINE, CombineArgs(CarryExp(acc), inputs), TargetOf(Exit(j, n), j))
  {
    var a, b := seq(|inputs|, m requires 0 <= m < |inputs| => IterExps(inputs[m], j, IterExp(j))),
                seq(|inputs|, m requires 0 <= m < |inputs| => ReadExps(inputs[m]));
    forall m | 0 <= m < |inputs|
      ensures a[m] == b[m]
    {
      ReadsAlone(inputs[m], j, IterExp(j));
    }
    assert a == b;
  }

  lemma ReadsAlone(lams: seq<nat>, j: nat, i: Exp)
    requires i == IterExp(j)
    ensures IterExps(lams, j, i) == ReadExps(lams)
  {
  }

  /** The loops outside of function |its| have these iterators. */
  ghost predicate Matches<V>(env: Env<Carry<V>>, its: Index) {
    forall q | 0 <= q < |its| :: ForLam(q) in env && |env[ForLam(q)]| > 0 && env[ForLam(q)][0] == Word(its[q])
  }

  /** Below lo, only the arguments of t may have changed. */
  ghost predicate AgreeBut<V>(env: Env<Carry<V>>, env': Env<Carry<V>>, lo: nat, t: nat) {
    forall l | 0 <= l < lo && l != t :: (l in env <==> l in env') && (l in env ==> env'[l] == env[l])
  }

  lemma MatchesMore<V>(env: Env<Carry<V>>, env': Env<Carry<V>>, its: Index, iter: nat)
    requires Matches(env, its) && Agree(env, env', ForLam(|its|))
    requires ForLam(|its|) in env' && |env'[ForLam(|its|)]| > 0 && env'[ForLam(|its|)][0] == Word(iter)
    ensures Matches(env', its + [iter])
  {
  }

  lemma ReadsEval<V>(lams: seq<nat>, task: Task<V>, env: Env<Carry<V>>, its: Index)
    requires Matches(env, its) && forall x | 0 <= x < |lams| :: 0 < lams[x] <= |its|
    ensures var r := EvalAll(ReadExps(lams), PrimsOf(task), env); r.Some? && Words(r.value) == IndexOf(lams, its)
  {
    var es := ReadExps(lams);
    forall x | 0 <= x < |lams|
      ensures Eval(es[x], PrimsOf(task), env) == Some(Word(its[lams[x] - 1]))
    {
      assert ForLam(lams[x] - 1) in env;
    }
    var r := EvalAll(es, PrimsOf(task), env);
    assert r.Some?;
    assert forall x | 0 <= x < |lams| :: r.value[x] == Word(its[lams[x] - 1]);
  }

  lemma EvalOne<A>(e: Exp, prims: Prims<A>, env: Env<A>, v: Val<A>)
    requires Eval(e, prims, env) == Some(v)
    ensures EvalAll([e], prims, env) == Some([v])
  {
    var r := EvalAll([e], prims, env);
    assert Eval([e][0], prims, env) == Some(v);
    assert r.Some? && r.value == [v];
  }

  /** The arguments of the combining function. */
  lemma CombineEval<V>(task: Task<V>, inputs: seq<seq<nat>>, its: Index, carry: Exp, env: Env<Carry<V>>, v: V)
    requires Matches(env, its) && ReadsOk(inputs, |its|) && Eval(carry, PrimsOf(task), env) == Some(Acc(Elem(v)))
    ensures var r := EvalLists(CombineArgs(carry, inputs), PrimsOf(task), env);
            r.Some? && PrimsOf(task)(COMBINE, r.value) == Elem(task.combine(v, Elements(task, inputs, its)))
  {
    var lists, prims := CombineArgs(carry, inputs), PrimsOf(task);
    EvalOne(carry, prims, env, Acc(Elem(v)));
    forall m | 0 <= m < |inputs|
      ensures EvalAll(lists[m + 1], prims, env).Some?
              && Words(EvalAll(lists[m + 1], prims, env).value) == IndexOf(inputs[m], its)
    {
      ReadsEval(inputs[m], task, env, its);
    }
    var r := EvalLists(lists, prims, env);
    assert forall i | 0 <= i < |lists| :: EvalAll(lists[i], prims, env).Some?;
    CombineValue(task, inputs, its, r.value, v);
  }

  lemma CombineValue<V>(task: Task<V>, inputs: seq<seq<nat>>, its: Index, vals: seq<seq<Val<Carry<V>>>>, v: V)
    requires |vals| == |inputs| + 1 && vals[0] == [Acc(Elem(v))]
    requires forall m | 0 <= m < |inputs| :: Words(vals[m + 1]) == IndexOf(inputs[m], its)
    ensures PrimsOf(task)(COMBINE, vals) == Elem(task.combine(v, Elements(task, inputs, its)))
  {
    assert seq(|vals| - 1, m requires 0 <= m < |vals| - 1 => task.read(m, Words(vals[m + 1])))
        == Elements(task, inputs, its);
  }

  /** The innermost body combines the elements that belong to the iterators. */
  lemma CombineStep<V>(prog: seq<Code>, task: Task<V>, dims: seq<nat>, n: nat, inputs: seq<seq<nat>>, its: Index,
                       env: Env<Carry<V>>, v: V, t: nat)
    requires CombinesAt(prog, dims, n, inputs) && ReadsOk(inputs, |dims|) && |its| == |dims| && Matches(env, its)
    requires Eval(CarryExp(First(|dims|, n)), PrimsOf(task), env) == Some(Acc(Elem(v)))
    requires TargetOf(Exit(|dims|, n), |dims|) == To(t)
    ensures Step(prog, PrimsOf(task), At(CodeLam(|dims|), env))
            == At(t, env[t := [Acc(Elem(task.combine(v, Elements(task, inputs, its))))]])
  {
    var carry, size := CarryExp(First(|dims|, n)), |dims|;
    CombineEval(task, inputs, its, carry, env, v);
    PrimStep(prog, PrimsOf(task), CodeLam(size), COMBINE, CombineArgs(carry, inputs), To(t), env,
        Elem(task.combine(v, Elements(task, inputs, its))));
  }

  /** Function j < |dims| starts its loop. */
  lemma LoopStarts<A>(prog: seq<Code>, prims: Prims<A>, dims: seq<nat>, n: nat, j: nat, env: Env<A>, c: A)
    requires j < |dims| && dims[j] < WORD && StartsAt(prog, dims, n, j)
             && Eval(CarryExp(First(j, n)), prims, env) == Some(Acc(c))
    ensures Step(prog, prims, At(CodeLam(j), env)) == At(ForLam(j), env[ForLam(j) := Args(0, dims[j], 1, c)])
  {
    StartArgs(prims, dims[j], CarryExp(First(j, n)), env, c);
  }

  lemma StartArgs<A>(prims: Prims<A>, dim: nat, carry: Exp, env: Env<A>, c: A)
    requires dim < WORD && Eval(carry, prims, env) == Some(Acc(c))
    ensures EvalAll([Num(0), Num(dim), Num(1), carry], prims, env) == Some(Args(0, dim, 1, c))
  {
    var args := [Num(0), Num(dim), Num(1), carry];
    assert Eval(args[0], prims, env) == Some(Word(0)) && Eval(args[1], prims, env) == Some(Word(dim));
    assert Eval(args[2], prims, env) == Some(Word(1)) && Eval(args[3], prims, env) == Some(Acc(c));
    var vs := EvalAll(args, prims, env);
    assert vs.Some? && vs.value == Args(0, dim, 1, c);
  }

  /** When the loop over dimension j is over, its result is passed on to what function j exits to. */
  lemma LoopExits<A>(prog: seq<Code>, prims: Prims<A>, dims: seq<nat>, n: nat, j: nat, env: Env<A>, c: A)
    requires LoopAt(prog, dims, n, j) && ForLam(j) + 3 in env && env[ForLam(j) + 3] == [Acc(c)]
    ensures Step(prog, prims, At(ForLam(j) + 3, env)) == Enter(TargetOf(Exit(j, n), |dims|), [Acc(c)], env)
  {
    EvalOne(Param(ForLam(j) + 3, 0), prims, env, Acc(c));
  }

  /** A loop over dimension j, from its start to what comes after it. */
  lemma LoopRuns<A(!new)>(prog: seq<Code>, prims: Prims<A>, dims: seq<nat>, n: nat, j: nat, f: (nat, A) -> A,
                          ok: A -> bool, env: Env<A>, c: A)
    returns (k: nat, env': Env<A>)
    requires j < |dims| && LevelAt(prog, dims, n, j) && ok(c) && Eval(CarryExp(First(j, n)), prims, env) == Some(Acc(c))
    requires BodyYields(prog, prims, ForLam(j), f, ok, dims[j], 1, env)
    ensures Agree(env, env', ForLam(j))
    ensures Steps(k, prog, prims, At(CodeLam(j), env))
         == Enter(TargetOf(Exit(j, n), |dims|), [Acc(Iterate(f, 0, dims[j], 1, c))], env')
  {
    var l := ForLam(j);
    var env1 := env[l := Args(0, dims[j], 1, c)];
    LoopStarts(prog, prims, dims, n, j, env, c);
    StepOneNoWrap(0, dims[j]);
    var i;
    i, env' := LoopIterates(prog, prims, l, f, ok, 0, dims[j], 1, c, env, env1);
    LoopExits(prog, prims, dims, n, j, env', Iterate(f, 0, dims[j], 1, c));
    k := 1 + (i + 1);
    OneMore(prog, prims, i, At(l, env1));
  }

  lemma OneMore<A>(prog: seq<Code>, prims: Prims<A>, i: nat, s: State<A>)
    ensures Steps(i + 1, prog, prims, s) == Step(prog, prims, Steps(i, prog, prims, s))
  {
    StepsAdd(i, 1, prog, prims, s);
    var s' := Step(prog, prims, Steps(i, prog, prims, s));
    assert Steps(0, prog, prims, s') == s';
  }

  function InnerStep<V>(task: Task<V>, inputs: seq<seq<nat>>, dims: seq<nat>, its: Index): (nat, Carry<V>) -> Carry<V> {
    (i: nat, c: Carry<V>) => Elem(Inner(task, inputs, dims, its + [i], if c.Elem? then c.v else task.zero))
  }

  /** An inner loop is a counting loop as it is lowered: from 0 in steps of 1. */
  lemma {:induction false} InnerLoopIterates<V>(task: Task<V>, inputs: seq<seq<nat>>, dims: seq<nat>, its: Index,
                                                iter: nat, v: V)
    requires |its| < |dims|
    ensures Iterate(InnerStep(task, inputs, dims, its), iter, dims[|its|], 1, Elem(v))
            == Elem(InnerLoop(task, inputs, dims, its, iter, v))
    decreases if iter < dims[|its|] then dims[|its|] - iter else 0
  {
    if iter < dims[|its|] {
      InnerLoopIterates(task, inputs, dims, its, iter + 1, Inner(task, inputs, dims, its + [iter], v));
    }
  }

  /** From function |its| on, the lowered inner loops pass what Inner says to what the function exits to. */
  lemma {:induction false} InnerRuns<V(!new)>(prog: seq<Code>, task: Task<V>, dims: seq<nat>, n: nat,
                                              inputs: seq<seq<nat>>, its: Index, env: Env<Carry<V>>, v: V, t: nat)
    returns (k: nat, env': Env<Carry<V>>)
    requires NestCode(prog, dims, n, inputs) && n <= |its| <= |dims| && Matches(env, its)
    requires Eval(CarryExp(First(|its|, n)), PrimsOf(task), env) == Some(Acc(Elem(v)))
    requires TargetOf(Exit(|its|, n), |dims|) == To(t)
    ensures Steps(k, prog, PrimsOf(task), At(CodeLam(|its|), env)) == At(t, env')
    ensures t in env' && env'[t] == [Acc(Elem(Inner(task, inputs, dims, its, v)))]
            && AgreeBut(env, env', ForLam(|its|), t)
    decreases |dims| - |its|
  {
    var j, prims := |its|, PrimsOf(task);
    if j == |dims| {
      CombineStep(prog, task, dims, n, inputs, its, env, v, t);
      OneMore(prog, prims, 0, At(CodeLam(j), env));
      k, env' := 1, env[t := [Acc(Elem(task.combine(v, Elements(task, inputs, its))))]];
    } else {
      InnerBodyYields(prog, task, dims, n, inputs, its, env);
      assert LevelAt(prog, dims, n, j);
      var env1;
      k, env1 := LoopRuns(prog, prims, dims, n, j, InnerStep(task, inputs, dims, its), IsElem, env, Elem(v));
      InnerLoopIterates(task, inputs, dims, its, 0, v);
      env' := env1[t := [Acc(Elem(Inner(task, inputs, dims, its, v)))]];
    }
  }

  predicate IsElem<V>(c: Carry<V>) {
    c.Elem?
  }

  lemma {:induction false} InnerBodyYields<V(!new)>(prog: seq<Code>, task: Task<V>, dims: seq<nat>, n: nat,
                                                    inputs: seq<seq<nat>>, its: Index, base: Env<Carry<V>>)
    requires NestCode(prog, dims, n, inputs) && n <= |its| < |dims| && Matches(base, its)
    ensures BodyYields(prog, PrimsOf(task), ForLam(|its|), InnerStep(task, inputs, dims, its), IsElem, dims[|its|], 1,
            base)
    decreases |dims| - |its|, 0
  {
    var j, l, prims, f := |its|, ForLam(|its|), PrimsOf(task), InnerStep(task, inputs, dims, its);
    forall iter, acc: Carry<V>, env {:trigger InBody(l, iter, dims[j], 1, base, env, acc)}
        | IsElem(acc) && InBody(l, iter, dims[j], 1, base, env, acc)
      ensures IsElem(f(iter, acc)) && YieldsAt(prog, prims, l, env, f(iter, acc))
    {
      MatchesMore(base, env, its, iter);
      var k, env' := InnerRuns(prog, task, dims, n, inputs, its + [iter], env, acc.v, l + 1);
      assert Yielded(prog, prims, l, k, env, env', f(iter, acc));
    }
  }

  /** The last function writes the element at the output iterators. */
  lemma WriteStep<V>(prog: seq<Code>, task: Task<V>, dims: seq<nat>, n: nat, its: Index, env: Env<Carry<V>>,
                     m: map<Index, V>, w: V)
    requires WritesAt(prog, dims, n) && |its| == n && Matches(env, its)
    requires Eval(CarryExp(MatrixOf(n)), PrimsOf(task), env) == Some(Acc(Mat(m)))
    requires WriteLam(|dims|) in env && env[WriteLam(|dims|)] == [Acc(Elem(w))]
    ensures Step(prog, PrimsOf(task), At(WriteLam(|dims|), env))
            == Enter(TargetOf(YieldOf(n), |dims|), [Acc(Mat(m[its := w]))], env)
  {
    var at, prims := seq(n, j => j + 1), PrimsOf(task);
    var lists := [[CarryExp(MatrixOf(n))], [Param(WriteLam(|dims|), 0)], ReadExps(at)];
    EvalOne(CarryExp(MatrixOf(n)), prims, env, Acc(Mat(m)));
    EvalOne(Param(WriteLam(|dims|), 0), prims, env, Acc(Elem(w)));
    ReadsEval(at, task, env, its);
    assert IndexOf(at, its) == its;
    var r := EvalLists(lists, prims, env);
    assert forall i | 0 <= i < |lists| :: EvalAll(lists[i], prims, env).Some?;
    WriteValue(task, r.value, its, m, w);
    PrimStep(prog, prims, WriteLam(|dims|), WRITE, lists, TargetOf(YieldOf(n), |dims|), env, Mat(m[its := w]));
  }

  lemma WriteValue<V>(task: Task<V>, vals: seq<seq<Val<Carry<V>>>>, its: Index, m: map<Index, V>, w: V)
    requires |vals| == 3 && vals[0] == [Acc(Mat(m))] && vals[1] == [Acc(Elem(w))] && Words(vals[2]) == its
    ensures PrimsOf(task)(WRITE, vals) == Mat(m[its := w])
  {
  }

  function OuterStep<V>(task: Task<V>, inputs: seq<seq<nat>>, dims: seq<nat>, n: nat,
                        its: Index): (nat, Carry<V>) -> Carry<V>
    requires |its| < n <= |dims|
  {
    (i: nat, c: Carry<V>) => Mat(Outer(task, inputs, dims, n, its + [i], if c.Mat? then c.m else map[]))
  }

  lemma {:induction false} OuterLoopIterates<V>(task: Task<V>, inputs: seq<seq<nat>>, dims: seq<nat>, n: nat,
                                                its: Index, iter: nat, m: map<Index, V>)
    requires |its| < n <= |dims|
    ensures Iterate(OuterStep(task, inputs, dims, n, its), iter, dims[|its|], 1, Mat(m))
            == Mat(OuterLoop(task, inputs, dims, n, its, iter, m))
    decreases if iter < dims[|its|] then dims[|its|] - iter else 0
  {
    if iter < dims[|its|] {
      OuterLoopIterates(task, inputs, dims, n, its, iter + 1, Outer(task, inputs, dims, n, its + [iter], m));
    }
  }

  /** From function |its| on, the lowered nest makes of the matrix what Outer says. */
  lemma {:induction false} OuterRuns<V(!new)>(prog: seq<Code>, task: Task<V>, dims: seq<nat>, n: nat,
                                              inputs: seq<seq<nat>>, its: Index, env: Env<Carry<V>>, m: map<Index, V>)
    returns (k: nat, env': Env<Carry<V>>)
    requires NestCode(prog, dims, n, inputs) && |its| <= n && Matches(env, its)
    requires Eval(CarryExp(MatrixOf(|its|)), PrimsOf(task), env) == Some(Acc(Mat(m)))
    ensures Steps(k, prog, PrimsOf(task), At(CodeLam(|its|), env))
         == Enter(TargetOf(YieldOf(|its|), |dims|), [Acc(Mat(Outer(task, inputs, dims, n, its, m)))], env')
    ensures Agree(env, env', ForLam(|its|))
    decreases n - |its|
  {
    var j, prims := |its|, PrimsOf(task);
    if j == n {
      var i;
      i, env' := InnerRuns(prog, task, dims, n, inputs, its, env, task.zero, WriteLam(|dims|));
      WriteStep(prog, task, dims, n, its, env', m, Inner(task, inputs, dims, its, task.zero));
      OneMore(prog, prims, i, At(CodeLam(j), env));
      k := i + 1;
    } else {
      OuterBodyYields(prog, task, dims, n, inputs, its, env);
      assert LevelAt(prog, dims, n, j);
      k, env' := LoopRuns(prog, prims, dims, n, j, OuterStep(task, inputs, dims, n, its), IsMat, env, Mat(m));
      OuterLoopIterates(task, inputs, dims, n, its, 0, m);
    }
  }

  lemma Yields<A(!new)>(prog: seq<Code>, prims: Prims<A>, l: nat, k: nat, env: Env<A>, env': Env<A>, acc: A)
    requires Steps(k, prog, prims, At(l + 2, env)) == Enter(To(l + 1), [Acc(acc)], env') && Agree(env, env', l + 1)
    ensures YieldsAt(prog, prims, l, env, acc)
  {
    assert Yielded(prog, prims, l, k, env, env'[l + 1 := [Acc(acc)]], acc);
  }

  predicate IsMat<V>(c: Carry<V>) {
    c.Mat?
  }

  lemma {:induction false} OuterBodyYields<V(!new)>(prog: seq<Code>, task: Task<V>, dims: seq<nat>, n: nat,
                                                    inputs: seq<seq<nat>>, its: Index, base: Env<Carry<V>>)
    requires NestCode(prog, dims, n, inputs) && |its| < n && Matches(base, its)
    ensures BodyYields(prog, PrimsOf(task), ForLam(|its|), OuterStep(task, inputs, dims, n, its), IsMat, dims[|its|],
            1, base)
    decreases n - |its|, 0
  {
    var j, l, prims, f := |its|, ForLam(|its|), PrimsOf(task), OuterStep(task, inputs, dims, n, its);
    forall iter, acc: Carry<V>, env {:trigger InBody(l, iter, dims[j], 1, base, env, acc)}
        | IsMat(acc) && InBody(l, iter, dims[j], 1, base, env, acc)
      ensures IsMat(f(iter, acc)) && YieldsAt(prog, prims, l, env, f(iter, acc))
    {
      MatchesMore(base, env, its, iter);
      var k, env' := OuterRuns(prog, task, dims, n, inputs, its + [iter], env, acc.m);
      assert f(iter, acc) == Mat(Outer(task, inputs, dims, n, its + [iter], acc.m));
      Yields(prog, prims, l, k, env, env', f(iter, acc));
    }
  }

  /** The lowered nest ends, and returns the map-reduced matrix. */
  lemma LoweredMeans<V(!new)>(prog: seq<Code>, task: Task<V>, dims: seq<nat>, n: nat, inputs: seq<seq<nat>>)
    returns (k: nat, m: map<Index, V>)
    requires NestCode(prog, dims, n, inputs)
    ensures Steps(k, prog, PrimsOf(task), At(0, map[])) == Done(Mat(m)) && IsMapReduce(task, dims, n, inputs, m)
  {
    m := Outer(task, inputs, dims, n, [], task.init);
    var env;
    k, env := OuterRuns(prog, task, dims, n, inputs, [], map[], task.init);
    OuterIsMapReduce(task, inputs, dims, n);
  }

  /** The program ends, and returns the reduced matrix. */
  ghost predicate Reduces<V(!new)>(prog: seq<Code>, task: Task<V>, outDims: seq<nat>, ins: seq<Input>) {
    exists order, dims, k, m ::
      && Ordered(order, dims, outDims, ins)
      && Steps(k, prog, PrimsOf(task), At(0, map[])) == Done(Mat(m))
      && IsReduced(task, outDims, ins, order, dims, m)
  }

  /** Builds the nest for a map-reduce and lowers it. Whatever is combined, the program returns the reduced matrix. */
  method LowerMapReduce<V(!new)>(outDims: seq<nat>, ins: seq<Input>, ghost task: Task<V>) returns (prog: seq<Code>)
    requires DimsAgree(outDims, ins)
    requires (forall d | d in outDims :: d < WORD) && forall i | i in ins :: forall d | d in i.dims :: d < WORD
    ensures Reduces(prog, task, outDims, ins)
  {
    var builder := new Builder();
    var p;
    ghost var order, dims, inputs;
    p, order, dims, inputs := builder.Rewrite(outDims, ins);
    prog := LowerNest(p);
    assert ReadsOk(inputs, |dims|) && ReadsAt(inputs, order, ins);
    DimsFit(outDims, ins, order, dims);
    LoweredNest(prog, p, dims, |outDims|, inputs);
    ghost var k, m := LoweredMeans(prog, task, dims, |outDims|, inputs);
    MapReduceReduces(task, outDims, ins, order, dims, inputs, m);
  }

  /** All dimensions are those of the output or an input. */
  lemma DimsFit(outDims: seq<nat>, ins: seq<Input>, order: seq<nat>, dims: seq<nat>)
    requires Ordered(order, dims, outDims, ins)
    requires (forall d | d in outDims :: d < WORD) && forall i | i in ins :: forall d | d in i.dims :: d < WORD
    requires forall i | 0 <= i < |ins| :: |ins[i].indices| == |ins[i].dims|
    ensures forall d | d in dims :: d < WORD
  {
    forall k | 0 <= k < |order|
      ensures dims[k] < WORD
    {
      assert order[k] in order;
      if order[k] < |outDims| {
        assert order[order[k]] == order[k] && dims[order[k]] == outDims[order[k]];
        assert outDims[order[k]] in outDims;
      } else {
        var i, j :| 0 <= i < |ins| && 0 <= j < |ins[i].indices| && ins[i].indices[j] == order[k];
        assert ins[i] in ins && ins[i].dims[j] in ins[i].dims;
      }
    }
  }
}
