/** Functions in continuation-passing style: every body is a jump, and nothing ever returns. */
module Cps {
  import opened Wrappers

  /** Counters are words of 32 bits. */
  const WORD: nat := 0x1_0000_0000

  /** Parameters of functions, numbers, sums of words, and constants given by a primitive operation. */
  datatype Exp = Param(lam: nat, i: nat) | Num(n: nat) | Plus(a: Exp, b: Exp) | Con(op: nat)

  /** Another function, or whoever called the program. */
  datatype Target = To(lam: nat) | Ret

  /** The body of a function: nothing yet; a jump; a branch between two functions that take the same argument; or a
      primitive operation on lists of arguments whose result is passed on. */
  datatype Code =
    | Unset
    | Jump(to: Target, args: seq<Exp>)
    | Branch(lhs: Exp, rhs: Exp, then_: nat, else_: nat, arg: Exp)
    | Prim(op: nat, lists: seq<seq<Exp>>, to: Target)

  datatype Val<A> = Word(n: nat) | Acc(acc: A)

  /** The arguments every function was entered with last. */
  type Env<A> = map<nat, seq<Val<A>>>

  /** What the primitive operations make of their arguments. */
  type Prims<!A> = (nat, seq<seq<Val<A>>>) -> A

  datatype State<A> = At(lam: nat, env: Env<A>) | Done(result: A) | Stuck

  function Eval<A>(e: Exp, prims: Prims<A>, env: Env<A>): Option<Val<A>> {
    match e
    case Param(lam, i) => if lam in env && i < |env[lam]| then Some(env[lam][i]) else None
    case Num(n) => Some(Word(n % WORD))
    case Plus(a, b) =>
      var x, y := Eval(a, prims, env), Eval(b, prims, env);
      if x.Some? && y.Some? && x.value.Word? && y.value.Word? then Some(Word((x.value.n + y.value.n) % WORD)) else None
    case Con(op) => Some(Acc(prims(op, [])))
  }

  function EvalAll<A>(es: seq<Exp>, prims: Prims<A>, env: Env<A>): (r: Option<seq<Val<A>>>)
    ensures r.Some? <==> forall i | 0 <= i < |es| :: Eval(es[i], prims, env).Some?
    ensures r.Some? ==> |r.value| == |es| && forall i | 0 <= i < |es| :: Eval(es[i], prims, env) == Some(r.value[i])
  {
    if forall i | 0 <= i < |es| :: Eval(es[i], prims, env).Some?
    then Some(seq(|es|, i requires 0 <= i < |es| => Eval(es[i], prims, env).value))
    else None
  }

  function EvalLists<A>(ess: seq<seq<Exp>>, prims: Prims<A>, env: Env<A>): (r: Option<seq<seq<Val<A>>>>)
    ensures r.Some? <==> forall i | 0 <= i < |ess| :: EvalAll(ess[i], prims, env).Some?
    ensures r.Some? ==> |r.value| == |ess| && forall i | 0 <= i < |ess| ::
            EvalAll(ess[i], prims, env) == Some(r.value[i])
  {
    if forall i | 0 <= i < |ess| :: EvalAll(ess[i], prims, env).Some?
    then Some(seq(|ess|, i requires 0 <= i < |ess| => EvalAll(ess[i], prims, env).value))
    else None
  }

  /** Enters a function, or ends with the only argument. */
  function Enter<A>(to: Target, args: seq<Val<A>>, env: Env<A>): State<A> {
    if to.To? then At(to.lam, env[to.lam := args])
    else if |args| == 1 && args[0].Acc? then Done(args[0].acc)
    else Stuck
  }

  /** One jump. */
  function Step<A>(prog: seq<Code>, prims: Prims<A>, s: State<A>): State<A> {
    if !s.At? then s
    else if s.lam >= |prog| then Stuck
    else match prog[s.lam]
      case Unset => Stuck
      case Jump(to, args) =>
        var vs := EvalAll(args, prims, s.env);
        if vs.Some? then Enter(to, vs.value, s.env) else Stuck
      case Branch(lhs, rhs, then_, else_, arg) =>
        var x, y, a := Eval(lhs, prims, s.env), Eval(rhs, prims, s.env), Eval(arg, prims, s.env);
        if x.Some? && x.value.Word? && y.Some? && y.value.Word? && a.Some? then
          Enter(To(if x.value.n < y.value.n then then_ else else_), [a.value], s.env)
        else Stuck
      case Prim(op, lists, to) =>
        var vss := EvalLists(lists, prims, s.env);
        if vss.Some? then Enter(to, [Acc(prims(op, vss.value))], s.env) else Stuck
  }

  lemma PrimStep<A>(prog: seq<Code>, prims: Prims<A>, lam: nat, op: nat, lists: seq<seq<Exp>>, to: Target, env: Env<A>,
                    result: A)
    requires lam < |prog| && prog[lam] == Prim(op, lists, to)
    requires EvalLists(lists, prims, env).Some? && prims(op, EvalLists(lists, prims, env).value) == result
    ensures Step(prog, prims, At(lam, env)) == Enter(to, [Acc(result)], env)
  {
  }

  function Steps<A>(k: nat, prog: seq<Code>, prims: Prims<A>, s: State<A>): State<A> {
    if k == 0 then s else Steps(k - 1, prog, prims, Step(prog, prims, s))
  }

  lemma {:induction false} StepsAdd<A>(j: nat, k: nat, prog: seq<Code>, prims: Prims<A>, s: State<A>)
    ensures Steps(j + k, prog, prims, s) == Steps(k, prog, prims, Steps(j, prog, prims, s))
  {
    if j > 0 { StepsAdd(j - 1, k, prog, prims, Step(prog, prims, s)); }
  }

  /** A program ends in one way only. */
  lemma {:induction false} StepsEnd<A>(k: nat, prog: seq<Code>, prims: Prims<A>, s: State<A>)
    requires !s.At?
    ensures Steps(k, prog, prims, s) == s
  {
    if k > 0 { StepsEnd(k - 1, prog, prims, s); }
  }

  /** Two runs of the same program that have ended have ended in the same way. */
  lemma EndsOnce<A>(j: nat, k: nat, prog: seq<Code>, prims: Prims<A>, s: State<A>)
    requires !Steps(j, prog, prims, s).At? && !Steps(k, prog, prims, s).At?
    ensures Steps(j, prog, prims, s) == Steps(k, prog, prims, s)
  {
    if j <= k {
      StepsAdd(j, k - j, prog, prims, s);
      StepsEnd(k - j, prog, prims, Steps(j, prog, prims, s));
    } else {
      StepsAdd(k, j - k, prog, prims, s);
      StepsEnd(j - k, prog, prims, Steps(k, prog, prims, s));
    }
  }

  /** The same arguments of all functions before lo. */
  ghost predicate Agree<A>(env: Env<A>, env': Env<A>, lo: nat) {
    forall l | 0 <= l < lo :: (l in env <==> l in env') && (l in env ==> env'[l] == env[l])
  }
}
