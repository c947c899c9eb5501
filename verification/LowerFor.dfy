/** Counting loops, and the functions in continuation-passing style that they are lowered to. */
module LowerFor {
  import opened Wrappers
  import opened Cps
  import Bitwise

  /** What a loop computes: the body, for begin, begin + step and so on as long as the counter is below end. */
  function Iterate<A>(f: (nat, A) -> A, iter: nat, end: nat, step: nat, acc: A): A
    requires step > 0
    decreases if iter < end then end - iter else 0
  {
    if iter < end then Iterate(f, iter + step, end, step, f(iter, acc)) else acc
  }

  /** A loop: where it starts, its body for a counter, an accumulator and a function to continue with, and what to do
      with the final accumulator. */
  datatype For = For(begin: Exp, end: Exp, step: Exp, acc: Exp, body: (Exp, Exp, nat) -> Code, brk: Exp -> Code)

  /** The four functions that make up a loop. */
  ghost predicate IsLoop(prog: seq<Code>, l: nat, loop: For) {
    && IsCounter(prog, l)
    && prog[l + 2] == loop.body(Param(l, 0), Param(l + 2, 0), l + 1)
    && prog[l + 3] == loop.brk(Param(l + 3, 0))
  }

  /** The two of them that count. */
  ghost predicate IsCounter(prog: seq<Code>, l: nat) {
    && l + 3 < |prog|
    && prog[l] == Branch(Param(l, 0), Param(l, 1), l + 2, l + 3, Param(l, 3))
    && prog[l + 1] == Jump(To(l), [Plus(Param(l, 0), Param(l, 2)), Param(l, 1), Param(l, 2), Param(l + 1, 0)])
  }

  class Lowering {
    var bodies: seq<Code>
    /** The call that replaces a loop. */
    var rewritten: map<nat, Code>
    ghost var loops: map<nat, For>
    ghost var lams: map<nat, nat>

    ghost predicate Valid()
      reads this
    {
      && rewritten.Keys == loops.Keys == lams.Keys
      && forall d {:trigger rewritten[d]} | d in rewritten :: Lowered(d)
    }

    ghost predicate Lowered(d: nat)
      requires d in rewritten && d in loops && d in lams
      reads this
    {
      && IsLoop(bodies, lams[d], loops[d])
      && rewritten[d] == Jump(To(lams[d]), [loops[d].begin, loops[d].end, loops[d].step, loops[d].acc])
    }

    constructor ()
      ensures Valid() && bodies == [] && rewritten == map[] && loops == map[] && lams == map[]
    {
      bodies, rewritten, loops, lams := [], map[], map[], map[];
    }

    method NomLam() returns (lam: nat)
      modifies this`bodies
      ensures lam == |old(bodies)| && bodies == old(bodies) + [Unset]
    {
      lam := |bodies|;
      bodies := bodies + [Unset];
    }

    method SetBody(lam: nat, body: Code)
      requires lam < |bodies|
      modifies this`bodies
      ensures bodies == old(bodies)[lam := body]
    {
      bodies := bodies[lam := body];
    }

    /** Replaces the loop def by functions that call each other, once. */
    method Rewrite(def: nat, loop: For) returns (call: Code)
      requires Valid() && (def in loops ==> loops[def] == loop)
      modifies this
      ensures Valid() && def in rewritten && call == rewritten[def] && loops == old(loops)[def := loop]
      ensures old(bodies) <= bodies && forall d | d in old(lams) :: d in lams && lams[d] == old(lams)[d]
      ensures if def in old(rewritten) then bodies == old(bodies)
              else lams[def] == |old(bodies)| && |bodies| == |old(bodies)| + 4
    {
      if def in rewritten {
        assert loops == loops[def := loop];
        return rewritten[def];
      }
      ghost var before := bodies;
      var forLam := BuildLoop(loop);
      call := Jump(To(forLam), [loop.begin, loop.end, loop.step, loop.acc]);
      AllExtended(before, bodies, lams, loops);
      Enter(def, loop, call, forLam);
    }

    method Enter(def: nat, loop: For, call: Code, ghost forLam: nat)
      requires rewritten.Keys == loops.Keys == lams.Keys && def !in rewritten && IsLoop(bodies, forLam, loop)
      requires forall d {:trigger rewritten[d]} | d in rewritten :: Lowered(d)
      requires call == Jump(To(forLam), [loop.begin, loop.end, loop.step, loop.acc])
      modifies this`rewritten, this`loops, this`lams
      ensures Valid() && rewritten == old(rewritten)[def := call]
      ensures loops == old(loops)[def := loop] && lams == old(lams)[def := forLam]
    {
      rewritten, loops, lams := rewritten[def := call], loops[def := loop], lams[def := forLam];
    }

    method BuildLoop(loop: For) returns (forLam: nat)
      modifies this`bodies
      ensures IsLoop(bodies, forLam, loop) && old(bodies) <= bodies
      ensures forLam == |old(bodies)| && |bodies| == |old(bodies)| + 4
    {
      ghost var before := bodies;
      forLam := NomLam();
      var yieldLam := NomLam();
      var add := Plus(Param(forLam, 0), Param(forLam, 2));
      SetBody(yieldLam, Jump(To(forLam), [add, Param(forLam, 1), Param(forLam, 2), Param(yieldLam, 0)]));
      assert bodies == before + [Unset, bodies[yieldLam]];
      var newBody := NomLam();
      SetBody(newBody, loop.body(Param(forLam, 0), Param(newBody, 0), yieldLam));
      assert bodies == before + [Unset, bodies[yieldLam], bodies[newBody]];
      var ifElse := NomLam();
      SetBody(ifElse, loop.brk(Param(ifElse, 0)));
      assert bodies == before + [Unset, bodies[yieldLam], bodies[newBody], bodies[ifElse]];
      SetBody(forLam, Branch(Param(forLam, 0), Param(forLam, 1), newBody, ifElse, Param(forLam, 3)));
      assert bodies == before + [bodies[forLam], bodies[yieldLam], bodies[newBody], bodies[ifElse]];
    }
  }

  lemma AllExtended(prog: seq<Code>, prog': seq<Code>, lams: map<nat, nat>, loops: map<nat, For>)
    requires prog <= prog' && lams.Keys == loops.Keys && forall d | d in lams :: IsLoop(prog, lams[d], loops[d])
    ensures forall d | d in lams :: IsLoop(prog', lams[d], loops[d])
  {
    forall d | d in lams
      ensures IsLoop(prog', lams[d], loops[d])
    {
      Extended(prog, prog', lams[d], loops[d]);
    }
  }

  lemma Extended(prog: seq<Code>, prog': seq<Code>, l: nat, loop: For)
    requires IsLoop(prog, l, loop) && prog <= prog'
    ensures IsLoop(prog', l, loop)
  {
    assert forall i | 0 <= i < |prog| :: prog'[i] == prog[i];
  }

  /** No sum of the counter and the step leaves the word. */
  predicate NoWrap(iter: nat, end: nat, step: nat)
    requires step > 0
    decreases if iter < end then end - iter else 0
  {
    iter < end ==> iter + step < WORD && NoWrap(iter + step, end, step)
  }

  /** The arguments of the loop. */
  function Args<A>(iter: nat, end: nat, step: nat, acc: A): seq<Val<A>> {
    [Word(iter), Word(end), Word(step), Acc(acc)]
  }

  /** k jumps lead from the body of the loop to its yield function, and leave alone what was there before the loop. */
  ghost predicate Yielded<A>(prog: seq<Code>, prims: Prims<A>, l: nat, k: nat, env: Env<A>, env': Env<A>, acc: A) {
    && Steps(k, prog, prims, At(l + 2, env)) == At(l + 1, env')
    && l + 1 in env' && env'[l + 1] == [Acc(acc)] && Agree(env, env', l + 1)
  }

  ghost predicate YieldsAt<A(!new)>(prog: seq<Code>, prims: Prims<A>, l: nat, env: Env<A>, acc: A) {
    exists k, env' :: Yielded(prog, prims, l, k, env, env', acc)
  }

  /** The loop has entered its body. */
  ghost predicate InBody<A>(l: nat, iter: nat, end: nat, step: nat, base: Env<A>, env: Env<A>, acc: A) {
    && iter < end && Agree(base, env, l)
    && l in env && env[l] == Args(iter, end, step, acc) && l + 2 in env && env[l + 2] == [Acc(acc)]
  }

  /** The body, whatever functions it is made of, computes f for accumulators that are ok. */
  ghost predicate BodyYields<A(!new)>(prog: seq<Code>, prims: Prims<A>, l: nat, f: (nat, A) -> A, ok: A -> bool,
                                      end: nat, step: nat, base: Env<A>)
  {
    forall iter, acc, env {:trigger InBody(l, iter, end, step, base, env, acc)}
        | ok(acc) && InBody(l, iter, end, step, base, env, acc) ::
      ok(f(iter, acc)) && YieldsAt(prog, prims, l, env, f(iter, acc))
  }

  /** The loop function goes on in the body as long as the counter is below end. */
  lemma EnterBody<A>(prog: seq<Code>, prims: Prims<A>, l: nat, iter: nat, end: nat, step: nat, acc: A, env: Env<A>)
    requires IsCounter(prog, l) && l in env && env[l] == Args(iter, end, step, acc)
    ensures var next := if iter < end then l + 2 else l + 3;
            Step(prog, prims, At(l, env)) == At(next, env[next := [Acc(acc)]])
  {
  }

  /** The yield function increments the counter. */
  lemma Increment<A>(prog: seq<Code>, prims: Prims<A>, l: nat, iter: nat, end: nat, step: nat, acc: A, acc': A,
                     env: Env<A>)
    requires IsCounter(prog, l) && l in env && env[l] == Args(iter, end, step, acc)
    requires l + 1 in env && env[l + 1] == [Acc(acc')]
    ensures Step(prog, prims, At(l + 1, env)) == At(l, env[l := Args((iter + step) % WORD, end, step, acc')])
  {
    var args := [Plus(Param(l, 0), Param(l, 2)), Param(l, 1), Param(l, 2), Param(l + 1, 0)];
    assert Eval(args[0], prims, env) == Some(Word((iter + step) % WORD))
        && Eval(args[1], prims, env) == Some(Word(end));
    assert Eval(args[2], prims, env) == Some(Word(step)) && Eval(args[3], prims, env) == Some(Acc(acc'));
    var vs := EvalAll(args, prims, env);
    assert vs.Some? && vs.value == Args((iter + step) % WORD, end, step, acc');
  }

  /** One iteration of the loop, whatever its body is. */
  lemma OneIteration<A(!new)>(prog: seq<Code>, prims: Prims<A>, l: nat, f: (nat, A) -> A, ok: A -> bool, iter: nat,
                              end: nat, step: nat, acc: A, base: Env<A>, env: Env<A>)
    returns (k: nat, env': Env<A>)
    requires IsCounter(prog, l) && BodyYields(prog, prims, l, f, ok, end, step, base) && Agree(base, env, l)
    requires l in env && env[l] == Args(iter, end, step, acc) && ok(acc) && iter < end
    ensures Steps(k, prog, prims, At(l, env)) == At(l, env') && ok(f(iter, acc)) && Agree(base, env', l)
    ensures l in env' && env'[l] == Args((iter + step) % WORD, end, step, f(iter, acc))
  {
    var env1 := env[l + 2 := [Acc(acc)]];
    EnterBody(prog, prims, l, iter, end, step, acc, env);
    assert InBody(l, iter, end, step, base, env1, acc);
    assert YieldsAt(prog, prims, l, env1, f(iter, acc));
    var j: nat, env2 :| Yielded(prog, prims, l, j, env1, env2, f(iter, acc));
    env' := env2[l := Args((iter + step) % WORD, end, step, f(iter, acc))];
    Increment(prog, prims, l, iter, end, step, acc, f(iter, acc), env2);
    k := 1 + j + 1;
    StepsAdd(j, 1, prog, prims, At(l + 2, env1));
    assert Steps(1, prog, prims, At(l + 1, env2)) == At(l, env') by {
      assert Steps(0, prog, prims, At(l, env')) == At(l, env');
    }
  }

  /** The loop ends, with what Iterate says, provided that no counter wraps around. */
  lemma {:induction false} LoopIterates<A(!new)>(prog: seq<Code>, prims: Prims<A>, l: nat, f: (nat, A) -> A,
                                                 ok: A -> bool, iter: nat, end: nat, step: nat, acc: A, base: Env<A>,
                                                 env: Env<A>)
    returns (k: nat, env': Env<A>)
    requires IsCounter(prog, l) && BodyYields(prog, prims, l, f, ok, end, step, base) && Agree(base, env, l)
    requires l in env && env[l] == Args(iter, end, step, acc) && ok(acc) && step > 0 && NoWrap(iter, end, step)
    ensures Steps(k, prog, prims, At(l, env)) == At(l + 3, env') && Agree(base, env', l)
    ensures l + 3 in env' && env'[l + 3] == [Acc(Iterate(f, iter, end, step, acc))]
            && ok(Iterate(f, iter, end, step, acc))
    decreases if iter < end then end - iter else 0
  {
    if iter < end {
      var i, env1 := OneIteration(prog, prims, l, f, ok, iter, end, step, acc, base, env);
      var j;
      j, env' := LoopIterates(prog, prims, l, f, ok, iter + step, end, step, f(iter, acc), base, env1);
      StepsAdd(i, j, prog, prims, At(l, env));
      k := i + j;
    } else {
      EnterBody(prog, prims, l, iter, end, step, acc, env);
      k, env' := 1, env[l + 3 := [Acc(acc)]];
      assert Steps(0, prog, prims, At(l + 3, env')) == At(l + 3, env');
    }
  }

  /** Steps of one, as in all loops over a matrix, never wrap. */
  lemma {:induction false} StepOneNoWrap(iter: nat, end: nat)
    requires end < WORD
    ensures NoWrap(iter, end, 1)
    decreases if iter < end then end - iter else 0
  {
    if iter < end { StepOneNoWrap(iter + 1, end); }
  }

  /** The last counter below end, and the one after it fits a word, too. */
  predicate LastFits(iter: nat, end: nat, step: nat)
    requires step > 0
  {
    iter >= end || iter + (end - 1 - iter) / step * step + step < WORD
  }

  /** Whether a counter wraps shows in the arguments of the loop. */
  lemma {:induction false} NoWrapIsLastFits(iter: nat, end: nat, step: nat)
    requires step > 0
    ensures NoWrap(iter, end, step) <==> LastFits(iter, end, step)
    decreases if iter < end then end - iter else 0
  {
    if iter < end {
      NoWrapIsLastFits(iter + step, end, step);
      if iter + step < end {
        DivStep(end - 1 - iter, step);
        Distribute((end - 1 - iter) / step, step);
      } else {
        Bitwise.DivUnique(end - 1 - iter, 0, end - 1 - iter, step);
      }
    }
  }

  lemma DivStep(x: nat, m: nat)
    requires 0 < m <= x
    ensures (x - m) / m == x / m - 1
  {
    var q, r := x / m, x % m;
    assert x == q * m + r;
    Distribute(q, m);
    Bitwise.DivUnique(x - m, q - 1, r, m);
  }

  lemma Distribute(q: int, m: int)
    ensures (q - 1) * m == q * m - m
  {
  }

  /** A loop that lists its counters and returns the list. */
  function Trace(begin: Exp, end: Exp, step: Exp, acc: Exp): For {
    For(begin, end, step, acc, (i, a, y: nat) => Prim(0, [[i], [a]], To(y)), a => Jump(Ret, [a]))
  }

  function TracePrims(op: nat, lists: seq<seq<Val<seq<nat>>>>): seq<nat> {
    if |lists| == 2 && |lists[0]| == 1 && lists[0][0].Word? && |lists[1]| == 1 && lists[1][0].Acc?
    then lists[1][0].acc + [lists[0][0].n] else []
  }

  function Snoc(i: nat, a: seq<nat>): seq<nat> {
    a + [i]
  }

  ghost predicate IsTrace(prog: seq<Code>, l: nat) {
    exists b, e, s, a :: IsLoop(prog, l, Trace(b, e, s, a))
  }

  /** The body of that loop is a single step. */
  lemma TraceYields(prog: seq<Code>, l: nat, env: Env<seq<nat>>, iter: nat, end: nat, step: nat, acc: seq<nat>,
                    base: Env<seq<nat>>)
    requires IsTrace(prog, l) && InBody(l, iter, end, step, base, env, acc)
    ensures Step(prog, TracePrims, At(l + 2, env)) == At(l + 1, env[l + 1 := [Acc(acc + [iter])]])
    ensures Yielded(prog, TracePrims, l, 1, env, env[l + 1 := [Acc(acc + [iter])]], acc + [iter])
  {
    var lists := [[Param(l, 0)], [Param(l + 2, 0)]];
    var vss := EvalLists(lists, TracePrims, env);
    assert Eval(lists[0][0], TracePrims, env) == Some(Word(iter))
        && Eval(lists[1][0], TracePrims, env) == Some(Acc(acc));
    assert EvalAll(lists[0], TracePrims, env).Some? && EvalAll(lists[1], TracePrims, env).Some?;
    assert vss.value[0] == [Word(iter)] && vss.value[1] == [Acc(acc)];
    var next := At(l + 1, env[l + 1 := [Acc(acc + [iter])]]);
    assert Step(prog, TracePrims, At(l + 2, env)) == next;
    assert Steps(0, prog, TracePrims, next) == next;
  }

  /** One round of that loop. */
  lemma TraceRound(prog: seq<Code>, l: nat, iter: nat, end: nat, step: nat, acc: seq<nat>, env: Env<seq<nat>>)
    returns (env': Env<seq<nat>>)
    requires IsTrace(prog, l) && l in env && env[l] == Args(iter, end, step, acc) && iter < end
    ensures Steps(3, prog, TracePrims, At(l, env)) == At(l, env')
    ensures forall k | k <= 2 :: Steps(k, prog, TracePrims, At(l, env)).At?
    ensures l in env' && env'[l] == Args((iter + step) % WORD, end, step, acc + [iter])
  {
    var b, e, s, a :| IsLoop(prog, l, Trace(b, e, s, a));
    var env1 := env[l + 2 := [Acc(acc)]];
    var env2 := env1[l + 1 := [Acc(acc + [iter])]];
    EnterBody(prog, TracePrims, l, iter, end, step, acc, env);
    TraceYields(prog, l, env1, iter, end, step, acc, env1);
    Increment(prog, TracePrims, l, iter, end, step, acc, acc + [iter], env2);
    env' := env2[l := Args((iter + step) % WORD, end, step, acc + [iter])];
    assert Steps(0, prog, TracePrims, At(l + 2, env1)) == At(l + 2, env1);
    assert Steps(0, prog, TracePrims, At(l + 1, env2)) == At(l + 1, env2);
    assert Steps(0, prog, TracePrims, At(l, env')) == At(l, env');
    assert Steps(1, prog, TracePrims, At(l + 1, env2)) == At(l, env');
    assert Steps(2, prog, TracePrims, At(l + 2, env1)) == Steps(1, prog, TracePrims, At(l + 1, env2));
    assert Steps(1, prog, TracePrims, At(l, env)) == At(l + 2, env1);
    assert Steps(2, prog, TracePrims, At(l, env)) == Steps(1, prog, TracePrims, At(l + 2, env1)) == At(l + 1, env2);
  }

  lemma TraceSkips(prog: seq<Code>, l: nat, iter: nat, end: nat, step: nat, acc: seq<nat>, env: Env<seq<nat>>, k: nat)
    returns (env': Env<seq<nat>>)
    requires IsTrace(prog, l) && l in env && env[l] == Args(iter, end, step, acc) && iter < end
    requires Steps(k, prog, TracePrims, At(l, env)).Done?
    ensures k >= 3 && Steps(k, prog, TracePrims, At(l, env)) == Steps(k - 3, prog, TracePrims, At(l, env'))
    ensures l in env' && env'[l] == Args((iter + step) % WORD, end, step, acc + [iter])
  {
    env' := TraceRound(prog, l, iter, end, step, acc, env);
    assert k >= 3;
    StepsAdd(3, k - 3, prog, TracePrims, At(l, env));
  }

  /** Whatever the loop returns lists one counter at least for every call below end. */
  lemma {:induction false} TraceGrows(prog: seq<Code>, l: nat, iter: nat, end: nat, step: nat, acc: seq<nat>,
                                      env: Env<seq<nat>>, k: nat)
    requires IsTrace(prog, l) && l in env && env[l] == Args(iter, end, step, acc)
             && Steps(k, prog, TracePrims, At(l, env)).Done?
    ensures |Steps(k, prog, TracePrims, At(l, env)).result| >= |acc| + if iter < end then 1 else 0
    decreases k
  {
    if iter < end {
      var env' := TraceSkips(prog, l, iter, end, step, acc, env, k);
      TraceGrows(prog, l, (iter + step) % WORD, end, step, acc + [iter], env', k - 3);
    } else {
      TraceBreaks(prog, l, iter, end, step, acc, env);
      EndsOnce(k, 2, prog, TracePrims, At(l, env));
    }
  }

  lemma TraceBreaks(prog: seq<Code>, l: nat, iter: nat, end: nat, step: nat, acc: seq<nat>, env: Env<seq<nat>>)
    requires IsTrace(prog, l) && l in env && env[l] == Args(iter, end, step, acc) && iter >= end
    ensures Steps(2, prog, TracePrims, At(l, env)) == Done(acc)
  {
    var b, e, s, a :| IsLoop(prog, l, Trace(b, e, s, a));
    EnterBody(prog, TracePrims, l, iter, end, step, acc, env);
    var env' := env[l + 3 := [Acc(acc)]];
    var vs := EvalAll([Param(l + 3, 0)], TracePrims, env');
    assert Eval([Param(l + 3, 0)][0], TracePrims, env') == Some(Acc(acc));
    assert vs.value == [Acc(acc)];
    assert Step(prog, TracePrims, At(l + 3, env')) == Done(acc);
    assert Steps(0, prog, TracePrims, Done(acc)) == Done(acc);
    assert Steps(1, prog, TracePrims, At(l + 3, env')) == Done(acc);
  }

  lemma {:induction false} IterateGrows(iter: nat, end: nat, step: nat, acc: seq<nat>)
    requires step > 0
    ensures |Iterate(Snoc, iter, end, step, acc)| >= |acc|
    decreases if iter < end then end - iter else 0
  {
    if iter < end { IterateGrows(iter + step, end, step, acc + [iter]); }
  }

  /** If a counter wraps, the loop does not compute what it stands for: when it should have ended, it goes on. */
  lemma {:induction false} WrapsGoWrong(prog: seq<Code>, l: nat, iter: nat, end: nat, step: nat, acc: seq<nat>,
                                        env: Env<seq<nat>>, k: nat)
    requires IsTrace(prog, l) && iter < WORD && end < WORD && 0 < step < WORD && !NoWrap(iter, end, step)
    requires l in env && env[l] == Args(iter, end, step, acc)
    ensures Steps(k, prog, TracePrims, At(l, env)) != Done(Iterate(Snoc, iter, end, step, acc))
    decreases if iter < end then end - iter else 0
  {
    if Steps(k, prog, TracePrims, At(l, env)).Done? {
      var env' := TraceSkips(prog, l, iter, end, step, acc, env, k);
      if iter + step < WORD {
        WrapsGoWrong(prog, l, iter + step, end, step, acc + [iter], env', k - 3);
      } else {
        assert (iter + step) % WORD == iter + step - WORD < end;
        TraceGrows(prog, l, (iter + step) % WORD, end, step, acc + [iter], env', k - 3);
      }
    }
  }

  /** The lowered loop computes what the loop stands for exactly if the counter after the last fits a word. */
  lemma IteratesIffLastFits(prog: seq<Code>, l: nat, iter: nat, end: nat, step: nat, acc: seq<nat>, env: Env<seq<nat>>)
    requires IsTrace(prog, l) && iter < WORD && end < WORD && 0 < step < WORD
    requires l in env && env[l] == Args(iter, end, step, acc)
    ensures (exists k :: Steps(k, prog, TracePrims, At(l, env)) == Done(Iterate(Snoc, iter, end, step, acc)))
       <==> LastFits(iter, end, step)
  {
    NoWrapIsLastFits(iter, end, step);
    if NoWrap(iter, end, step) {
      var b, e, s, a :| IsLoop(prog, l, Trace(b, e, s, a));
      TraceBody(prog, l, end, step, env);
      var j, env' := LoopIterates(prog, TracePrims, l, Snoc, _ => true, iter, end, step, acc, env, env);
      var r := Iterate(Snoc, iter, end, step, acc);
      StepsAdd(j, 1, prog, TracePrims, At(l, env));
      ReturnStep(prog, l, env', r);
      assert Steps(j + 1, prog, TracePrims, At(l, env)) == Done(r);
    } else {
      forall k
        ensures Steps(k, prog, TracePrims, At(l, env)) != Done(Iterate(Snoc, iter, end, step, acc))
      {
        WrapsGoWrong(prog, l, iter, end, step, acc, env, k);
      }
    }
  }

  lemma ReturnStep(prog: seq<Code>, l: nat, env: Env<seq<nat>>, r: seq<nat>)
    requires IsTrace(prog, l) && l + 3 in env && env[l + 3] == [Acc(r)]
    ensures Steps(1, prog, TracePrims, At(l + 3, env)) == Done(r)
  {
    var vs := EvalAll([Param(l + 3, 0)], TracePrims, env);
    assert Eval([Param(l + 3, 0)][0], TracePrims, env) == Some(Acc(r));
    assert vs.value == [Acc(r)];
    assert Step(prog, TracePrims, At(l + 3, env)) == Done(r);
    assert Steps(0, prog, TracePrims, Done(r)) == Done(r);
  }

  lemma TraceBody(prog: seq<Code>, l: nat, end: nat, step: nat, base: Env<seq<nat>>)
    requires IsTrace(prog, l)
    ensures BodyYields(prog, TracePrims, l, Snoc, _ => true, end, step, base)
  {
    forall iter, acc, env {:trigger InBody(l, iter, end, step, base, env, acc)}
        | InBody(l, iter, end, step, base, env, acc)
      ensures YieldsAt(prog, TracePrims, l, env, Snoc(iter, acc))
    {
      TraceYields(prog, l, env, iter, end, step, acc, base);
    }
  }

  /** From 0 in steps of 2 up to 2^32 - 1 the counter wraps, and the functions run forever. */
  lemma {:induction false} WrapsForever(prog: seq<Code>, l: nat, iter: nat, acc: seq<nat>, env: Env<seq<nat>>, k: nat)
    requires IsTrace(prog, l) && iter % 2 == 0 && iter < WORD && l in env && env[l] == Args(iter, WORD - 1, 2, acc)
    ensures Steps(k, prog, TracePrims, At(l, env)).At?
    decreases k
  {
    var env' := TraceRound(prog, l, iter, WORD - 1, 2, acc, env);
    if k >= 3 {
      StepsAdd(3, k - 3, prog, TracePrims, At(l, env));
      WrapsForever(prog, l, (iter + 2) % WORD, acc + [iter], env', k - 3);
    }
  }
}
