/** Functions that take a flat list of scalars instead of nested tuples. */
module Scalarize {
  import opened Tuples
  import opened Flatten

  /** e with r in place of variable id, built anew. */
  function Subst(e: Expr, id: nat, r: Expr): (s: Expr)
    requires Typed(e) && Typed(r) && Fits(e, id, r)
    ensures Typed(s) && TypeOf(s) == TypeOf(e)
  {
    match e
    case Lit(_, _) => e
    case Var(v, _) => if v == id then r else e
    case Tuple(ops) =>
      var os := SubstAll(ops, id, r);
      MkTupleMeansType(os);
      MkTuple(os)
    case Pack(n, body) => Pack(n, Subst(body, id, r))
    case Extract(t, i) =>
      var t', i' := Subst(t, id, r), Subst(i, id, r);
      ElemSame(TypeOf(t), i, i');
      ExtractTyped(t', i');
      MkExtract(t', i')
    case Insert(t, i, v) =>
      var t', v' := Subst(t, id, r), Subst(v, id, r);
      InsertTyped(t', i, v');
      MkInsert(t', i, v')
    case Prim(op, arg) => Prim(op, Subst(arg, id, r))
  }

  lemma ElemSame(ty: Type, i: Expr, i': Expr)
    requires ty.Sigma? && IndexOk(ty, i) && IndexOk(ty, i') && Typed(i) && Typed(i') && (i.Lit? ==> i' == i)
    ensures ElemType(ty, i') == ElemType(ty, i)
  {
    if i'.Lit? && !i.Lit? {
      assert ty.ops[i'.value] in ty.ops;
    }
  }

  function SubstAll(es: seq<Expr>, id: nat, r: Expr): (ss: seq<Expr>)
    requires Typed(r) && forall e | e in es :: Typed(e) && Fits(e, id, r)
    ensures |ss| == |es| && (forall s | s in ss :: Typed(s)) && TypesOf(ss) == TypesOf(es)
  {
    if es == [] then []
    else
      var init, last := SubstAll(es[..|es| - 1], id, r), Subst(es[|es| - 1], id, r);
      assert (init + [last])[..|init|] == init;
      init + [last]
  }

  /** All occurrences of the variable have r's type; updates are at literal indices. */
  ghost predicate Fits(e: Expr, id: nat, r: Expr) {
    match e
    case Lit(_, _) => true
    case Var(v, ty) => v == id ==> TypeOf(r) == ty
    case Tuple(ops) => forall o | o in ops :: Fits(o, id, r)
    case Pack(_, body) => Fits(body, id, r)
    case Extract(t, i) => Fits(t, id, r) && Fits(i, id, r)
    case Insert(t, i, v) => Fits(t, id, r) && i.Lit? && Fits(v, id, r)
    case Prim(_, arg) => Fits(arg, id, r)
  }

  lemma MkTupleMeansType(ops: seq<Expr>)
    requires |ops| != 1 && forall o | o in ops :: Typed(o)
    ensures Typed(MkTuple(ops)) && TypeOf(MkTuple(ops)) == Sigma(TypesOf(ops))
  {
    TupleTyped(ops);
    assert Typed(Tuple(ops)) && TypeOf(Tuple(ops)) == Sigma(TypesOf(ops));
    if |ops| > 1 {
      assert ops[0] in ops;
      if AllSame(ops) {
        SameTyped(ops);
      } else if IsEta(ops) {
        EtaTyped(ops);
      }
    }
  }

  lemma SameTyped(ops: seq<Expr>)
    requires |ops| > 1 && Typed(ops[0]) && Typed(Tuple(ops)) && AllSame(ops)
    ensures Typed(Pack(|ops|, ops[0])) && TypeOf(Pack(|ops|, ops[0])) == Sigma(TypesOf(ops))
  {
    AllSameMeans(ops, []);
  }

  lemma EtaTyped(ops: seq<Expr>)
    requires IsEta(ops) && Typed(ops[0])
    ensures Typed(ops[0].tuple)
  {
  }

  lemma InsertTyped(d: Expr, index: Expr, v: Expr)
    requires Typed(d) && Typed(index) && Typed(v) && index.Lit? && TypeOf(d).Sigma? && IndexOk(TypeOf(d), index)
    requires TypeOf(v) == ElemType(TypeOf(d), index)
    ensures Typed(MkInsert(d, index, v)) && TypeOf(MkInsert(d, index, v)) == TypeOf(d)
  {
    if d.Tuple? {
      RefineTyped(d.ops, index.value, v);
    } else if d.Pack? {
      var ops := seq(d.arity, _ => d.body);
      assert seq(d.arity, i => if i == index.value then v else d.body) == ops[index.value := v];
      assert TypesOf(ops) == TypeOf(d).ops;
      RefineTyped(ops, index.value, v);
    }
  }

  lemma RefineTyped(ops: seq<Expr>, i: nat, v: Expr)
    requires |ops| != 1 && i < |ops| && (forall o | o in ops :: Typed(o)) && Typed(v) && TypeOf(v) == TypesOf(ops)[i]
    ensures Typed(MkTuple(ops[i := v])) && TypeOf(MkTuple(ops[i := v])) == Sigma(TypesOf(ops))
  {
    var ops' := ops[i := v];
    forall o | o in ops'
      ensures Typed(o)
    {
      if o != v { assert o in ops; }
    }
    MkTupleMeansType(ops');
    assert TypesOf(ops') == TypesOf(ops);
  }

  /** Substitution means giving the variable the value of what is put in its place. */
  lemma {:induction false} SubstMeans(e: Expr, id: nat, r: Expr, env: seq<Val>)
    requires Typed(e) && Typed(r) && Fits(e, id, r) && id < |env|
    requires EnvOk(r, env) && EnvOk(e, env[id := Eval(r, env)])
    ensures EnvOk(Subst(e, id, r), env) && Eval(Subst(e, id, r), env) == Eval(e, env[id := Eval(r, env)])
  {
    var env' := env[id := Eval(r, env)];
    match e
    case Lit(_, _) =>
    case Var(_, _) =>
    case Tuple(ops) =>
      SubstAllMeans(ops, id, r, env);
      var os := SubstAll(ops, id, r);
      MkTupleMeans(os, env);
    case Pack(n, body) =>
      SubstMeans(body, id, r, env);
      assert Eval(Pack(n, Subst(body, id, r)), env).vs == Eval(e, env').vs;
    case Extract(t, i) =>
      SubstMeans(t, id, r, env);
      SubstMeans(i, id, r, env);
      MkExtractMeans(Subst(t, id, r), Subst(i, id, r), env);
    case Insert(t, i, v) =>
      SubstMeans(t, id, r, env);
      SubstMeans(v, id, r, env);
      MkInsertMeans(Subst(t, id, r), i, Subst(v, id, r), env);
    case Prim(_, arg) =>
      SubstMeans(arg, id, r, env);
  }

  lemma {:induction false} SubstAllMeans(es: seq<Expr>, id: nat, r: Expr, env: seq<Val>)
    requires Typed(r) && (forall e | e in es :: Typed(e) && Fits(e, id, r)) && id < |env|
    requires EnvOk(r, env) && forall e | e in es :: EnvOk(e, env[id := Eval(r, env)])
    ensures forall s | s in SubstAll(es, id, r) :: EnvOk(s, env)
    ensures Evals(SubstAll(es, id, r), env) == Evals(es, env[id := Eval(r, env)])
  {
    if es != [] {
      var e := es[|es| - 1];
      assert e in es && EnvOk(e, env[id := Eval(r, env)]);
      forall f | f in es[..|es| - 1]
        ensures EnvOk(f, env[id := Eval(r, env)]) && Typed(f) && Fits(f, id, r)
      {
        assert f in es;
      }
      SubstAllMeans(es[..|es| - 1], id, r, env);
      SubstMeans(e, id, r, env);
    }
  }

  /** A function: the types of its parameters, and its body, in which variable id stands for the tuple of all
      parameters. */
  datatype Lam = Lam(doms: seq<Type>, id: nat, body: Expr)

  /** The type of a list of parameters; a single parameter is no tuple. */
  function ParamType(tys: seq<Type>): Type {
    if |tys| == 1 then tys[0] else Sigma(tys)
  }

  ghost predicate LamOk(lam: Lam) {
    && |lam.doms| > 1 && OkType(Sigma(lam.doms)) && Typed(lam.body) && UsesOf(lam.body, lam.id, Sigma(lam.doms))
  }

  /** All occurrences of the variable have type ty, and updates are at literal indices. */
  ghost predicate UsesOf(e: Expr, id: nat, ty: Type) {
    Fits(e, id, Var(id, ty))
  }

  /** Parameter n of a function whose parameters have these types. */
  function ParamOf(id: nat, tys: seq<Type>, n: nat): (r: Expr)
    requires OkType(ParamType(tys)) && n < |tys|
    ensures Typed(r) && TypeOf(r) == tys[n]
  {
    if |tys| == 1 then Var(id, tys[0]) else ProjOf(Var(id, Sigma(tys)), n)
  }

  /** All leaf types of the parameters. */
  function FlatDoms(doms: seq<Type>, k: nat): seq<Type>
    requires k <= |doms|
  {
    FlatUpTo(Sigma(doms), k)
  }

  /** What a caller passes to the flat function for v. */
  function FlatArg(v: Val, doms: seq<Type>): Val {
    var vs := ValLeaves(v, Sigma(doms));
    if |vs| == 1 then vs[0] else Tup(vs)
  }

  /** The flat function computes from flattened arguments what lam computes. */
  ghost predicate Flattens(lam: Lam, sca: Lam) {
    && sca.doms == FlatTypes(Sigma(lam.doms)) && Typed(sca.body) && TypeOf(sca.body) == TypeOf(lam.body)
    && forall env, v {:trigger FlattensAt(lam, sca, env, v)}
        | lam.id < |env| && sca.id < |env| && HasType(v, Sigma(lam.doms)) && EnvOk(lam.body, env[lam.id := v]) ::
         FlattensAt(lam, sca, env, v)
  }

  ghost predicate FlattensAt(lam: Lam, sca: Lam, env: seq<Val>, v: Val)
    requires lam.id < |env| && sca.id < |env|
  {
    Eval(sca.body, env[sca.id := FlatArg(v, lam.doms)]) == Eval(lam.body, env[lam.id := v])
  }

  /** The parameters of the flat function, put together again as those of lam. */
  function NewVarsUpTo(doms: seq<Type>, params: seq<Expr>, k: nat): (r: seq<Expr>)
    requires k <= |doms|
    ensures |r| == k
  {
    if k == 0 then []
    else NewVarsUpTo(doms, params, k - 1) + [NewVar(doms, params, k - 1)]
  }

  /** Parameter i of lam: rebuilt from its slice of the parameters. */
  function NewVar(doms: seq<Type>, params: seq<Expr>, i: nat): Expr
    requires i < |doms|
  {
    var from, to := |FlatDoms(doms, i)|, |FlatDoms(doms, i + 1)|;
    if from <= to <= |params| then Rebuild(params[from..to], doms[i], 0).0 else Tuple([])
  }

  /** The parameters denote the leaves of the argument. */
  lemma ParamsDenote(doms: seq<Type>, id: nat, v: Val, env: seq<Val>, params: seq<Expr>)
    requires OkType(Sigma(doms)) && HasType(v, Sigma(doms)) && id < |env| && env[id] == FlatArg(v, doms)
    requires OkType(ParamType(FlatTypes(Sigma(doms)))) && |params| == |FlatTypes(Sigma(doms))|
    requires forall n | 0 <= n < |params| :: params[n] == ParamOf(id, FlatTypes(Sigma(doms)), n)
    ensures Denote(params, FlatTypes(Sigma(doms)), ValLeaves(v, Sigma(doms)), env)
  {
    var flat, vs := FlatTypes(Sigma(doms)), ValLeaves(v, Sigma(doms));
    SameLength(v, Sigma(doms));
    LeavesTyped(v, Sigma(doms));
    forall n {:trigger DenotesAt(params[n], flat[n], vs[n], env)} | 0 <= n < |flat|
      ensures DenotesAt(params[n], flat[n], vs[n], env)
    {
      if |flat| > 1 {
        var p := Var(id, Sigma(flat));
        assert EnvOk(p, env);
        ProjMeans(p, n, env);
      }
    }
  }

  /** Leaves have the types of leaves. */
  lemma {:induction false} LeavesTyped(v: Val, ty: Type)
    requires HasType(v, ty)
    ensures |ValLeaves(v, ty)| == |FlatTypes(ty)|
    ensures forall i | 0 <= i < |FlatTypes(ty)| :: HasType(ValLeaves(v, ty)[i], FlatTypes(ty)[i])
    decreases ty, 1
  {
    if ty.Sigma? { LeavesTypedUpTo(v, ty, |ty.ops|); }
  }

  lemma {:induction false} LeavesTypedUpTo(v: Val, ty: Type, k: nat)
    requires HasType(v, ty) && ty.Sigma? && k <= |ty.ops|
    ensures |ValUpTo(v, ty, k)| == |FlatUpTo(ty, k)|
    ensures forall i | 0 <= i < |FlatUpTo(ty, k)| :: HasType(ValUpTo(v, ty, k)[i], FlatUpTo(ty, k)[i])
    decreases ty, 0, k
  {
    if k > 0 {
      LeavesTypedUpTo(v, ty, k - 1);
      LeavesTyped(v.vs[k - 1], ty.ops[k - 1]);
    }
  }

  lemma {:induction false} FlatOk(ty: Type)
    requires OkType(ty)
    ensures forall t | t in FlatTypes(ty) :: OkType(t) && !t.Sigma?
    decreases ty, 1
  {
    if ty.Sigma? { FlatOkUpTo(ty, |ty.ops|); }
  }

  lemma {:induction false} FlatOkUpTo(ty: Type, k: nat)
    requires OkType(ty) && ty.Sigma? && k <= |ty.ops|
    ensures forall t | t in FlatUpTo(ty, k) :: OkType(t) && !t.Sigma?
    decreases ty, 0, k
  {
    if k > 0 {
      FlatOkUpTo(ty, k - 1);
      assert ty.ops[k - 1] in ty.ops;
      FlatOk(ty.ops[k - 1]);
    }
  }

  /** The flat parameters put together denote the arguments, one by one. */
  lemma {:induction false} NewVarsDenote(doms: seq<Type>, v: Val, env: seq<Val>, params: seq<Expr>, k: nat)
    requires OkType(Sigma(doms)) && HasType(v, Sigma(doms)) && k <= |doms| && NoTuples(params)
    requires Denote(params, FlatTypes(Sigma(doms)), ValLeaves(v, Sigma(doms)), env)
    ensures Denote(NewVarsUpTo(doms, params, k), doms[..k], v.vs[..k], env)
  {
    if k > 0 {
      NewVarsDenote(doms, v, env, params, k - 1);
      NewVarDenotes(doms, v, env, params, k - 1);
      assert doms[..k] == doms[..k - 1] + [doms[k - 1]] && v.vs[..k] == v.vs[..k - 1] + [v.vs[k - 1]];
      DenoteSnoc(NewVarsUpTo(doms, params, k - 1), doms[..k - 1], v.vs[..k - 1], env, NewVar(doms, params, k - 1),
          doms[k - 1], v.vs[k - 1]);
    }
  }

  lemma NewVarDenotes(doms: seq<Type>, v: Val, env: seq<Val>, params: seq<Expr>, i: nat)
    requires OkType(Sigma(doms)) && HasType(v, Sigma(doms)) && i < |doms| && NoTuples(params)
    requires Denote(params, FlatTypes(Sigma(doms)), ValLeaves(v, Sigma(doms)), env)
    ensures DenotesAt(NewVar(doms, params, i), doms[i], v.vs[i], env)
  {
    var ty := Sigma(doms);
    var from, to := |FlatUpTo(ty, i)|, |FlatUpTo(ty, i + 1)|;
    SliceOf(v, ty, i, |doms|);
    assert doms[i] in doms;
    var es := params[from..to];
    SameLength(v.vs[i], doms[i]);
    forall n {:trigger DenotesAt(es[n], FlatTypes(doms[i])[n], ValLeaves(v.vs[i], doms[i])[n], env)} | 0 <= n < |es|
      ensures DenotesAt(es[n], FlatTypes(doms[i])[n], ValLeaves(v.vs[i], doms[i])[n], env)
    {
      assert DenotesAt(params[from + n], FlatTypes(ty)[from + n], ValLeaves(v, ty)[from + n], env);
      assert FlatTypes(ty)[from..to][n] == FlatTypes(ty)[from + n]
          && ValLeaves(v, ty)[from..to][n] == ValLeaves(v, ty)[from + n];
    }
    assert es[0..0 + |FlatTypes(doms[i])|] == es;
    RebuildMeans(es, doms[i], 0, v.vs[i], env);
  }

  /** The leaves of operand i are a slice of all leaves. */
  lemma {:induction false} SliceOf(v: Val, ty: Type, i: nat, k: nat)
    requires ty.Sigma? && i < k <= |ty.ops| && HasType(v, ty)
    ensures var from, to := |FlatUpTo(ty, i)|, |FlatUpTo(ty, i + 1)|;
            && from <= to <= |FlatUpTo(ty, k)| == |ValUpTo(v, ty, k)|
            && FlatUpTo(ty, k)[from..to] == FlatTypes(ty.ops[i])
                && ValUpTo(v, ty, k)[from..to] == ValLeaves(v.vs[i], ty.ops[i])
    decreases k
  {
    SameLengthUpTo(v, ty, i);
    SameLengthUpTo(v, ty, i + 1);
    SameLengthUpTo(v, ty, k);
    SameLengthUpTo(v, ty, k - 1);
    if i < k - 1 {
      SliceOf(v, ty, i, k - 1);
      var from, to := |FlatUpTo(ty, i)|, |FlatUpTo(ty, i + 1)|;
      SliceOfPrefix(FlatUpTo(ty, k - 1), FlatTypes(ty.ops[k - 1]), from, to);
      SliceOfPrefix(ValUpTo(v, ty, k - 1), ValLeaves(v.vs[k - 1], ty.ops[k - 1]), from, to);
    } else {
      SliceOfRest(FlatUpTo(ty, i), FlatTypes(ty.ops[i]));
      SliceOfRest(ValUpTo(v, ty, i), ValLeaves(v.vs[i], ty.ops[i]));
    }
  }

  lemma SliceOfPrefix<T>(a: seq<T>, b: seq<T>, from: nat, to: nat)
    requires from <= to <= |a|
    ensures (a + b)[from..to] == a[from..to]
  {
  }

  lemma SliceOfRest<T>(a: seq<T>, b: seq<T>)
    ensures (a + b)[|a|..|a + b|] == b
  {
  }

  /** The variable does not occur. */
  ghost predicate Avoids(e: Expr, id: nat) {
    match e
    case Lit(_, _) => true
    case Var(v, _) => v != id
    case Tuple(ops) => forall o | o in ops :: Avoids(o, id)
    case Pack(_, body) => Avoids(body, id)
    case Extract(t, i) => Avoids(t, id) && Avoids(i, id)
    case Insert(t, i, v) => Avoids(t, id) && Avoids(i, id) && Avoids(v, id)
    case Prim(_, arg) => Avoids(arg, id)
  }

  lemma {:induction false} EvalAvoids(e: Expr, id: nat, env: seq<Val>, x: Val)
    requires Avoids(e, id) && id < |env|
    ensures Eval(e, env[id := x]) == Eval(e, env) && (EnvOk(e, env) ==> EnvOk(e, env[id := x]))
  {
    match e
    case Tuple(ops) =>
      forall o | o in ops
        ensures Eval(o, env[id := x]) == Eval(o, env) && (EnvOk(o, env) ==> EnvOk(o, env[id := x]))
      {
        EvalAvoids(o, id, env, x);
      }
      assert Evals(ops, env[id := x]) == Evals(ops, env);
    case Pack(_, body) =>
      EvalAvoids(body, id, env, x);
      assert Eval(e, env[id := x]).vs == Eval(e, env).vs;
    case Extract(t, i) =>
      EvalAvoids(t, id, env, x);
      EvalAvoids(i, id, env, x);
    case Insert(t, i, v) =>
      EvalAvoids(t, id, env, x);
      EvalAvoids(i, id, env, x);
      EvalAvoids(v, id, env, x);
    case Prim(_, arg) => EvalAvoids(arg, id, env, x);
    case _ =>
  }

  lemma {:induction false} FitsType(e: Expr, id: nat, r: Expr, r': Expr)
    requires Fits(e, id, r) && TypeOf(r) == TypeOf(r')
    ensures Fits(e, id, r')
  {
    match e
    case Tuple(ops) =>
      forall o | o in ops
        ensures Fits(o, id, r')
      {
        FitsType(o, id, r, r');
      }
    case Pack(_, body) => FitsType(body, id, r, r');
    case Extract(t, i) =>
      FitsType(t, id, r, r');
      FitsType(i, id, r, r');
    case Insert(t, _, v) =>
      FitsType(t, id, r, r');
      FitsType(v, id, r, r');
    case Prim(_, arg) => FitsType(arg, id, r, r');
    case _ =>
  }

  /** The parameters of the flat function. */
  function Params(doms: seq<Type>, id: nat): seq<Expr>
    requires OkType(Sigma(doms))
  {
    FlatParamOk(doms);
    var flat := FlatTypes(Sigma(doms));
    seq(|flat|, n requires 0 <= n < |flat| => ParamOf(id, flat, n))
  }

  lemma FlatParamOk(doms: seq<Type>)
    requires OkType(Sigma(doms))
    ensures OkType(ParamType(FlatTypes(Sigma(doms))))
  {
    FlatOk(Sigma(doms));
  }

  lemma ParamsNoTuples(doms: seq<Type>, id: nat)
    requires OkType(Sigma(doms))
    ensures NoTuples(Params(doms, id))
  {
    FlatOk(Sigma(doms));
    FlatParamOk(doms);
    var flat := FlatTypes(Sigma(doms));
    forall d | d in Params(doms, id)
      ensures !TypeOf(d).Sigma?
    {
      var n :| 0 <= n < |flat| && Params(doms, id)[n] == d;
      assert flat[n] in flat;
    }
  }

  /** Put together again, the flat parameters are the tuple of arguments. */
  lemma NewVarsAre(doms: seq<Type>, id: nat, v: Val, env: seq<Val>)
    requires |doms| > 1 && OkType(Sigma(doms)) && HasType(v, Sigma(doms)) && id < |env| && env[id] == FlatArg(v, doms)
    ensures DenotesAt(MkTuple(NewVarsUpTo(doms, Params(doms, id), |doms|)), Sigma(doms), v, env)
  {
    FlatParamOk(doms);
    var params := Params(doms, id);
    ParamsDenote(doms, id, v, env, params);
    ParamsNoTuples(doms, id);
    NewVarsDenote(doms, v, env, params, |doms|);
    assert doms[..|doms|] == doms && v.vs[..|doms|] == v.vs;
    TupleDenotes(NewVarsUpTo(doms, params, |doms|), Sigma(doms), v, env);
  }

  /** A call of the flat function with flattened arguments does what the call of lam does: every parameter is
      bound to its original argument. */
  lemma ScalarFlattens(lam: Lam, sca: Lam)
    requires LamOk(lam) && sca.id != lam.id && Avoids(lam.body, sca.id) && sca.doms == FlatTypes(Sigma(lam.doms))
    requires var r := MkTuple(NewVarsUpTo(lam.doms, Params(lam.doms, sca.id), |lam.doms|));
             Typed(r) && TypeOf(r) == Sigma(lam.doms) && Fits(lam.body, lam.id, r)
                 && sca.body == Subst(lam.body, lam.id, r)
    ensures Flattens(lam, sca)
  {
    var r := MkTuple(NewVarsUpTo(lam.doms, Params(lam.doms, sca.id), |lam.doms|));
    forall env, v {:trigger FlattensAt(lam, sca, env, v)}
        | lam.id < |env| && sca.id < |env| && HasType(v, Sigma(lam.doms)) && EnvOk(lam.body, env[lam.id := v])
      ensures FlattensAt(lam, sca, env, v)
    {
      FlattensHere(lam, sca, r, env, v);
    }
  }

  lemma FlattensHere(lam: Lam, sca: Lam, r: Expr, env: seq<Val>, v: Val)
    requires LamOk(lam) && sca.id != lam.id && Avoids(lam.body, sca.id)
    requires r == MkTuple(NewVarsUpTo(lam.doms, Params(lam.doms, sca.id), |lam.doms|))
    requires Typed(r) && TypeOf(r) == Sigma(lam.doms) && Fits(lam.body, lam.id, r)
             && sca.body == Subst(lam.body, lam.id, r)
    requires lam.id < |env| && sca.id < |env| && HasType(v, Sigma(lam.doms)) && EnvOk(lam.body, env[lam.id := v])
    ensures FlattensAt(lam, sca, env, v)
  {
    var flat := FlatArg(v, lam.doms);
    var env' := env[sca.id := flat];
    NewVarsAre(lam.doms, sca.id, v, env');
    EvalAvoids(lam.body, sca.id, env[lam.id := v], flat);
    assert env[lam.id := v][sca.id := flat] == env'[lam.id := v];
    SubstMeans(lam.body, lam.id, r, env');
  }

  /** At a call, the tuple of the leaves of the argument is what the flat function expects. */
  lemma CallPasses(arg: Expr, doms: seq<Type>, env: seq<Val>)
    requires Typed(arg) && TypeOf(arg) == Sigma(doms) && EnvOk(arg, env)
    ensures Typed(MkTuple(Leaves(arg))) && Eval(MkTuple(Leaves(arg)), env) == FlatArg(Eval(arg, env), doms)
    ensures TypeOf(MkTuple(Leaves(arg))) == ParamType(FlatTypes(Sigma(doms)))
  {
    var ls, tys, vs := Leaves(arg), FlatTypes(Sigma(doms)), ValLeaves(Eval(arg, env), Sigma(doms));
    LeavesDenote(arg, env);
    forall i | 0 <= i < |ls|
      ensures Typed(ls[i]) && EnvOk(ls[i], env) && TypeOf(ls[i]) == tys[i] && Eval(ls[i], env) == vs[i]
    {
      assert DenotesAt(ls[i], tys[i], vs[i], env);
    }
    MkTupleMeans(ls, env);
    assert TypesOf(ls) == tys && Evals(ls, env) == vs;
  }

  /** Some value of a type. */
  function SomeVal(ty: Type): (v: Val)
    requires OkType(ty)
    ensures HasType(v, ty)
  {
    match ty
    case Sigma(ops) => Tup(seq(|ops|, i requires 0 <= i < |ops| => assert ops[i] in ops; SomeVal(ops[i])))
    case _ => Scalar(0)
  }

  lemma NewVarsTyped(doms: seq<Type>, id: nat)
    requires |doms| > 1 && OkType(Sigma(doms))
    ensures var r := MkTuple(NewVarsUpTo(doms, Params(doms, id), |doms|)); Typed(r) && TypeOf(r) == Sigma(doms)
  {
    var v := SomeVal(Sigma(doms));
    var env := seq(id + 1, _ => FlatArg(v, doms));
    NewVarsAre(doms, id, v, env);
  }

  class Scalerize {
    var lams: seq<Lam>
    /** The flat functions made so far. */
    var tup2sca: map<nat, nat>

    ghost predicate Valid()
      reads this
    {
      && (forall k | 0 <= k < |lams| :: lams[k].id == k)
      && (forall t | t in tup2sca :: t < |lams| && tup2sca[t] < |lams|)
      && (forall t | t in tup2sca && tup2sca[t] != t :: Flattens(lams[t], lams[tup2sca[t]]))
    }

    constructor (lams: seq<Lam>)
      requires forall k | 0 <= k < |lams| :: lams[k].id == k
      ensures Valid() && this.lams == lams && tup2sca == map[]
    {
      this.lams := lams;
      tup2sca := map[];
    }

    /** The flat function for t, or t itself if its parameters are flat already. */
    method MakeScalar(t: nat) returns (s: nat)
      requires Valid() && t < |lams| && LamOk(lams[t]) && Avoids(lams[t].body, |lams|)
      modifies this
      ensures Valid() && old(lams) <= lams && s < |lams| && t in tup2sca && tup2sca[t] == s
      ensures t !in old(tup2sca) ==> (s == t <==> forall d | d in lams[t].doms :: !d.Sigma?)
      ensures forall u | u in old(tup2sca) :: u in tup2sca && tup2sca[u] == old(tup2sca)[u]
    {
      if t in tup2sca {
        return tup2sca[t];
      }
      var lam := lams[t];
      var types, argSz, todo := FlattenDoms(lam.doms);
      if !todo {
        tup2sca := tup2sca[t := t];
        return t;
      }
      s := |lams|;
      var sca := Build(lam, types, argSz, s);
      lams := lams + [sca];
      tup2sca := tup2sca[s := s][t := s];
    }

    /** The flat function with number s. */
    method Build(lam: Lam, types: seq<Type>, argSz: seq<nat>, s: nat) returns (sca: Lam)
      requires LamOk(lam) && s != lam.id && Avoids(lam.body, s) && types == FlatTypes(Sigma(lam.doms))
      requires argSz == seq(|lam.doms|, i requires 0 <= i < |lam.doms| => |FlatTypes(lam.doms[i])|)
      ensures sca.id == s && Flattens(lam, sca)
    {
      NewVarsTyped(lam.doms, s);
      var vars := CollectVars(lam.doms, argSz, s);
      var newVars := MkTuple(vars);
      FitsType(lam.body, lam.id, Var(lam.id, Sigma(lam.doms)), newVars);
      sca := Lam(types, s, Subst(lam.body, lam.id, newVars));
      ScalarFlattens(lam, sca);
    }

    /** The leaf types of all parameters, and how many each parameter has. */
    method FlattenDoms(doms: seq<Type>) returns (types: seq<Type>, argSz: seq<nat>, todo: bool)
      requires OkType(Sigma(doms))
      ensures types == FlatTypes(Sigma(doms))
      ensures argSz == seq(|doms|, i requires 0 <= i < |doms| => |FlatTypes(doms[i])|)
      ensures !todo <==> forall d | d in doms :: !d.Sigma?
    {
      types, argSz, todo := [], [], false;
      for i := 0 to |doms|
        invariant types == FlatUpTo(Sigma(doms), i)
        invariant |argSz| == i && forall k | 0 <= k < i :: argSz[k] == |FlatTypes(doms[k])|
        invariant !todo <==> forall d | d in doms[..i] :: !d.Sigma?
      {
        assert doms[i] in doms && doms[..i + 1] == doms[..i] + [doms[i]];
        FlatOk(doms[i]);
        ghost var before := types;
        var n;
        types, n := FlattenType(types, doms[i]);
        argSz := argSz + [n];
        assert n == 1 ==> types[|types| - 1] == FlatTypes(doms[i])[0] && FlatTypes(doms[i])[0] in FlatTypes(doms[i]);
        todo := todo || n != 1 || types[|types| - 1] != doms[i];
      }
      assert doms[..|doms|] == doms;
    }

    method FlattenType(types: seq<Type>, ty: Type) returns (types': seq<Type>, n: nat)
      requires OkType(ty)
      ensures types' == types + FlatTypes(ty) && n == |FlatTypes(ty)|
      decreases ty
    {
      if Arity(ty) != 1 && ty.Sigma? {
        types', n := types, 0;
        for i := 0 to |ty.ops|
          invariant types' == types + FlatUpTo(ty, i) && n == |FlatUpTo(ty, i)|
        {
          assert ty.ops[i] in ty.ops;
          var m;
          types', m := FlattenType(types', ty.ops[i]);
          n := n + m;
        }
      } else {
        types', n := types + [ty], 1;
      }
    }

    /** Takes one slice of the parameters after the other and puts it together. */
    method CollectVars(doms: seq<Type>, argSz: seq<nat>, id: nat) returns (vars: seq<Expr>)
      requires OkType(Sigma(doms)) && argSz == seq(|doms|, i requires 0 <= i < |doms| => |FlatTypes(doms[i])|)
      ensures vars == NewVarsUpTo(doms, Params(doms, id), |doms|)
    {
      vars := [];
      var n := 0;
      var params := Params(doms, id);
      for i := 0 to |doms|
        invariant vars == NewVarsUpTo(doms, params, i) && n == |FlatDoms(doms, i)|
      {
        PrefixLength(Sigma(doms), i + 1, |doms|);
        var var_, _ := Unflatten(params[n..n + argSz[i]], doms[i], 0);
        vars := vars + [var_];
        n := n + argSz[i];
      }
    }
  }

  lemma {:induction false} PrefixLength(ty: Type, i: nat, k: nat)
    requires ty.Sigma? && i <= k <= |ty.ops|
    ensures |FlatUpTo(ty, i)| <= |FlatUpTo(ty, k)|
    decreases k
  {
    if i < k { PrefixLength(ty, i, k - 1); }
  }
}
