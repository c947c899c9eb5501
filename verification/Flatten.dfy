/** Nested tuples as flat lists, and functions that take flat lists instead of nested tuples. */
module Flatten {
  import opened Tuples

  /** The types of the leaves. */
  function FlatTypes(ty: Type): seq<Type>
    decreases ty, 1
  {
    if ty.Sigma? then FlatUpTo(ty, |ty.ops|) else [ty]
  }

  function FlatUpTo(ty: Type, k: nat): seq<Type>
    requires ty.Sigma? && k <= |ty.ops|
    decreases ty, 0, k
  {
    if k == 0 then [] else FlatUpTo(ty, k - 1) + FlatTypes(ty.ops[k - 1])
  }

  /** The leaves of a value. */
  function ValLeaves(v: Val, ty: Type): seq<Val>
    decreases ty, 1
  {
    if ty.Sigma? then ValUpTo(v, ty, |ty.ops|) else [v]
  }

  function ValUpTo(v: Val, ty: Type, k: nat): seq<Val>
    requires ty.Sigma? && k <= |ty.ops|
    decreases ty, 0, k
  {
    if k == 0 then [] else ValUpTo(v, ty, k - 1) + ValLeaves(Proj(v, k - 1), ty.ops[k - 1])
  }

  lemma {:induction false} SameLength(v: Val, ty: Type)
    ensures |ValLeaves(v, ty)| == |FlatTypes(ty)|
    decreases ty, 1
  {
    if ty.Sigma? { SameLengthUpTo(v, ty, |ty.ops|); }
  }

  lemma {:induction false} SameLengthUpTo(v: Val, ty: Type, k: nat)
    requires ty.Sigma? && k <= |ty.ops|
    ensures |ValUpTo(v, ty, k)| == |FlatUpTo(ty, k)|
    decreases ty, 0, k
  {
    if k > 0 {
      SameLengthUpTo(v, ty, k - 1);
      SameLength(Proj(v, k - 1), ty.ops[k - 1]);
    }
  }

  lemma IndexLitOk(ty: Type, i: nat)
    requires OkType(ty) && ty.Sigma? && i < |ty.ops|
    ensures Typed(IndexLit(ty, i)) && IndexOk(ty, IndexLit(ty, i)) && ElemType(ty, IndexLit(ty, i)) == ty.ops[i]
            && OkType(ty.ops[i])
    ensures forall env :: Eval(IndexLit(ty, i), env) == Scalar(i) && EnvOk(IndexLit(ty, i), env)
  {
    assert ty.ops[i] in ty.ops;
  }

  /** Operand i of e. */
  function ProjOf(e: Expr, i: nat): (r: Expr)
    requires Typed(e) && TypeOf(e).Sigma? && i < |TypeOf(e).ops|
    ensures Typed(r) && TypeOf(r) == TypeOf(e).ops[i]
  {
    IndexLitOk(TypeOf(e), i);
    ExtractTyped(e, IndexLit(TypeOf(e), i));
    MkExtract(e, IndexLit(TypeOf(e), i))
  }

  lemma {:induction false} ExtractTyped(d: Expr, index: Expr)
    requires Typed(d) && Typed(index) && IndexOk(TypeOf(d), index)
    ensures Typed(MkExtract(d, index)) && TypeOf(MkExtract(d, index)) == ElemType(TypeOf(d), index)
  {
    if Arity(TypeOf(d)) > 1 && d.Insert? && d.index != index && index.Lit? && d.index.Lit? {
      ExtractTyped(d.tuple, index);
    }
  }

  lemma ProjMeans(e: Expr, i: nat, env: seq<Val>)
    requires Typed(e) && TypeOf(e).Sigma? && i < |TypeOf(e).ops| && EnvOk(e, env)
    ensures EnvOk(ProjOf(e, i), env) && Eval(ProjOf(e, i), env) == Proj(Eval(e, env), i)
  {
    IndexLitOk(TypeOf(e), i);
    MkExtractMeans(e, IndexLit(TypeOf(e), i), env);
  }

  /** The leaves of e. */
  function Leaves(e: Expr): seq<Expr>
    requires Typed(e)
    decreases TypeOf(e), 1
  {
    if TypeOf(e).Sigma? then LeavesUpTo(e, |TypeOf(e).ops|) else [e]
  }

  function LeavesUpTo(e: Expr, k: nat): seq<Expr>
    requires Typed(e) && TypeOf(e).Sigma? && k <= |TypeOf(e).ops|
    decreases TypeOf(e), 0, k
  {
    if k == 0 then [] else LeavesUpTo(e, k - 1) + Leaves(ProjOf(e, k - 1))
  }

  /** Definitions of the given types with the given values. */
  ghost predicate Denote(es: seq<Expr>, tys: seq<Type>, vs: seq<Val>, env: seq<Val>) {
    |es| == |tys| == |vs| && forall i {:trigger DenotesAt(es[i], tys[i], vs[i], env)} | 0 <= i < |es| ::
        DenotesAt(es[i], tys[i], vs[i], env)
  }

  ghost predicate DenotesAt(e: Expr, ty: Type, v: Val, env: seq<Val>) {
    Typed(e) && TypeOf(e) == ty && EnvOk(e, env) && Eval(e, env) == v
  }

  /** Leaves of definitions are definitions of the leaves. */
  lemma {:induction false} LeavesDenote(e: Expr, env: seq<Val>)
    requires Typed(e) && EnvOk(e, env)
    ensures Denote(Leaves(e), FlatTypes(TypeOf(e)), ValLeaves(Eval(e, env), TypeOf(e)), env)
    decreases TypeOf(e), 1
  {
    if TypeOf(e).Sigma? { LeavesDenoteUpTo(e, env, |TypeOf(e).ops|); }
  }

  lemma {:induction false} LeavesDenoteUpTo(e: Expr, env: seq<Val>, k: nat)
    requires Typed(e) && EnvOk(e, env) && TypeOf(e).Sigma? && k <= |TypeOf(e).ops|
    ensures Denote(LeavesUpTo(e, k), FlatUpTo(TypeOf(e), k), ValUpTo(Eval(e, env), TypeOf(e), k), env)
    decreases TypeOf(e), 0, k
  {
    if k > 0 {
      LeavesDenoteUpTo(e, env, k - 1);
      ProjMeans(e, k - 1, env);
      var p := ProjOf(e, k - 1);
      LeavesDenote(p, env);
      var ls, tys, vs := Leaves(p), FlatTypes(TypeOf(p)), ValLeaves(Eval(p, env), TypeOf(p));
      assert forall i | 0 <= i < |ls| :: DenotesAt(ls[i], tys[i], vs[i], env);
      DenoteConcat(LeavesUpTo(e, k - 1), FlatUpTo(TypeOf(e), k - 1), ValUpTo(Eval(e, env), TypeOf(e), k - 1), ls, tys,
          vs, env);
    }
  }

  /** Appends the leaves of e to ops and counts them. */
  method FlattenInto(ops: seq<Expr>, e: Expr) returns (ops': seq<Expr>, n: nat)
    requires Typed(e)
    ensures ops' == ops + Leaves(e) && n == |Leaves(e)|
    decreases TypeOf(e)
  {
    if Arity(TypeOf(e)) != 1 && TypeOf(e).Sigma? {
      ops', n := ops, 0;
      for i := 0 to |TypeOf(e).ops|
        invariant ops' == ops + LeavesUpTo(e, i) && n == |LeavesUpTo(e, i)|
      {
        var m;
        ops', m := FlattenInto(ops', ProjOf(e, i));
        n := n + m;
      }
    } else {
      assert Typed(e) && !TypeOf(e).Sigma?;
      ops', n := ops + [e], 1;
    }
  }

  /** Builds a definition of type ty from the definitions at j and after; j advances past them. */
  function Rebuild(defs: seq<Expr>, ty: Type, j: nat): (r: (Expr, nat))
    decreases ty, 1
  {
    if defs != [] && TypeOf(defs[0]) == ty then (At(defs, j), j + 1)
    else if ty.Sigma? then var (ops, k) := RebuildUpTo(defs, ty, j, |ty.ops|); (MkTuple(ops), k)
    else (At(defs, j), j + 1)
  }

  function At(defs: seq<Expr>, j: nat): Expr {
    if j < |defs| then defs[j] else Tuple([])
  }

  function RebuildUpTo(defs: seq<Expr>, ty: Type, j: nat, k: nat): (r: (seq<Expr>, nat))
    requires ty.Sigma? && k <= |ty.ops|
    ensures |r.0| == k
    decreases ty, 0, k
  {
    if k == 0 then ([], j)
    else
      var (ops, m) := RebuildUpTo(defs, ty, j, k - 1);
      var (op, m') := Rebuild(defs, ty.ops[k - 1], m);
      (ops + [op], m')
  }

  method Unflatten(defs: seq<Expr>, ty: Type, j: nat) returns (def: Expr, j': nat)
    ensures (def, j') == Rebuild(defs, ty, j)
    decreases ty
  {
    if defs != [] && TypeOf(defs[0]) == ty {
      return At(defs, j), j + 1;
    }
    if ty.Sigma? {
      var ops := [];
      j' := j;
      for i := 0 to |ty.ops|
        invariant (ops, j') == RebuildUpTo(defs, ty, j, i)
      {
        var op;
        op, j' := Unflatten(defs, ty.ops[i], j');
        ops := ops + [op];
      }
      return MkTuple(ops), j';
    }
    return At(defs, j), j + 1;
  }

  /** No leaf is a tuple. */
  ghost predicate NoTuples(defs: seq<Expr>) {
    forall d | d in defs :: !TypeOf(d).Sigma?
  }

  /** Rebuilding from definitions of the leaves gives a definition of the value, and uses up exactly the leaves. */
  lemma {:induction false} RebuildMeans(defs: seq<Expr>, ty: Type, j: nat, v: Val, env: seq<Val>)
    requires OkType(ty) && HasType(v, ty) && NoTuples(defs) && j + |FlatTypes(ty)| <= |defs|
    requires Denote(defs[j..j + |FlatTypes(ty)|], FlatTypes(ty), ValLeaves(v, ty), env)
    ensures Rebuild(defs, ty, j).1 == j + |FlatTypes(ty)|
    ensures DenotesAt(Rebuild(defs, ty, j).0, ty, v, env)
    decreases ty, 1
  {
    if ty.Sigma? {
      if defs != [] { assert defs[0] in defs; }
      var n := |ty.ops|;
      RebuildUpToMeans(defs, ty, j, v, env, n);
      assert ty.ops[..n] == ty.ops && v.vs[..n] == v.vs;
      TupleDenotes(RebuildUpTo(defs, ty, j, n).0, ty, v, env);
    } else {
      assert FlatTypes(ty) == [ty] && ValLeaves(v, ty) == [v] && defs[j..j + 1] == [defs[j]];
      assert DenotesAt([defs[j]][0], [ty][0], [v][0], env);
      if defs != [] { assert defs[0] in defs; }
    }
  }

  lemma TupleDenotes(ops: seq<Expr>, ty: Type, v: Val, env: seq<Val>)
    requires ty.Sigma? && v.Tup? && |ty.ops| != 1 && Denote(ops, ty.ops, v.vs, env)
    ensures DenotesAt(MkTuple(ops), ty, v, env)
  {
    forall i | 0 <= i < |ops|
      ensures Typed(ops[i]) && EnvOk(ops[i], env) && TypeOf(ops[i]) == ty.ops[i] && Eval(ops[i], env) == v.vs[i]
    {
      assert DenotesAt(ops[i], ty.ops[i], v.vs[i], env);
    }
    MkTupleMeans(ops, env);
    assert TypesOf(ops) == ty.ops && Evals(ops, env) == v.vs;
  }

  lemma {:induction false} RebuildUpToMeans(defs: seq<Expr>, ty: Type, j: nat, v: Val, env: seq<Val>, k: nat)
    requires OkType(ty) && ty.Sigma? && k <= |ty.ops| && HasType(v, ty) && NoTuples(defs)
             && j + |FlatUpTo(ty, k)| <= |defs|
    requires Denote(defs[j..j + |FlatUpTo(ty, k)|], FlatUpTo(ty, k), ValUpTo(v, ty, k), env)
    ensures RebuildUpTo(defs, ty, j, k).1 == j + |FlatUpTo(ty, k)|
    ensures Denote(RebuildUpTo(defs, ty, j, k).0, ty.ops[..k], v.vs[..k], env)
    decreases ty, 0, k
  {
    if k > 0 {
      var a, b := |FlatUpTo(ty, k - 1)|, |FlatTypes(ty.ops[k - 1])|;
      var es := defs[j..j + a + b];
      SameLengthUpTo(v, ty, k - 1);
      SameLength(v.vs[k - 1], ty.ops[k - 1]);
      Slices(defs, j, a, b);
      DenoteSplit(es, FlatUpTo(ty, k - 1), FlatTypes(ty.ops[k - 1]), ValUpTo(v, ty, k - 1),
          ValLeaves(v.vs[k - 1], ty.ops[k - 1]), env);
      RebuildUpToMeans(defs, ty, j, v, env, k - 1);
      assert ty.ops[k - 1] in ty.ops;
      RebuildMeans(defs, ty.ops[k - 1], j + a, v.vs[k - 1], env);
      RebuildNext(defs, ty, j, v, env, k);
    }
  }

  lemma RebuildNext(defs: seq<Expr>, ty: Type, j: nat, v: Val, env: seq<Val>, k: nat)
    requires ty.Sigma? && v.Tup? && |v.vs| == |ty.ops| && 0 < k <= |ty.ops|
    requires RebuildUpTo(defs, ty, j, k - 1).1 == j + |FlatUpTo(ty, k - 1)|
    requires Denote(RebuildUpTo(defs, ty, j, k - 1).0, ty.ops[..k - 1], v.vs[..k - 1], env)
    requires var r := Rebuild(defs, ty.ops[k - 1], j + |FlatUpTo(ty, k - 1)|);
             r.1 == j + |FlatUpTo(ty, k - 1)| + |FlatTypes(ty.ops[k - 1])|
                 && DenotesAt(r.0, ty.ops[k - 1], v.vs[k - 1], env)
    ensures RebuildUpTo(defs, ty, j, k).1 == j + |FlatUpTo(ty, k)|
    ensures Denote(RebuildUpTo(defs, ty, j, k).0, ty.ops[..k], v.vs[..k], env)
  {
    RebuildSnoc(defs, ty, j, k);
    assert ty.ops[..k] == ty.ops[..k - 1] + [ty.ops[k - 1]] && v.vs[..k] == v.vs[..k - 1] + [v.vs[k - 1]];
    DenoteSnoc(RebuildUpTo(defs, ty, j, k - 1).0, ty.ops[..k - 1], v.vs[..k - 1], env,
               Rebuild(defs, ty.ops[k - 1], j + |FlatUpTo(ty, k - 1)|).0, ty.ops[k - 1], v.vs[k - 1]);
  }

  lemma DenoteSnoc(es: seq<Expr>, tys: seq<Type>, vs: seq<Val>, env: seq<Val>, e: Expr, ty: Type, v: Val)
    requires Denote(es, tys, vs, env) && DenotesAt(e, ty, v, env)
    ensures Denote(es + [e], tys + [ty], vs + [v], env)
  {
    DenoteConcat(es, tys, vs, [e], [ty], [v], env);
  }

  lemma DenoteConcat(es: seq<Expr>, tys: seq<Type>, vs: seq<Val>, es': seq<Expr>, tys': seq<Type>, vs': seq<Val>,
                     env: seq<Val>)
    requires Denote(es, tys, vs, env) && |es'| == |tys'| == |vs'|
    requires forall i | 0 <= i < |es'| :: DenotesAt(es'[i], tys'[i], vs'[i], env)
    ensures Denote(es + es', tys + tys', vs + vs', env)
  {
    forall i {:trigger DenotesAt((es + es')[i], (tys + tys')[i], (vs + vs')[i], env)} | 0 <= i < |es + es'|
      ensures DenotesAt((es + es')[i], (tys + tys')[i], (vs + vs')[i], env)
    {
      if i < |es| {
        assert DenotesAt(es[i], tys[i], vs[i], env);
      } else {
        assert DenotesAt(es'[i - |es|], tys'[i - |es|], vs'[i - |es|], env);
      }
    }
  }

  lemma RebuildSnoc(defs: seq<Expr>, ty: Type, j: nat, k: nat)
    requires ty.Sigma? && 0 < k <= |ty.ops|
    ensures var init := RebuildUpTo(defs, ty, j, k - 1); var last := Rebuild(defs, ty.ops[k - 1], init.1);
            RebuildUpTo(defs, ty, j, k) == (init.0 + [last.0], last.1)
  {
  }

  lemma Slices(defs: seq<Expr>, j: nat, a: nat, b: nat)
    requires j + a + b <= |defs|
    ensures defs[j..j + a + b][..a] == defs[j..j + a] && defs[j..j + a + b][a..] == defs[j + a..j + a + b]
  {
  }

  lemma DenoteSplit(es: seq<Expr>, tys: seq<Type>, tys': seq<Type>, vs: seq<Val>, vs': seq<Val>, env: seq<Val>)
    requires Denote(es, tys + tys', vs + vs', env) && |tys| == |vs|
    ensures Denote(es[..|tys|], tys, vs, env) && Denote(es[|tys|..], tys', vs', env)
  {
    forall i {:trigger DenotesAt(es[..|tys|][i], tys[i], vs[i], env)} | 0 <= i < |tys|
      ensures DenotesAt(es[..|tys|][i], tys[i], vs[i], env)
    {
      assert DenotesAt(es[i], (tys + tys')[i], (vs + vs')[i], env);
    }
    forall i {:trigger DenotesAt(es[|tys|..][i], tys'[i], vs'[i], env)} | 0 <= i < |tys'|
      ensures DenotesAt(es[|tys|..][i], tys'[i], vs'[i], env)
    {
      assert DenotesAt(es[|tys| + i], (tys + tys')[|tys| + i], (vs + vs')[|tys| + i], env);
    }
  }

  lemma {:induction false} LeavesNoTuples(e: Expr)
    requires Typed(e)
    ensures NoTuples(Leaves(e))
    decreases TypeOf(e), 1
  {
    if TypeOf(e).Sigma? { LeavesNoTuplesUpTo(e, |TypeOf(e).ops|); }
  }

  lemma {:induction false} LeavesNoTuplesUpTo(e: Expr, k: nat)
    requires Typed(e) && TypeOf(e).Sigma? && k <= |TypeOf(e).ops|
    ensures NoTuples(LeavesUpTo(e, k))
    decreases TypeOf(e), 0, k
  {
    if k > 0 {
      LeavesNoTuplesUpTo(e, k - 1);
      LeavesNoTuples(ProjOf(e, k - 1));
    }
  }

  /** Unflattening what has been flattened gives a definition of the same type and value, and consumes all leaves. */
  lemma UnflattenFlatten(e: Expr, env: seq<Val>)
    requires Typed(e) && EnvOk(e, env)
    ensures var r := Rebuild(Leaves(e), TypeOf(e), 0);
            r.1 == |Leaves(e)| && DenotesAt(r.0, TypeOf(e), Eval(e, env), env)
  {
    LeavesDenote(e, env);
    LeavesNoTuples(e);
    EvalTyped(e, env);
    assert Leaves(e)[0..0 + |FlatTypes(TypeOf(e))|] == Leaves(e);
    RebuildMeans(Leaves(e), TypeOf(e), 0, Eval(e, env), env);
  }

  /** The first k operands of e. */
  function ProjsOf(e: Expr, k: nat): seq<Expr>
    requires Typed(e) && TypeOf(e).Sigma? && k <= |TypeOf(e).ops|
  {
    if k == 0 then [] else ProjsOf(e, k - 1) + [ProjOf(e, k - 1)]
  }

  lemma {:induction false} ProjsAt(e: Expr, k: nat, i: nat)
    requires Typed(e) && TypeOf(e).Sigma? && i < k <= |TypeOf(e).ops|
    ensures |ProjsOf(e, k)| == k && ProjsOf(e, k)[i] == ProjOf(e, i)
  {
    if i < k - 1 { ProjsAt(e, k - 1, i); } else if k > 1 { ProjsAt(e, k - 1, 0); }
  }

  /** What no rule of the world would build differently: no updates, and tuples, wherever leaves are looked for,
      that the eta rule or the rule for packs does not apply to. */
  ghost predicate Plain(e: Expr)
    requires Typed(e)
    decreases TypeOf(e), 1
  {
    TypeOf(e).Sigma? ==>
      && !e.Insert?
      && OwnTuple(e)
      && forall i: nat | i < |TypeOf(e).ops| :: PlainAt(e, i)
  }

  /** The tuple rules do not replace e; a unit is the empty tuple. */
  predicate OwnTuple(e: Expr) {
    (e.Tuple? ==> MkTuple(e.ops) == e) && (TypeOf(e) == Sigma([]) ==> e == Tuple([]))
  }

  ghost predicate PlainAt(e: Expr, i: nat)
    requires Typed(e) && TypeOf(e).Sigma? && i < |TypeOf(e).ops|
    decreases TypeOf(e), 0
  {
    Plain(ProjOf(e, i))
  }

  /** Unflattening the leaves of such a definition gives back the very definition. */
  lemma {:induction false} UnflattenIsIdentity(defs: seq<Expr>, e: Expr, j: nat)
    requires Typed(e) && Plain(e) && NoTuples(defs) && j + |Leaves(e)| <= |defs|
             && defs[j..j + |Leaves(e)|] == Leaves(e)
    ensures Rebuild(defs, TypeOf(e), j) == (e, j + |Leaves(e)|)
    decreases TypeOf(e), 1
  {
    if TypeOf(e).Sigma? {
      IdentityUpTo(defs, e, j, |TypeOf(e).ops|);
      RebuildIsTuple(defs, e, j);
    } else {
      RebuildIsLeaf(defs, e, j);
    }
  }

  lemma RebuildIsLeaf(defs: seq<Expr>, e: Expr, j: nat)
    requires Typed(e) && !TypeOf(e).Sigma? && j < |defs| && defs[j..j + 1] == [e]
    ensures Rebuild(defs, TypeOf(e), j) == (e, j + 1)
  {
    assert defs[j..j + 1][0] == e;
  }

  lemma RebuildIsTuple(defs: seq<Expr>, e: Expr, j: nat)
    requires Typed(e) && TypeOf(e).Sigma? && !e.Insert? && OwnTuple(e) && NoTuples(defs)
    requires RebuildUpTo(defs, TypeOf(e), j, |TypeOf(e).ops|).0 == ProjsOf(e, |TypeOf(e).ops|)
    ensures Rebuild(defs, TypeOf(e), j) == (e, RebuildUpTo(defs, TypeOf(e), j, |TypeOf(e).ops|).1)
  {
    if defs != [] { assert defs[0] in defs; }
    var n := |TypeOf(e).ops|;
    forall i: nat | i < n
      ensures ProjsOf(e, n)[i] == ProjOf(e, i)
    {
      ProjsAt(e, n, i);
    }
    TupleOfProjs(e, ProjsOf(e, n));
  }

  lemma {:induction false} IdentityUpTo(defs: seq<Expr>, e: Expr, j: nat, k: nat)
    requires Typed(e) && TypeOf(e).Sigma? && k <= |TypeOf(e).ops| && Plain(e) && NoTuples(defs)
    requires j + |LeavesUpTo(e, k)| <= |defs| && defs[j..j + |LeavesUpTo(e, k)|] == LeavesUpTo(e, k)
    ensures RebuildUpTo(defs, TypeOf(e), j, k).1 == j + |LeavesUpTo(e, k)|
    ensures RebuildUpTo(defs, TypeOf(e), j, k).0 == ProjsOf(e, k)
    decreases TypeOf(e), 0, k
  {
    if k > 0 {
      LeavesSplit(defs, e, j, k);
      IdentityUpTo(defs, e, j, k - 1);
      assert PlainAt(e, k - 1);
      UnflattenIsIdentity(defs, ProjOf(e, k - 1), j + |LeavesUpTo(e, k - 1)|);
      IdentityNext(defs, e, j, k);
    }
  }

  lemma LeavesSplit(defs: seq<Expr>, e: Expr, j: nat, k: nat)
    requires Typed(e) && TypeOf(e).Sigma? && 0 < k <= |TypeOf(e).ops|
    requires j + |LeavesUpTo(e, k)| <= |defs| && defs[j..j + |LeavesUpTo(e, k)|] == LeavesUpTo(e, k)
    ensures var m := j + |LeavesUpTo(e, k - 1)|; var ls := Leaves(ProjOf(e, k - 1));
            && m + |ls| == j + |LeavesUpTo(e, k)| && defs[j..m] == LeavesUpTo(e, k - 1) && defs[m..m + |ls|] == ls
  {
    var a, b := |LeavesUpTo(e, k - 1)|, |Leaves(ProjOf(e, k - 1))|;
    var es := defs[j..j + a + b];
    assert es == LeavesUpTo(e, k - 1) + Leaves(ProjOf(e, k - 1));
    Slices(defs, j, a, b);
    assert es[..a] == LeavesUpTo(e, k - 1) && es[a..] == Leaves(ProjOf(e, k - 1));
  }

  lemma IdentityNext(defs: seq<Expr>, e: Expr, j: nat, k: nat)
    requires Typed(e) && TypeOf(e).Sigma? && 0 < k <= |TypeOf(e).ops|
    requires RebuildUpTo(defs, TypeOf(e), j, k - 1) == (ProjsOf(e, k - 1), j + |LeavesUpTo(e, k - 1)|)
    requires var p := ProjOf(e, k - 1); var m := j + |LeavesUpTo(e, k - 1)|;
             Rebuild(defs, TypeOf(e).ops[k - 1], m) == (p, m + |Leaves(p)|)
    ensures RebuildUpTo(defs, TypeOf(e), j, k) == (ProjsOf(e, k), j + |LeavesUpTo(e, k)|)
  {
    RebuildSnoc(defs, TypeOf(e), j, k);
  }

  /** The tuple of all operands of e is e. */
  lemma TupleOfProjs(e: Expr, ops: seq<Expr>)
    requires Typed(e) && TypeOf(e).Sigma? && !e.Insert? && OwnTuple(e)
    requires |ops| == |TypeOf(e).ops| && forall i: nat | i < |ops| :: ops[i] == ProjOf(e, i)
    ensures MkTuple(ops) == e
  {
    var n := |ops|;
    if e.Tuple? {
      assert ops == e.ops;
    } else if e.Pack? {
      assert forall o | o in ops[1..] :: o == e.body;
    } else if n > 0 {
      EtaOfProjs(e, ops);
    }
  }

  lemma EtaOfProjs(e: Expr, ops: seq<Expr>)
    requires Typed(e) && TypeOf(e).Sigma? && !e.Insert? && !e.Tuple? && !e.Pack?
    requires |ops| == |TypeOf(e).ops| > 0 && forall i: nat | i < |ops| :: ops[i] == ProjOf(e, i)
    ensures MkTuple(ops) == e
  {
    assert forall i: nat | i < |ops| :: ops[i] == Extract(e, IndexLit(TypeOf(e), i));
    assert ops[1] in ops[1..] && ops[1] != ops[0];
    assert TypesOf(ops) == TypeOf(e).ops;
    assert IsEta(ops);
  }
}
