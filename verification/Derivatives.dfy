/** Expressions of one parameter: forward derivatives, and what it takes to be a pullback. */
module Derivatives {
  import opened Tuples
  import opened Tangents

  /** The expressions that can be differentiated with respect to the parameter, whose type is ty. */
  ghost predicate Diffable(e: Expr, ty: Type) {
    && Typed(e)
    && match e
       case Lit(_, _) => true
       case Var(id, t) => id == 0 && t == ty
       case Tuple(ops) => forall o | o in ops :: Diffable(o, ty)
       case Pack(_, body) => Diffable(body, ty)
       case Extract(t, i) => Diffable(t, ty) && i.Lit?
       case Insert(_, _, _) => false
       case Prim(_, arg) => Diffable(arg, ty)
  }

  /** How the value of e at x changes in direction v. */
  function Deriv(e: Expr, x: Val, v: Val): Val {
    match e
    case Lit(_, _) => Scalar(0)
    case Var(_, _) => v
    case Tuple(ops) => Tup(Derivs(ops, x, v))
    case Pack(n, body) => Tup(seq(n, _ => Deriv(body, x, v)))
    case Extract(t, i) => Proj(Deriv(t, x, v), Int(Eval(i, [x])))
    case Insert(_, _, _) => Scalar(0)
    case Prim(op, arg) => Scalar(DerivPrim(op, Eval(arg, [x]), Deriv(arg, x, v)))
  }

  function Derivs(es: seq<Expr>, x: Val, v: Val): (r: seq<Val>)
    ensures |r| == |es|
    ensures forall i | 0 <= i < |es| :: r[i] == Deriv(es[i], x, v)
  {
    if es == [] then [] else Derivs(es[..|es| - 1], x, v) + [Deriv(es[|es| - 1], x, v)]
  }

  /** Comparisons do not change. */
  function DerivPrim(op: PrimOp, a: Val, d: Val): int {
    match op
    case Add => Int(Proj(d, 0)) + Int(Proj(d, 1))
    case Mul => Int(Proj(d, 0)) * Int(Proj(a, 1)) + Int(Proj(a, 0)) * Int(Proj(d, 1))
    case _ => 0
  }

  lemma {:induction false} DiffableEnv(e: Expr, ty: Type, x: Val)
    requires Diffable(e, ty) && HasType(x, ty)
    ensures EnvOk(e, [x])
  {
    match e
    case Tuple(ops) =>
      forall o | o in ops
        ensures EnvOk(o, [x])
      {
        DiffableEnv(o, ty, x);
      }
    case Pack(_, body) => DiffableEnv(body, ty, x);
    case Extract(t, _) => DiffableEnv(t, ty, x);
    case Prim(_, arg) => DiffableEnv(arg, ty, x);
    case _ =>
  }

  lemma {:induction false} DerivShaped(e: Expr, ty: Type, x: Val, v: Val)
    requires Diffable(e, ty) && Shaped(v, ty)
    ensures Shaped(Deriv(e, x, v), TypeOf(e))
  {
    match e
    case Tuple(ops) =>
      forall i | 0 <= i < |ops|
        ensures Shaped(Deriv(ops[i], x, v), TypeOf(ops[i]))
      {
        assert ops[i] in ops;
        DerivShaped(ops[i], ty, x, v);
      }
    case Pack(_, body) => DerivShaped(body, ty, x, v);
    case Extract(t, i) =>
      DerivShaped(t, ty, x, v);
      assert Typed(i) && IndexOk(TypeOf(t), i);
      assert i.value < |TypeOf(t).ops| && Eval(i, [x]) == Scalar(i.value);
    case _ =>
  }

  /** The same type, value and derivative everywhere. */
  ghost predicate Same(ty: Type, e: Expr, e': Expr) {
    && Diffable(e, ty) && Diffable(e', ty) && TypeOf(e) == TypeOf(e')
    && forall x, v {:trigger SameAt(e, e', x, v)} | HasType(x, ty) && Shaped(v, ty) :: SameAt(e, e', x, v)
  }

  ghost predicate SameAt(e: Expr, e': Expr, x: Val, v: Val) {
    Eval(e, [x]) == Eval(e', [x]) && Deriv(e, x, v) == Deriv(e', x, v)
  }

  lemma SameTuple(ty: Type, es: seq<Expr>, es': seq<Expr>)
    requires |es| == |es'| != 1 && forall i | 0 <= i < |es| :: Same(ty, es[i], es'[i])
    ensures Same(ty, Tuple(es), Tuple(es'))
  {
    TupleTyped(es);
    TupleTyped(es');
    assert TypesOf(es) == TypesOf(es');
    forall x, v {:trigger SameAt(Tuple(es), Tuple(es'), x, v)} | HasType(x, ty) && Shaped(v, ty)
      ensures SameAt(Tuple(es), Tuple(es'), x, v)
    {
      forall i | 0 <= i < |es|
        ensures Evals(es, [x])[i] == Evals(es', [x])[i] && Derivs(es, x, v)[i] == Derivs(es', x, v)[i]
      {
        assert SameAt(es[i], es'[i], x, v);
      }
      assert Evals(es, [x]) == Evals(es', [x]) && Derivs(es, x, v) == Derivs(es', x, v);
    }
  }

  lemma SamePack(ty: Type, n: nat, e: Expr, e': Expr)
    requires n >= 2 && Same(ty, e, e') && Typed(Pack(n, e))
    ensures Same(ty, Pack(n, e), Pack(n, e'))
  {
    assert TypeOf(Pack(n, e)).ops == TypeOf(Pack(n, e')).ops;
    forall x, v {:trigger SameAt(Pack(n, e), Pack(n, e'), x, v)} | HasType(x, ty) && Shaped(v, ty)
      ensures SameAt(Pack(n, e), Pack(n, e'), x, v)
    {
      assert SameAt(e, e', x, v);
      assert Eval(Pack(n, e), [x]).vs == Eval(Pack(n, e'), [x]).vs;
      assert Deriv(Pack(n, e), x, v).vs == Deriv(Pack(n, e'), x, v).vs;
    }
  }

  lemma SameExtract(ty: Type, t: Expr, t': Expr, i: Expr)
    requires Same(ty, t, t') && i.Lit? && Typed(Extract(t, i))
    ensures Same(ty, Extract(t, i), Extract(t', i))
  {
    forall x, v {:trigger SameAt(Extract(t, i), Extract(t', i), x, v)} | HasType(x, ty) && Shaped(v, ty)
      ensures SameAt(Extract(t, i), Extract(t', i), x, v)
    {
      assert SameAt(t, t', x, v);
    }
  }

  lemma SamePrim(ty: Type, op: PrimOp, arg: Expr, arg': Expr)
    requires Same(ty, arg, arg') && Typed(Prim(op, arg))
    ensures Same(ty, Prim(op, arg), Prim(op, arg'))
  {
    forall x, v {:trigger SameAt(Prim(op, arg), Prim(op, arg'), x, v)} | HasType(x, ty) && Shaped(v, ty)
      ensures SameAt(Prim(op, arg), Prim(op, arg'), x, v)
    {
      assert SameAt(arg, arg', x, v);
    }
  }

  lemma SameTrans(ty: Type, e: Expr, f: Expr, g: Expr)
    requires Same(ty, e, f) && Same(ty, f, g)
    ensures Same(ty, e, g)
  {
    forall x, v {:trigger SameAt(e, g, x, v)} | HasType(x, ty) && Shaped(v, ty)
      ensures SameAt(e, g, x, v)
    {
      assert SameAt(e, f, x, v) && SameAt(f, g, x, v);
    }
  }

  /** The world's simplifications keep derivatives, too. */
  lemma MkTupleSame(ty: Type, ops: seq<Expr>)
    requires |ops| != 1 && forall o | o in ops :: Diffable(o, ty)
    ensures Same(ty, Tuple(ops), MkTuple(ops))
  {
    TupleTyped(ops);
    if ops != [] {
      assert ops[0] in ops;
      forall x, v {:trigger SameAt(Tuple(ops), MkTuple(ops), x, v)} | HasType(x, ty) && Shaped(v, ty)
        ensures SameAt(Tuple(ops), MkTuple(ops), x, v) && TypeOf(Tuple(ops)) == TypeOf(MkTuple(ops))
      {
        MkTupleSameAt(ty, ops, x, v);
      }
      MkTupleDiffable(ty, ops);
    }
  }

  lemma MkTupleDiffable(ty: Type, ops: seq<Expr>)
    requires |ops| > 1 && forall o | o in ops :: Diffable(o, ty)
    ensures Diffable(MkTuple(ops), ty) && TypeOf(MkTuple(ops)) == Sigma(TypesOf(ops))
  {
    TupleTyped(ops);
    assert ops[0] in ops;
    if AllSame(ops) { AllSameMeans(ops, []); }
  }

  lemma MkTupleSameAt(ty: Type, ops: seq<Expr>, x: Val, v: Val)
    requires |ops| > 1 && (forall o | o in ops :: Diffable(o, ty)) && HasType(x, ty) && Shaped(v, ty)
    ensures SameAt(Tuple(ops), MkTuple(ops), x, v) && TypeOf(Tuple(ops)) == TypeOf(MkTuple(ops))
  {
    forall o | o in ops
      ensures EnvOk(o, [x])
    {
      DiffableEnv(o, ty, x);
    }
    MkTupleMeans(ops, [x]);
    MkTupleDiffable(ty, ops);
    assert ops[0] in ops;
    if AllSame(ops) {
      AllSameDerivs(ops, x, v);
    } else if IsEta(ops) {
      EtaDerivs(ty, ops, x, v);
    }
  }

  lemma AllSameDerivs(ops: seq<Expr>, x: Val, v: Val)
    requires |ops| > 1 && AllSame(ops)
    ensures Deriv(Pack(|ops|, ops[0]), x, v) == Tup(Derivs(ops, x, v))
  {
    forall i | 0 <= i < |ops|
      ensures ops[i] == ops[0]
    {
      if i > 0 { assert ops[1..][i - 1] in ops[1..]; }
    }
    assert Deriv(Pack(|ops|, ops[0]), x, v).vs == Derivs(ops, x, v);
  }

  lemma EtaDerivs(ty: Type, ops: seq<Expr>, x: Val, v: Val)
    requires IsEta(ops) && Diffable(ops[0], ty) && Shaped(v, ty)
    ensures Deriv(ops[0].tuple, x, v) == Tup(Derivs(ops, x, v))
  {
    var t := ops[0].tuple;
    DerivShaped(t, ty, x, v);
    forall i | 0 <= i < |ops|
      ensures Deriv(ops[i], x, v) == Deriv(t, x, v).vs[i]
    {
      assert ops[i].tuple == t && Eval(ops[i].index, [x]) == Scalar(i);
    }
    assert Deriv(t, x, v).vs == Derivs(ops, x, v);
  }

  lemma MkExtractSame(ty: Type, d: Expr, i: Expr)
    requires Diffable(d, ty) && i.Lit? && Typed(Extract(d, i))
    ensures Same(ty, Extract(d, i), MkExtract(d, i))
  {
    forall x, v {:trigger SameAt(Extract(d, i), MkExtract(d, i), x, v)} | HasType(x, ty) && Shaped(v, ty)
      ensures SameAt(Extract(d, i), MkExtract(d, i), x, v)
    {
      DiffableEnv(d, ty, x);
      MkExtractMeans(d, i, [x]);
    }
    if d.Tuple? { assert d.ops[i.value] in d.ops; }
  }

  /** No comparisons. */
  ghost predicate Smooth(e: Expr) {
    match e
    case Tuple(ops) => forall o | o in ops :: Smooth(o)
    case Pack(_, body) => Smooth(body)
    case Extract(t, _) => Smooth(t)
    case Prim(op, arg) => (op.Add? || op.Mul?) && Smooth(arg)
    case _ => true
  }

  /** Value, derivative and rest, weighted by the powers of t. */
  function Expand(t: int, a: Val, d: Val, r: Val): Val {
    Plus(Plus(a, Scale(t, d)), Scale(t * t, r))
  }

  /** What is of second order in e when x moves by t times v. */
  function Rest(e: Expr, ty: Type, x: Val, v: Val, t: int): Val {
    match e
    case Lit(_, _) => Scalar(0)
    case Var(_, _) => Zero(ty)
    case Tuple(ops) => Tup(seq(|ops|, i requires 0 <= i < |ops| => Rest(ops[i], ty, x, v, t)))
    case Pack(n, body) => Tup(seq(n, _ => Rest(body, ty, x, v, t)))
    case Extract(tup, i) => Proj(Rest(tup, ty, x, v, t), Int(Eval(i, [x])))
    case Insert(_, _, _) => Scalar(0)
    case Prim(op, arg) =>
      var a, d, r := Eval(arg, [x]), Deriv(arg, x, v), Rest(arg, ty, x, v, t);
      Scalar(RestPrim(op, t, Int(Proj(a, 0)), Int(Proj(d, 0)), Int(Proj(r, 0)), Int(Proj(a, 1)), Int(Proj(d, 1)),
          Int(Proj(r, 1))))
  }

  function RestPrim(op: PrimOp, t: int, a: int, d: int, r: int, b: int, e: int, s: int): int {
    if op.Mul? then a * s + r * b + (d + t * r) * (e + t * s) else r + s
  }

  lemma {:induction false} EvalShaped(e: Expr, ty: Type, x: Val)
    requires Diffable(e, ty) && Shaped(x, ty)
    ensures Shaped(Eval(e, [x]), TypeOf(e))
  {
    match e
    case Tuple(ops) =>
      forall i | 0 <= i < |ops|
        ensures Shaped(Eval(ops[i], [x]), TypeOf(ops[i]))
      {
        assert ops[i] in ops;
        EvalShaped(ops[i], ty, x);
      }
    case Pack(_, body) => EvalShaped(body, ty, x);
    case Extract(t, i) =>
      EvalShaped(t, ty, x);
      assert Typed(i) && IndexOk(TypeOf(t), i);
      assert i.value < |TypeOf(t).ops| && Eval(i, [x]) == Scalar(i.value);
    case _ =>
  }

  lemma {:induction false} RestShaped(e: Expr, ty: Type, x: Val, v: Val, t: int)
    requires Diffable(e, ty) && Shaped(v, ty)
    ensures Shaped(Rest(e, ty, x, v, t), TypeOf(e))
  {
    match e
    case Var(_, _) => ZeroShaped(ty);
    case Tuple(ops) =>
      forall i | 0 <= i < |ops|
        ensures Shaped(Rest(ops[i], ty, x, v, t), TypeOf(ops[i]))
      {
        assert ops[i] in ops;
        RestShaped(ops[i], ty, x, v, t);
      }
    case Pack(_, body) => RestShaped(body, ty, x, v, t);
    case Extract(tup, i) =>
      RestShaped(tup, ty, x, v, t);
      assert Typed(i) && IndexOk(TypeOf(tup), i);
      assert i.value < |TypeOf(tup).ops| && Eval(i, [x]) == Scalar(i.value);
    case _ =>
  }

  lemma {:induction false} PlusZero(v: Val, c: int, ty: Type)
    requires Shaped(v, ty)
    ensures Plus(v, Scale(c, Zero(ty))) == v
  {
    if ty.Sigma? {
      forall i | 0 <= i < |ty.ops|
        ensures Plus(v.vs[i], Scale(c, Zero(ty.ops[i]))) == v.vs[i]
      {
        PlusZero(v.vs[i], c, ty.ops[i]);
      }
      assert Plus(v, Scale(c, Zero(ty))).vs == v.vs;
    }
  }

  /** Deriv is the derivative: moving the parameter by t times v changes the value by t times the derivative,
      up to something of second order. */
  lemma {:induction false} DerivIsDerivative(e: Expr, ty: Type, x: Val, v: Val, t: int)
    requires Diffable(e, ty) && Smooth(e) && Shaped(x, ty) && Shaped(v, ty)
    ensures Eval(e, [Plus(x, Scale(t, v))]) == Expand(t, Eval(e, [x]), Deriv(e, x, v), Rest(e, ty, x, v, t))
  {
    var x' := Plus(x, Scale(t, v));
    EvalShaped(e, ty, x);
    DerivShaped(e, ty, x, v);
    RestShaped(e, ty, x, v, t);
    match e
    case Var(_, _) =>
      ScaleShaped(t, v, ty);
      PlusShaped(x, Scale(t, v), ty);
      PlusZero(x', t * t, ty);
    case Tuple(ops) =>
      forall i | 0 <= i < |ops|
        ensures Eval(ops[i], [x']) == Expand(t, Eval(ops[i], [x]), Deriv(ops[i], x, v), Rest(ops[i], ty, x, v, t))
      {
        assert ops[i] in ops;
        DerivIsDerivative(ops[i], ty, x, v, t);
      }
      assert Eval(e, [x']).vs == Expand(t, Eval(e, [x]), Deriv(e, x, v), Rest(e, ty, x, v, t)).vs;
    case Pack(_, body) =>
      DerivIsDerivative(body, ty, x, v, t);
      assert Eval(e, [x']).vs == Expand(t, Eval(e, [x]), Deriv(e, x, v), Rest(e, ty, x, v, t)).vs;
    case Extract(tup, i) =>
      DerivIsDerivative(tup, ty, x, v, t);
      EvalShaped(tup, ty, x);
      DerivShaped(tup, ty, x, v);
      RestShaped(tup, ty, x, v, t);
      assert Typed(i) && IndexOk(TypeOf(tup), i);
      assert i.value < |TypeOf(tup).ops| && Eval(i, [x]) == Scalar(i.value) == Eval(i, [x']);
    case Prim(op, arg) =>
      DerivIsDerivative(arg, ty, x, v, t);
      PrimExpands(op, arg, ty, x, v, t);
    case _ =>
  }

  lemma PrimExpands(op: PrimOp, arg: Expr, ty: Type, x: Val, v: Val, t: int)
    requires Diffable(Prim(op, arg), ty) && (op.Add? || op.Mul?) && Shaped(x, ty) && Shaped(v, ty)
    requires Eval(arg, [Plus(x, Scale(t, v))]) == Expand(t, Eval(arg, [x]), Deriv(arg, x, v), Rest(arg, ty, x, v, t))
    ensures Eval(Prim(op, arg), [Plus(x, Scale(t, v))])
         == Expand(t, Eval(Prim(op, arg), [x]), Deriv(Prim(op, arg), x, v), Rest(Prim(op, arg), ty, x, v, t))
  {
    var a, d, r := Eval(arg, [x]), Deriv(arg, x, v), Rest(arg, ty, x, v, t);
    EvalShaped(arg, ty, x);
    DerivShaped(arg, ty, x, v);
    RestShaped(arg, ty, x, v, t);
    assert TypeOf(arg) == Sigma([Num, Num]);
    PairParts(a);
    PairParts(d);
    PairParts(r);
    PairExpands(t, a, d, r, 0);
    PairExpands(t, a, d, r, 1);
    PrimInts(op, t, a.vs[0].n, d.vs[0].n, r.vs[0].n, a.vs[1].n, d.vs[1].n, r.vs[1].n);
    DerivPair(op, a, d);
    ExpandScalar(t, Apply(op, a.vs[0].n, a.vs[1].n), DerivPrim(op, a, d),
                 RestPrim(op, t, a.vs[0].n, d.vs[0].n, r.vs[0].n, a.vs[1].n, d.vs[1].n, r.vs[1].n));
  }

  lemma PairParts(v: Val)
    requires Shaped(v, Sigma([Num, Num]))
    ensures v.Tup? && |v.vs| == 2 && v.vs[0].Scalar? && v.vs[1].Scalar?
  {
    assert Shaped(v.vs[0], Num) && Shaped(v.vs[1], Num);
  }

  lemma PairExpands(t: int, a: Val, d: Val, r: Val, i: nat)
    requires i < 2 && a.Tup? && |a.vs| == 2 && a.vs[i].Scalar?
    requires d.Tup? && |d.vs| == 2 && d.vs[i].Scalar? && r.Tup? && |r.vs| == 2 && r.vs[i].Scalar?
    ensures Proj(Expand(t, a, d, r), i) == Scalar(At(t, a.vs[i].n, d.vs[i].n, r.vs[i].n))
  {
    assert Proj(Expand(t, a, d, r), i) == Expand(t, a.vs[i], d.vs[i], r.vs[i]);
    ExpandScalar(t, a.vs[i].n, d.vs[i].n, r.vs[i].n);
  }

  lemma ExpandScalar(t: int, a: int, d: int, r: int)
    ensures Expand(t, Scalar(a), Scalar(d), Scalar(r)) == Scalar(At(t, a, d, r))
  {
    assert (t * t) * r == t * (t * r);
  }

  function At(t: int, a: int, d: int, r: int): int {
    a + t * (d + t * r)
  }

  lemma DerivPair(op: PrimOp, a: Val, d: Val)
    requires a.Tup? && |a.vs| == 2 && a.vs[0].Scalar? && a.vs[1].Scalar? && d.Tup? && |d.vs| == 2 && d.vs[0].Scalar?
             && d.vs[1].Scalar?
    ensures DerivPrim(op, a, d) == DerivInts(op, a.vs[0].n, d.vs[0].n, a.vs[1].n, d.vs[1].n)
  {
  }

  function DerivInts(op: PrimOp, a: int, d: int, b: int, e: int): int {
    if op.Add? then d + e else if op.Mul? then d * b + a * e else 0
  }

  lemma PrimInts(op: PrimOp, t: int, a: int, d: int, r: int, b: int, e: int, s: int)
    requires op.Add? || op.Mul?
    ensures Apply(op, At(t, a, d, r), At(t, b, e, s))
            == At(t, Apply(op, a, b), DerivInts(op, a, d, b, e), RestPrim(op, t, a, d, r, b, e, s))
  {
    Product(t, a, d, r, b, e, s);
  }

  lemma Product(t: int, a: int, d: int, r: int, b: int, e: int, s: int)
    ensures At(t, a, d, r) * At(t, b, e, s) == At(t, a * b, d * b + a * e, a * s + r * b + (d + t * r) * (e + t * s))
    ensures At(t, a, d, r) + At(t, b, e, s) == At(t, a + b, d + e, r + s)
  {
    var p, q := d + t * r, e + t * s;
    First(t, a, p, b, q);
    assert p * b == d * b + t * (r * b) by { Regroup(t, r, b); }
    assert a * q == a * e + t * (a * s) by { Regroup(t, s, a); }
    Sum3(t, r * b, a * s, p * q);
    Sum3(t, d, e, t * r + t * s);
    Sum3(t, r, s, 0);
    Sum3(t, p, q, 0);
  }

  lemma First(t: int, a: int, p: int, b: int, q: int)
    ensures (a + t * p) * (b + t * q) == a * b + t * (p * b + a * q + t * (p * q))
  {
    assert (a + t * p) * (b + t * q) == a * b + a * (t * q) + (t * p) * b + (t * p) * (t * q);
    Regroup(t, q, a);
    Regroup(t, p, b);
    Regroup(t, p, t * q);
    Regroup(t, q, p);
    Sum3(t, p * b, a * q, t * (p * q));
  }

  lemma Regroup(t: int, a: int, b: int)
    ensures b * (t * a) == t * (b * a) && (t * a) * b == t * (a * b) && a * b == b * a
  {
  }

  lemma Sum3(t: int, a: int, b: int, c: int)
    ensures t * (a + b + c) == t * a + t * b + t * c
  {
  }
}
