/** Reverse-mode differentiation: expressions are augmented with partial and shadow pullbacks. */
module AutoDiff {
  import opened Tuples
  import opened Tangents
  import opened Derivatives

  /** The pullbacks that are generated, all in continuation-passing style. */
  datatype Pb =
    | IdPb
    | ZeroPb
    | ExtractPb(tuple: Pb, ty: Type, index: nat)
    | TuplePb(pbs: seq<Pb>)
    | PackPb(arity: nat, body: Pb)
    | ComposePb(f: Pb, g: Pb)
    | PrimPb(op: PrimOp, arg: Expr)

  /** Sums up tangents from left to right. */
  function Sum(ty: Type, ts: seq<Val>): Val {
    if ts == [] then Zero(ty)
    else if |ts| == 1 then ts[0]
    else Plus(Sum(ty, ts[..|ts| - 1]), ts[|ts| - 1])
  }

  /** The registered derivatives of operators, at the operands a. */
  function PullPrim(op: PrimOp, a: Val, s: Val): Val {
    match op
    case Add => Tup([s, s])
    case Mul => Tup([Scalar(Int(s) * Int(Proj(a, 1))), Scalar(Int(s) * Int(Proj(a, 0)))])
    case _ => Tup([Scalar(0), Scalar(0)])
  }

  /** Calls a pullback with tangent s and continuation k, for a parameter x of type ty. */
  function Call(pb: Pb, ty: Type, x: Val, s: Val, k: Val -> Val): Val
    decreases pb, 1, 0
  {
    match pb
    case IdPb => k(s)
    case ZeroPb => k(Zero(ty))
    case ExtractPb(t, tty, i) => Call(t, ty, x, Put(Zero(tty), i, s), k)
    case TuplePb(_) => CallAll(pb, ty, x, s, [], k)
    case PackPb(n, body) => k(Sum(ty, seq(n, i => Call(body, ty, x, Proj(s, i), r => r))))
    case ComposePb(f, g) => Call(g, ty, x, s, b => Call(f, ty, x, b, k))
    case PrimPb(op, arg) => k(PullPrim(op, Eval(arg, [x]), s))
  }

  /** Every pullback of a tuple continues with the next one; the last continuation sums up. */
  function CallAll(pb: Pb, ty: Type, x: Val, s: Val, tangents: seq<Val>, k: Val -> Val): Val
    requires pb.TuplePb? && |tangents| <= |pb.pbs|
    decreases pb, 0, |pb.pbs| - |tangents|
  {
    if |tangents| == |pb.pbs| then k(Sum(ty, tangents))
    else Call(pb.pbs[|tangents|], ty, x, Proj(s, |tangents|), t => CallAll(pb, ty, x, s, tangents + [t], k))
  }

  /** The same in direct style. */
  function Pull(pb: Pb, ty: Type, x: Val, s: Val): Val {
    match pb
    case IdPb => s
    case ZeroPb => Zero(ty)
    case ExtractPb(t, tty, i) => Pull(t, ty, x, Put(Zero(tty), i, s))
    case TuplePb(pbs) => Sum(ty, seq(|pbs|, i requires 0 <= i < |pbs| => Pull(pbs[i], ty, x, Proj(s, i))))
    case PackPb(n, body) => Sum(ty, seq(n, i => Pull(body, ty, x, Proj(s, i))))
    case ComposePb(f, g) => Pull(f, ty, x, Pull(g, ty, x, s))
    case PrimPb(op, arg) => PullPrim(op, Eval(arg, [x]), s)
  }

  /** Calling a pullback passes its direct-style result to the continuation. */
  lemma {:induction false} CallIsPull(pb: Pb, ty: Type, x: Val, s: Val, k: Val -> Val)
    ensures Call(pb, ty, x, s, k) == k(Pull(pb, ty, x, s))
    decreases pb, 1, 0
  {
    match pb
    case ExtractPb(t, tty, i) => CallIsPull(t, ty, x, Put(Zero(tty), i, s), k);
    case TuplePb(_) => CallAllIsPull(pb, ty, x, s, [], k);
    case PackPb(n, body) =>
      forall i: nat | i < n
        ensures Call(body, ty, x, Proj(s, i), r => r) == Pull(body, ty, x, Proj(s, i))
      {
        CallIsPull(body, ty, x, Proj(s, i), r => r);
      }
      assert seq(n, i => Call(body, ty, x, Proj(s, i), r => r)) == seq(n, i => Pull(body, ty, x, Proj(s, i)));
    case ComposePb(f, g) =>
      CallIsPull(g, ty, x, s, b => Call(f, ty, x, b, k));
      CallIsPull(f, ty, x, Pull(g, ty, x, s), k);
    case _ =>
  }

  /** The tangents of the first n operands. */
  function OperandTangents(pb: Pb, ty: Type, x: Val, s: Val, n: nat): seq<Val>
    requires pb.TuplePb? && n <= |pb.pbs|
  {
    seq(n, i requires 0 <= i < n => Pull(pb.pbs[i], ty, x, Proj(s, i)))
  }

  lemma {:induction false} CallAllIsPull(pb: Pb, ty: Type, x: Val, s: Val, tangents: seq<Val>, k: Val -> Val)
    requires pb.TuplePb? && |tangents| <= |pb.pbs| && tangents == OperandTangents(pb, ty, x, s, |tangents|)
    ensures CallAll(pb, ty, x, s, tangents, k) == k(Pull(pb, ty, x, s))
    decreases pb, 0, |pb.pbs| - |tangents|
  {
    var i := |tangents|;
    if i < |pb.pbs| {
      var t := Pull(pb.pbs[i], ty, x, Proj(s, i));
      CallIsPull(pb.pbs[i], ty, x, Proj(s, i), t => CallAll(pb, ty, x, s, tangents + [t], k));
      assert tangents + [t] == OperandTangents(pb, ty, x, s, i + 1);
      CallAllIsPull(pb, ty, x, s, tangents + [t], k);
    } else {
      assert tangents == seq(|pb.pbs|, i requires 0 <= i < |pb.pbs| => Pull(pb.pbs[i], ty, x, Proj(s, i)));
    }
  }

  /** pb is the adjoint of the derivative of e: <pb(s), v> = <s, De(v)>. */
  ghost predicate Adjoint(ty: Type, e: Expr, pb: Pb) {
    forall x, s, v {:trigger AdjointAt(ty, e, pb, x, s, v)}
        | HasType(x, ty) && Shaped(s, TypeOf(e)) && Shaped(v, ty) :: AdjointAt(ty, e, pb, x, s, v)
  }

  ghost predicate AdjointAt(ty: Type, e: Expr, pb: Pb, x: Val, s: Val, v: Val) {
    Shaped(Pull(pb, ty, x, s), ty) && Dot(Pull(pb, ty, x, s), v) == Dot(s, Deriv(e, x, v))
  }

  lemma AdjointSame(ty: Type, e: Expr, e': Expr, pb: Pb)
    requires Same(ty, e, e') && Adjoint(ty, e, pb)
    ensures Adjoint(ty, e', pb)
  {
    forall x, s, v {:trigger AdjointAt(ty, e', pb, x, s, v)} | HasType(x, ty) && Shaped(s, TypeOf(e')) && Shaped(v, ty)
      ensures AdjointAt(ty, e', pb, x, s, v)
    {
      AdjointAtSame(ty, e, e', pb, x, s, v);
    }
  }

  lemma AdjointAtSame(ty: Type, e: Expr, e': Expr, pb: Pb, x: Val, s: Val, v: Val)
    requires Same(ty, e, e') && Adjoint(ty, e, pb) && HasType(x, ty) && Shaped(s, TypeOf(e)) && Shaped(v, ty)
    ensures AdjointAt(ty, e', pb, x, s, v)
  {
    assert AdjointAt(ty, e, pb, x, s, v) && SameAt(e, e', x, v);
  }

  lemma AdjointLit(ty: Type, e: Expr)
    requires Diffable(e, ty) && e.Lit?
    ensures Adjoint(ty, e, ZeroPb)
  {
    forall x, s, v {:trigger AdjointAt(ty, e, ZeroPb, x, s, v)}
        | HasType(x, ty) && Shaped(s, TypeOf(e)) && Shaped(v, ty)
      ensures AdjointAt(ty, e, ZeroPb, x, s, v)
    {
      ZeroShaped(ty);
      DotZero(ty, v);
    }
  }

  lemma AdjointVar(ty: Type, e: Expr)
    requires Diffable(e, ty) && e.Var?
    ensures Adjoint(ty, e, IdPb)
  {
    forall x, s, v {:trigger AdjointAt(ty, e, IdPb, x, s, v)} | HasType(x, ty) && Shaped(s, TypeOf(e)) && Shaped(v, ty)
      ensures AdjointAt(ty, e, IdPb, x, s, v)
    {
    }
  }

  /** The sum of tangents multiplies like the tangents. */
  lemma {:induction false} DotSum(ty: Type, ts: seq<Val>, v: Val, s: Val, d: Val)
    requires Shaped(v, ty) && (forall t | t in ts :: Shaped(t, ty))
    requires s.Tup? && d.Tup? && |ts| <= |s.vs| && |ts| <= |d.vs|
    requires forall i | 0 <= i < |ts| :: Dot(ts[i], v) == Dot(s.vs[i], d.vs[i])
    ensures Shaped(Sum(ty, ts), ty) && Dot(Sum(ty, ts), v) == DotUpTo(s, d, |ts|)
  {
    if ts == [] {
      ZeroShaped(ty);
      DotZero(ty, v);
    } else {
      var n := |ts| - 1;
      assert ts[n] in ts;
      DotSum(ty, ts[..n], v, s, d);
      if n > 0 {
        PlusShaped(Sum(ty, ts[..n]), ts[n], ty);
        DotPlus(Sum(ty, ts[..n]), ts[n], v, ty);
      } else {
        assert DotUpTo(s, d, 1) == DotUpTo(s, d, 0) + Dot(s.vs[0], d.vs[0]);
      }
    }
  }

  lemma AdjointTuple(ty: Type, es: seq<Expr>, pbs: seq<Pb>)
    requires |es| == |pbs| && forall i | 0 <= i < |es| :: Adjoint(ty, es[i], pbs[i])
    ensures Adjoint(ty, Tuple(es), TuplePb(pbs))
  {
    forall x, s, v {:trigger AdjointAt(ty, Tuple(es), TuplePb(pbs), x, s, v)}
        | HasType(x, ty) && Shaped(s, TypeOf(Tuple(es))) && Shaped(v, ty)
      ensures AdjointAt(ty, Tuple(es), TuplePb(pbs), x, s, v)
    {
      var ts := OperandTangents(TuplePb(pbs), ty, x, s, |pbs|);
      forall i | 0 <= i < |ts|
        ensures Shaped(ts[i], ty) && Dot(ts[i], v) == Dot(s.vs[i], Derivs(es, x, v)[i])
      {
        assert AdjointAt(ty, es[i], pbs[i], x, s.vs[i], v);
      }
      DotSum(ty, ts, v, s, Tup(Derivs(es, x, v)));
      assert ts == seq(|pbs|, i requires 0 <= i < |pbs| => Pull(pbs[i], ty, x, Proj(s, i)));
    }
  }

  lemma AdjointPack(ty: Type, n: nat, e: Expr, pb: Pb)
    requires Adjoint(ty, e, pb)
    ensures Adjoint(ty, Pack(n, e), PackPb(n, pb))
  {
    forall x, s, v {:trigger AdjointAt(ty, Pack(n, e), PackPb(n, pb), x, s, v)}
        | HasType(x, ty) && Shaped(s, TypeOf(Pack(n, e))) && Shaped(v, ty)
      ensures AdjointAt(ty, Pack(n, e), PackPb(n, pb), x, s, v)
    {
      var ts := seq(n, i => Pull(pb, ty, x, Proj(s, i)));
      forall i | 0 <= i < |ts|
        ensures Shaped(ts[i], ty) && Dot(ts[i], v) == Dot(s.vs[i], Deriv(Pack(n, e), x, v).vs[i])
      {
        assert Shaped(s.vs[i], TypeOf(Pack(n, e)).ops[i]);
        assert AdjointAt(ty, e, pb, x, s.vs[i], v);
      }
      DotSum(ty, ts, v, s, Deriv(Pack(n, e), x, v));
    }
  }

  /** The pullback of an operand: that of the tuple, with the tangent put into zero. */
  lemma AdjointExtract(ty: Type, t: Expr, i: Expr, pb: Pb)
    requires Diffable(Extract(t, i), ty) && Adjoint(ty, t, pb)
    ensures Adjoint(ty, Extract(t, i), ExtractPb(pb, TypeOf(t), i.value))
  {
    var e, tty := Extract(t, i), TypeOf(t);
    assert Typed(i) && IndexOk(tty, i);
    forall x, s, v {:trigger AdjointAt(ty, e, ExtractPb(pb, tty, i.value), x, s, v)}
        | HasType(x, ty) && Shaped(s, TypeOf(e)) && Shaped(v, ty)
      ensures AdjointAt(ty, e, ExtractPb(pb, tty, i.value), x, s, v)
    {
      var s' := Put(Zero(tty), i.value, s);
      ZeroShaped(tty);
      PutShaped(Zero(tty), tty, i.value, s);
      assert AdjointAt(ty, t, pb, x, s', v);
      DerivShaped(t, ty, x, v);
      DotUnit(tty, i.value, s, Deriv(t, x, v));
      assert Eval(i, [x]) == Scalar(i.value);
    }
  }

  lemma AdjointPrim(ty: Type, op: PrimOp, arg: Expr, pb: Pb)
    requires Diffable(Prim(op, arg), ty) && Adjoint(ty, arg, pb)
    ensures Adjoint(ty, Prim(op, arg), ComposePb(pb, PrimPb(op, arg)))
  {
    var e := Prim(op, arg);
    forall x, s, v {:trigger AdjointAt(ty, e, ComposePb(pb, PrimPb(op, arg)), x, s, v)}
        | HasType(x, ty) && Shaped(s, TypeOf(e)) && Shaped(v, ty)
      ensures AdjointAt(ty, e, ComposePb(pb, PrimPb(op, arg)), x, s, v)
    {
      var a, d := Eval(arg, [x]), Deriv(arg, x, v);
      var s' := PullPrim(op, a, s);
      assert TypeOf(arg) == Sigma([Num, Num]);
      DerivShaped(arg, ty, x, v);
      assert Shaped(d.vs[0], Num) && Shaped(d.vs[1], Num);
      PairShaped(s'.vs[0], s'.vs[1]);
      assert AdjointAt(ty, arg, pb, x, s', v);
      DotPair(s', d);
      PrimChain(op, Int(Proj(a, 0)), Int(Proj(a, 1)), d.vs[0].n, d.vs[1].n, s.n);
    }
  }

  lemma PairShaped(a: Val, b: Val)
    requires a.Scalar? && b.Scalar?
    ensures Shaped(Tup([a, b]), Sigma([Num, Num]))
  {
    assert Shaped(a, Num) && Shaped(b, Num);
  }

  lemma DotPair(u: Val, v: Val)
    requires u.Tup? && v.Tup? && |u.vs| == 2 && |v.vs| == 2
    ensures Dot(u, v) == Dot(u.vs[0], v.vs[0]) + Dot(u.vs[1], v.vs[1])
  {
    assert DotUpTo(u, v, 1) == DotUpTo(u, v, 0) + Dot(u.vs[0], v.vs[0]);
  }

  /** The product rule. */
  lemma PrimChain(op: PrimOp, a: int, b: int, da: int, db: int, s: int)
    ensures op.Add? ==> s * da + s * db == s * (da + db)
    ensures op.Mul? ==> (s * b) * da + (s * a) * db == s * (da * b + a * db)
  {
    assert (s * b) * da == s * (da * b) && (s * a) * db == s * (a * db);
  }

  lemma PullShaped(ty: Type, e: Expr, pb: Pb, x: Val, s: Val)
    requires Adjoint(ty, e, pb) && HasType(x, ty) && Shaped(s, TypeOf(e))
    ensures Shaped(Pull(pb, ty, x, s), ty)
  {
    ZeroShaped(ty);
    assert AdjointAt(ty, e, pb, x, s, Zero(ty));
  }

  lemma AdjointDot(ty: Type, e: Expr, pb: Pb, x: Val, s: Val, v: Val)
    requires Adjoint(ty, e, pb) && HasType(x, ty) && Shaped(s, TypeOf(e)) && Shaped(v, ty)
    ensures Dot(Pull(pb, ty, x, s), v) == Dot(s, Deriv(e, x, v))
  {
    assert AdjointAt(ty, e, pb, x, s, v);
  }

  /** Pullbacks are determined by what they are adjoint to. */
  lemma AdjointUnique(ty: Type, e: Expr, pb: Pb, pb': Pb, x: Val, s: Val)
    requires Adjoint(ty, e, pb) && Adjoint(ty, e, pb') && HasType(x, ty) && Shaped(s, TypeOf(e))
    ensures Pull(pb, ty, x, s) == Pull(pb', ty, x, s)
  {
    var p, p' := Pull(pb, ty, x, s), Pull(pb', ty, x, s);
    forall v {:trigger SameDot(p, p', v)} | Shaped(v, ty)
      ensures SameDot(p, p', v)
    {
      AdjointDot(ty, e, pb, x, s, v);
      AdjointDot(ty, e, pb', x, s, v);
    }
    PullShaped(ty, e, pb, x, s);
    PullShaped(ty, e, pb', x, s);
    DotDetermines(p, p', ty);
  }

  predicate IsComparison(e: Expr) {
    e.Prim? && (e.op.Sle? || e.op.Ul? || e.op.Eq?)
  }

  /** No tangent gets through a comparison. */
  lemma ComparisonStops(ty: Type, e: Expr, pb: Pb, x: Val, s: Val)
    requires IsComparison(e) && Adjoint(ty, e, pb) && HasType(x, ty) && Shaped(s, TypeOf(e))
    ensures Pull(pb, ty, x, s) == Zero(ty)
  {
    ZeroShaped(ty);
    PullShaped(ty, e, pb, x, s);
    forall v {:trigger SameDot(Pull(pb, ty, x, s), Zero(ty), v)} | Shaped(v, ty)
      ensures SameDot(Pull(pb, ty, x, s), Zero(ty), v)
    {
      AdjointDot(ty, e, pb, x, s, v);
      DotZero(ty, v);
    }
    DotDetermines(Pull(pb, ty, x, s), Zero(ty), ty);
  }

  /** All pullbacks are linear. */
  lemma PullbackLinear(ty: Type, e: Expr, pb: Pb, x: Val, s: Val, t: Val, c: int)
    requires Diffable(e, ty) && Adjoint(ty, e, pb) && HasType(x, ty) && Shaped(s, TypeOf(e)) && Shaped(t, TypeOf(e))
    ensures Pull(pb, ty, x, Plus(s, Scale(c, t))) == Plus(Pull(pb, ty, x, s), Scale(c, Pull(pb, ty, x, t)))
  {
    var st := Plus(s, Scale(c, t));
    ScaleShaped(c, t, TypeOf(e));
    PlusShaped(s, Scale(c, t), TypeOf(e));
    PullShaped(ty, e, pb, x, s);
    PullShaped(ty, e, pb, x, t);
    PullShaped(ty, e, pb, x, st);
    var p, q := Pull(pb, ty, x, st), Plus(Pull(pb, ty, x, s), Scale(c, Pull(pb, ty, x, t)));
    ScaleShaped(c, Pull(pb, ty, x, t), ty);
    PlusShaped(Pull(pb, ty, x, s), Scale(c, Pull(pb, ty, x, t)), ty);
    forall v {:trigger SameDot(p, q, v)} | Shaped(v, ty)
      ensures SameDot(p, q, v)
    {
      PullbackLinearAt(ty, e, pb, x, s, t, c, v);
    }
    DotDetermines(p, q, ty);
  }

  lemma PullbackLinearAt(ty: Type, e: Expr, pb: Pb, x: Val, s: Val, t: Val, c: int, v: Val)
    requires Diffable(e, ty) && Adjoint(ty, e, pb) && HasType(x, ty) && Shaped(s, TypeOf(e)) && Shaped(t, TypeOf(e))
             && Shaped(v, ty)
    ensures Dot(Pull(pb, ty, x, Plus(s, Scale(c, t))), v)
            == Dot(Plus(Pull(pb, ty, x, s), Scale(c, Pull(pb, ty, x, t))), v)
  {
    var ety, d := TypeOf(e), Deriv(e, x, v);
    DerivShaped(e, ty, x, v);
    ScaleShaped(c, t, ety);
    PlusShaped(s, Scale(c, t), ety);
    assert AdjointAt(ty, e, pb, x, s, v) && AdjointAt(ty, e, pb, x, t, v)
        && AdjointAt(ty, e, pb, x, Plus(s, Scale(c, t)), v);
    DotPlus(s, Scale(c, t), d, ety);
    DotScale(c, t, d, ety);
    var ps, pt := Pull(pb, ty, x, s), Pull(pb, ty, x, t);
    ScaleShaped(c, pt, ty);
    DotPlus(ps, Scale(c, pt), v, ty);
    DotScale(c, pt, v, ty);
  }

  /** A shadow pullback holds the pullbacks of the operands. */
  ghost predicate ShadowOk(ty: Type, e: Expr, pbs: seq<Pb>) {
    && TypeOf(e).Sigma? && |pbs| == Arity(TypeOf(e))
    && forall i | 0 <= i < |pbs| :: Adjoint(ty, Extract(e, IndexLit(TypeOf(e), i)), pbs[i])
  }

  /** The pullback of a whole tuple, applied to a tangent of operand i put into zero. */
  function PullInto(pb: Pb, ty: Type, tty: Type, x: Val, i: nat, s: Val): Val {
    Pull(pb, ty, x, Put(Zero(tty), i, s))
  }

  /** Reading the shadow pullback at i is the same as the whole pullback with the tangent put into zero at i. */
  lemma ShadowAgrees(ty: Type, e: Expr, pbs: seq<Pb>, pb: Pb, i: nat, x: Val, s: Val)
    requires Diffable(e, ty) && ShadowOk(ty, e, pbs) && Adjoint(ty, e, pb) && i < |pbs|
    requires HasType(x, ty) && Shaped(s, TypeOf(e).ops[i])
    ensures Pull(pbs[i], ty, x, s) == PullInto(pb, ty, TypeOf(e), x, i, s)
  {
    var ext := Extract(e, IndexLit(TypeOf(e), i));
    assert OkType(TypeOf(e).ops[i]) by { assert TypeOf(e).ops[i] in TypeOf(e).ops; }
    assert Typed(IndexLit(TypeOf(e), i));
    AdjointExtract(ty, e, IndexLit(TypeOf(e), i), pb);
    AdjointUnique(ty, ext, pbs[i], ExtractPb(pb, TypeOf(e), i), x, s);
  }

  /** Augments the body of a function whose parameter has type ty. */
  class AutoDiffEval {
    const ty: Type
    var augmented: map<Expr, Expr>
    var partialPullback: map<Expr, Pb>
    var shadowPullback: map<Expr, seq<Pb>>

    ghost predicate Valid()
      reads this
    {
      && OkType(ty) && Var(0, ty) in augmented
      && (forall e {:trigger PartialOk(ty, partialPullback, e)} | e in partialPullback ::
          PartialOk(ty, partialPullback, e))
      && (forall e {:trigger ShadowPbOk(ty, shadowPullback, e)} | e in shadowPullback ::
          ShadowPbOk(ty, shadowPullback, e))
      && (forall e {:trigger AugmentedOk(ty, augmented, partialPullback, e)} | e in augmented ::
          AugmentedOk(ty, augmented, partialPullback, e))
    }

    constructor (ty: Type)
      requires OkType(ty)
      ensures Valid() && this.ty == ty && augmented.Keys == {Var(0, ty)}
    {
      this.ty := ty;
      augmented := map[Var(0, ty) := Var(0, ty)];
      partialPullback := map[Var(0, ty) := IdPb];
      shadowPullback := map[];
      AdjointVar(ty, Var(0, ty));
    }

    /** Enters pb for e; pullbacks that are there for other expressions stay. */
    method Enter(e: Expr, pb: Pb)
      requires Valid() && Diffable(e, ty) && Adjoint(ty, e, pb)
      modifies this`partialPullback
      ensures Valid() && partialPullback == old(partialPullback)[e := pb]
    {
      ghost var was := partialPullback;
      partialPullback := partialPullback[e := pb];
      forall f {:trigger PartialOk(ty, partialPullback, f)} | f in partialPullback
        ensures PartialOk(ty, partialPullback, f)
      {
        if f != e { assert PartialOk(ty, was, f); }
      }
      forall f {:trigger AugmentedOk(ty, augmented, partialPullback, f)} | f in augmented
        ensures AugmentedOk(ty, augmented, partialPullback, f)
      {
        assert AugmentedOk(ty, augmented, was, f);
      }
    }

    method EnterShadow(e: Expr, pbs: seq<Pb>)
      requires Valid() && Diffable(e, ty) && ShadowOk(ty, e, pbs)
      modifies this`shadowPullback
      ensures Valid() && shadowPullback == old(shadowPullback)[e := pbs]
    {
      ghost var was := shadowPullback;
      shadowPullback := shadowPullback[e := pbs];
      forall f {:trigger ShadowPbOk(ty, shadowPullback, f)} | f in shadowPullback
        ensures ShadowPbOk(ty, shadowPullback, f)
      {
        if f != e { assert ShadowPbOk(ty, was, f); }
      }
    }

    /** The augmented counterpart of e: it has the same value, and there is a pullback for it that is the
        adjoint of the derivative of e. */
    method Augment(e: Expr) returns (r: Expr)
      requires Valid() && Diffable(e, ty)
      modifies this
      ensures Valid() && Extended(old(augmented), augmented, old(partialPullback), partialPullback)
      ensures Same(ty, e, r) && r in partialPullback && Adjoint(ty, e, partialPullback[r])
      ensures e.Lit? ==> r == e
      decreases e, 1
    {
      if e in augmented {
        assert AugmentedOk(ty, augmented, partialPullback, e);
        assert PartialOk(ty, partialPullback, augmented[e]);
        SameSym(ty, e, augmented[e]);
        AdjointSame(ty, augmented[e], e, partialPullback[augmented[e]]);
        return augmented[e];
      }
      r := AugmentNew(e);
      assert PartialOk(ty, partialPullback, r);
      SameSym(ty, e, r);
      AdjointSame(ty, r, e, partialPullback[r]);
      ghost var was := augmented;
      augmented := augmented[e := r];
      forall f {:trigger AugmentedOk(ty, augmented, partialPullback, f)} | f in augmented
        ensures AugmentedOk(ty, augmented, partialPullback, f)
      {
        if f != e { assert AugmentedOk(ty, was, partialPullback, f); }
      }
    }

    method AugmentNew(e: Expr) returns (r: Expr)
      requires Valid() && Diffable(e, ty) && e !in augmented
      modifies this
      ensures Valid() && Extended(old(augmented), augmented, old(partialPullback), partialPullback)
      ensures Same(ty, e, r) && r in partialPullback
      ensures e.Lit? ==> r == e
      decreases e, 0
    {
      match e
      case Lit(_, _) =>
        AdjointLit(ty, e);
        Enter(e, ZeroPb);
        r := e;
      case Tuple(ops) =>
        var augOps := AugmentOps(e);
        SameTuple(ty, ops, augOps);
        r := BuildAugmentedTuple(augOps);
        SameTrans(ty, e, Tuple(augOps), r);
      case Pack(n, body) =>
        var augBody := Augment(body);
        SamePack(ty, n, body, augBody);
        r := AugmentPack(n, augBody);
      case Extract(t, i) =>
        var augTuple := Augment(t);
        var augIndex := Augment(i);
        SameExtract(ty, t, augTuple, i);
        r := AugmentExtract(augTuple, augIndex);
        SameTrans(ty, e, Extract(augTuple, i), r);
      case Prim(op, arg) =>
        var augArg := Augment(arg);
        SamePrim(ty, op, arg, augArg);
        r := AugmentApp(op, augArg);
      case _ =>
        assert false;
    }

    method AugmentOps(e: Expr) returns (augOps: seq<Expr>)
      requires Valid() && e.Tuple? && Diffable(e, ty)
      modifies this
      ensures Valid() && Extended(old(augmented), augmented, old(partialPullback), partialPullback)
      ensures |augOps| == |e.ops|
              && forall j | 0 <= j < |e.ops| :: Same(ty, e.ops[j], augOps[j]) && augOps[j] in partialPullback
      decreases e, 0, 0
    {
      augOps := [];
      for i := 0 to |e.ops|
        invariant Valid() && Extended(old(augmented), augmented, old(partialPullback), partialPullback)
        invariant |augOps| == i
                  && forall j | 0 <= j < i :: Same(ty, e.ops[j], augOps[j]) && augOps[j] in partialPullback
      {
        var augOp := Augment(e.ops[i]);
        augOps := augOps + [augOp];
      }
    }

    /** The tuple of augmented operands, its shadow pullback and the pullback that calls those of all operands. */
    method BuildAugmentedTuple(augOps: seq<Expr>) returns (augTuple: Expr)
      requires Valid() && |augOps| != 1 && forall o | o in augOps :: o in partialPullback
      modifies this`partialPullback, this`shadowPullback
      ensures Valid() && partialPullback.Keys == old(partialPullback.Keys) + {augTuple}
      ensures (forall o | o in augOps :: Diffable(o, ty)) && Same(ty, Tuple(augOps), augTuple)
    {
      augTuple := MkTuple(augOps);
      var pbs := [];
      for i := 0 to |augOps|
        invariant |pbs| == i && forall j | 0 <= j < i :: Diffable(augOps[j], ty) && Adjoint(ty, augOps[j], pbs[j])
      {
        assert augOps[i] in augOps && PartialOk(ty, partialPullback, augOps[i]);
        pbs := pbs + [partialPullback[augOps[i]]];
      }
      MkTupleSame(ty, augOps);
      ShadowOfTuple(ty, augOps, augTuple, pbs);
      EnterShadow(augTuple, pbs);
      AdjointTuple(ty, augOps, pbs);
      AdjointSame(ty, Tuple(augOps), augTuple, TuplePb(pbs));
      Enter(augTuple, TuplePb(pbs));
    }

    method AugmentPack(n: nat, augBody: Expr) returns (augPack: Expr)
      requires Valid() && n >= 2 && augBody in partialPullback
      modifies this`partialPullback, this`shadowPullback
      ensures Valid() && partialPullback.Keys == old(partialPullback.Keys) + {augPack}
      ensures augPack == Pack(n, augBody)
    {
      augPack := MkPack(n, augBody);
      assert PartialOk(ty, partialPullback, augBody);
      var pb := partialPullback[augBody];
      PackDiffable(ty, n, augBody);
      ShadowOfPack(ty, n, augBody, pb);
      EnterShadow(augPack, seq(n, _ => pb));
      AdjointPack(ty, n, augBody, pb);
      Enter(augPack, PackPb(n, pb));
    }

    /** Takes the pullback from the shadow of the tuple if there is one. Either way it is the one of the whole tuple,
        with the tangent put into zero. */
    method AugmentExtract(augTuple: Expr, augIndex: Expr) returns (augExt: Expr)
      requires Valid() && augTuple in partialPullback && augIndex.Lit? && Typed(Extract(augTuple, augIndex))
      modifies this`partialPullback
      ensures Valid() && partialPullback.Keys == old(partialPullback.Keys) + {augExt}
      ensures Diffable(augTuple, ty) && Same(ty, Extract(augTuple, augIndex), augExt)
      ensures augIndex.value < Arity(TypeOf(augTuple))
      ensures forall x, s | HasType(x, ty) && Shaped(s, TypeOf(augTuple).ops[augIndex.value]) ::
                Pull(partialPullback[augExt], ty, x, s)
                    == PullInto(old(partialPullback)[augTuple], ty, TypeOf(augTuple), x, augIndex.value, s)
    {
      augExt := MkExtract(augTuple, augIndex);
      assert PartialOk(ty, partialPullback, augTuple);
      MkExtractSame(ty, augTuple, augIndex);
      assert Typed(augIndex) && IndexOk(TypeOf(augTuple), augIndex);
      var pb;
      if augTuple in shadowPullback {
        assert ShadowPbOk(ty, shadowPullback, augTuple);
        pb := shadowPullback[augTuple][augIndex.value];
        forall x, s | HasType(x, ty) && Shaped(s, TypeOf(augTuple).ops[augIndex.value])
          ensures Pull(pb, ty, x, s) == PullInto(partialPullback[augTuple], ty, TypeOf(augTuple), x, augIndex.value, s)
        {
          ShadowAgrees(ty, augTuple, shadowPullback[augTuple], partialPullback[augTuple], augIndex.value, x, s);
        }
      } else {
        pb := ExtractPb(partialPullback[augTuple], TypeOf(augTuple), augIndex.value);
        AdjointExtract(ty, augTuple, augIndex, partialPullback[augTuple]);
      }
      AdjointSame(ty, Extract(augTuple, augIndex), augExt, pb);
      Enter(augExt, pb);
    }

    /** Composes the pullback of an operator with that of its argument. */
    method AugmentApp(op: PrimOp, augArg: Expr) returns (augRes: Expr)
      requires Valid() && augArg in partialPullback && Typed(Prim(op, augArg))
      modifies this`partialPullback
      ensures Valid() && partialPullback.Keys == old(partialPullback.Keys) + {augRes}
      ensures augRes == Prim(op, augArg)
      ensures IsComparison(augRes) ==> forall x, s | HasType(x, ty) && Shaped(s, TypeOf(augRes)) ::
                Pull(partialPullback[augRes], ty, x, s) == Zero(ty)
    {
      augRes := Prim(op, augArg);
      assert PartialOk(ty, partialPullback, augArg);
      var pb := ComposePb(partialPullback[augArg], PrimPb(op, augArg));
      AdjointPrim(ty, op, augArg, partialPullback[augArg]);
      Enter(augRes, pb);
      if IsComparison(augRes) {
        forall x, s | HasType(x, ty) && Shaped(s, TypeOf(augRes))
          ensures Pull(pb, ty, x, s) == Zero(ty)
        {
          ComparisonStops(ty, augRes, pb, x, s);
        }
      }
    }
  }

  /** Calls a pullback and waits for what it passes on. */
  function Direct(pb: Pb, ty: Type, x: Val, s: Val): Val {
    Call(pb, ty, x, s, r => r)
  }

  /** The derivative of f maps x to f x and a pullback: the value as before, and a pullback that is linear and computes
      the adjoint of the derivative. */
  method Derive(ty: Type, body: Expr) returns (body': Expr, pb: Pb)
    requires OkType(ty) && Diffable(body, ty)
    ensures TypeOf(body') == TypeOf(body) && forall x | HasType(x, ty) :: Eval(body', [x]) == Eval(body, [x])
    ensures forall x, s, v | HasType(x, ty) && Shaped(s, TypeOf(body)) && Shaped(v, ty) ::
              Dot(Direct(pb, ty, x, s), v) == Dot(s, Deriv(body, x, v))
    ensures forall x, s, t, c | HasType(x, ty) && Shaped(s, TypeOf(body)) && Shaped(t, TypeOf(body)) ::
              Direct(pb, ty, x, Plus(s, Scale(c, t))) == Plus(Direct(pb, ty, x, s), Scale(c, Direct(pb, ty, x, t)))
    ensures IsComparison(body) ==> forall x, s | HasType(x, ty) && Shaped(s, TypeOf(body)) ::
              Direct(pb, ty, x, s) == Zero(ty)
  {
    var eval := new AutoDiffEval(ty);
    body' := eval.Augment(body);
    pb := eval.partialPullback[body'];
    forall x | HasType(x, ty)
      ensures Eval(body', [x]) == Eval(body, [x])
    {
      ZeroShaped(ty);
      assert SameAt(body, body', x, Zero(ty));
    }
    forall x, s, v | HasType(x, ty) && Shaped(s, TypeOf(body)) && Shaped(v, ty)
      ensures Dot(Direct(pb, ty, x, s), v) == Dot(s, Deriv(body, x, v))
    {
      CallIsPull(pb, ty, x, s, r => r);
      assert AdjointAt(ty, body, pb, x, s, v);
    }
    forall x, s, t, c | HasType(x, ty) && Shaped(s, TypeOf(body)) && Shaped(t, TypeOf(body))
      ensures Direct(pb, ty, x, Plus(s, Scale(c, t))) == Plus(Direct(pb, ty, x, s), Scale(c, Direct(pb, ty, x, t)))
    {
      PullbackLinear(ty, body, pb, x, s, t, c);
      CallIsPull(pb, ty, x, Plus(s, Scale(c, t)), r => r);
      CallIsPull(pb, ty, x, s, r => r);
      CallIsPull(pb, ty, x, t, r => r);
    }
    forall x, s | IsComparison(body) && HasType(x, ty) && Shaped(s, TypeOf(body))
      ensures Direct(pb, ty, x, s) == Zero(ty)
    {
      ComparisonStops(ty, body, pb, x, s);
      CallIsPull(pb, ty, x, s, r => r);
    }
  }

  /** Operand i of a tuple is what extracting it gives. */
  lemma OperandSame(ty: Type, ops: seq<Expr>, e: Expr, i: nat)
    requires |ops| != 1 && i < |ops| && Same(ty, Tuple(ops), e)
    ensures Same(ty, Extract(e, IndexLit(TypeOf(e), i)), ops[i])
  {
    var lit := IndexLit(TypeOf(e), i);
    assert ops[i] in ops && Diffable(ops[i], ty);
    assert OkType(TypeOf(ops[i])) && Typed(lit);
    SameExtract(ty, Tuple(ops), e, lit);
    SameSym(ty, Extract(Tuple(ops), lit), Extract(e, lit));
    forall x, v {:trigger SameAt(Extract(Tuple(ops), lit), ops[i], x, v)} | HasType(x, ty) && Shaped(v, ty)
      ensures SameAt(Extract(Tuple(ops), lit), ops[i], x, v)
    {
      assert Eval(lit, [x]) == Scalar(i);
    }
    SameTrans(ty, Extract(e, lit), Extract(Tuple(ops), lit), ops[i]);
  }

  lemma ShadowOfTuple(ty: Type, ops: seq<Expr>, e: Expr, pbs: seq<Pb>)
    requires |ops| != 1 && |pbs| == |ops| && Same(ty, Tuple(ops), e)
    requires forall i | 0 <= i < |ops| :: Adjoint(ty, ops[i], pbs[i])
    ensures ShadowOk(ty, e, pbs)
  {
    forall i | 0 <= i < |pbs|
      ensures Adjoint(ty, Extract(e, IndexLit(TypeOf(e), i)), pbs[i])
    {
      OperandSame(ty, ops, e, i);
      SameSym(ty, Extract(e, IndexLit(TypeOf(e), i)), ops[i]);
      AdjointSame(ty, ops[i], Extract(e, IndexLit(TypeOf(e), i)), pbs[i]);
    }
  }

  lemma PackDiffable(ty: Type, n: nat, e: Expr)
    requires n >= 2 && Diffable(e, ty)
    ensures Diffable(Pack(n, e), ty)
  {
  }

  lemma ShadowOfPack(ty: Type, n: nat, e: Expr, pb: Pb)
    requires n >= 2 && Diffable(e, ty) && Adjoint(ty, e, pb)
    ensures ShadowOk(ty, Pack(n, e), seq(n, _ => pb))
  {
    var ops, pbs := seq(n, _ => e), seq(n, _ => pb);
    TupleTyped(ops);
    assert TypesOf(ops) == TypeOf(Pack(n, e)).ops;
    forall x, v {:trigger SameAt(Tuple(ops), Pack(n, e), x, v)} | HasType(x, ty) && Shaped(v, ty)
      ensures SameAt(Tuple(ops), Pack(n, e), x, v)
    {
      assert Evals(ops, [x]) == Eval(Pack(n, e), [x]).vs && Derivs(ops, x, v) == Deriv(Pack(n, e), x, v).vs;
    }
    ShadowOfTuple(ty, ops, Pack(n, e), pbs);
  }

  ghost predicate PartialOk(ty: Type, partial: map<Expr, Pb>, e: Expr)
    requires e in partial
  {
    Diffable(e, ty) && Adjoint(ty, e, partial[e])
  }

  ghost predicate ShadowPbOk(ty: Type, shadow: map<Expr, seq<Pb>>, e: Expr)
    requires e in shadow
  {
    Diffable(e, ty) && ShadowOk(ty, e, shadow[e])
  }

  ghost predicate AugmentedOk(ty: Type, augmented: map<Expr, Expr>, partial: map<Expr, Pb>, e: Expr)
    requires e in augmented
  {
    Same(ty, e, augmented[e]) && augmented[e] in partial && (e.Lit? ==> augmented[e] == e)
  }

  /** Nothing entered is lost. */
  ghost predicate Extended(augmented: map<Expr, Expr>, augmented': map<Expr, Expr>, partial: map<Expr, Pb>,
                           partial': map<Expr, Pb>) {
    && (forall e | e in augmented :: e in augmented' && augmented'[e] == augmented[e])
    && partial.Keys <= partial'.Keys
  }

  lemma SameSym(ty: Type, e: Expr, e': Expr)
    requires Same(ty, e, e')
    ensures Same(ty, e', e)
  {
    forall x, v {:trigger SameAt(e', e, x, v)} | HasType(x, ty) && Shaped(v, ty)
      ensures SameAt(e', e, x, v)
    {
      assert SameAt(e, e', x, v);
    }
  }
}
