/** Tangent vectors: nested tuples of integers with sum and inner product. */
module Tangents {
  import opened Tuples

  /** v has the structure of ty; components of index type are not bounded. */
  ghost predicate Shaped(v: Val, ty: Type) {
    match ty
    case Sigma(ops) => v.Tup? && |v.vs| == |ops| && forall i | 0 <= i < |ops| :: Shaped(v.vs[i], ops[i])
    case _ => v.Scalar?
  }

  lemma {:induction false} TypedShaped(v: Val, ty: Type)
    requires HasType(v, ty)
    ensures Shaped(v, ty)
  {
    if ty.Sigma? {
      forall i | 0 <= i < |ty.ops|
        ensures Shaped(v.vs[i], ty.ops[i])
      {
        TypedShaped(v.vs[i], ty.ops[i]);
      }
    }
  }

  function Zero(ty: Type): Val {
    match ty
    case Sigma(ops) => Tup(seq(|ops|, i requires 0 <= i < |ops| => Zero(ops[i])))
    case _ => Scalar(0)
  }

  function Plus(u: Val, v: Val): Val {
    if u.Scalar? && v.Scalar? then Scalar(u.n + v.n)
    else if u.Tup? && v.Tup? && |u.vs| == |v.vs| then
      Tup(seq(|u.vs|, i requires 0 <= i < |u.vs| => Plus(u.vs[i], v.vs[i])))
    else u
  }

  function Scale(c: int, v: Val): Val {
    match v
    case Scalar(n) => Scalar(c * n)
    case Tup(vs) => Tup(seq(|vs|, i requires 0 <= i < |vs| => Scale(c, vs[i])))
  }

  /** The inner product. */
  function Dot(u: Val, v: Val): int
    decreases u, 0, 1
  {
    if u.Scalar? && v.Scalar? then u.n * v.n
    else if u.Tup? && v.Tup? && |u.vs| == |v.vs| then DotUpTo(u, v, |u.vs|)
    else 0
  }

  function DotUpTo(u: Val, v: Val, k: nat): int
    requires u.Tup? && v.Tup? && k <= |u.vs| && k <= |v.vs|
    decreases u, 0, 0, k
  {
    if k == 0 then 0 else DotUpTo(u, v, k - 1) + Dot(u.vs[k - 1], v.vs[k - 1])
  }

  lemma {:induction false} ZeroShaped(ty: Type)
    ensures Shaped(Zero(ty), ty)
  {
    if ty.Sigma? {
      forall i | 0 <= i < |ty.ops|
        ensures Shaped(Zero(ty).vs[i], ty.ops[i])
      {
        ZeroShaped(ty.ops[i]);
      }
    }
  }

  lemma {:induction false} PlusShaped(u: Val, v: Val, ty: Type)
    requires Shaped(u, ty) && Shaped(v, ty)
    ensures Shaped(Plus(u, v), ty)
  {
    if ty.Sigma? {
      forall i | 0 <= i < |ty.ops|
        ensures Shaped(Plus(u, v).vs[i], ty.ops[i])
      {
        PlusShaped(u.vs[i], v.vs[i], ty.ops[i]);
      }
    }
  }

  lemma {:induction false} ScaleShaped(c: int, v: Val, ty: Type)
    requires Shaped(v, ty)
    ensures Shaped(Scale(c, v), ty)
  {
    if ty.Sigma? {
      forall i | 0 <= i < |ty.ops|
        ensures Shaped(Scale(c, v).vs[i], ty.ops[i])
      {
        ScaleShaped(c, v.vs[i], ty.ops[i]);
      }
    }
  }

  lemma PutShaped(v: Val, ty: Type, i: nat, w: Val)
    requires ty.Sigma? && i < |ty.ops| && Shaped(v, ty) && Shaped(w, ty.ops[i])
    ensures Shaped(Put(v, i, w), ty)
  {
  }

  lemma {:induction false} DotZero(ty: Type, v: Val)
    requires Shaped(v, ty)
    ensures Dot(Zero(ty), v) == 0
    decreases ty
  {
    if ty.Sigma? { DotZeroUpTo(ty, v, |ty.ops|); }
  }

  lemma {:induction false} DotZeroUpTo(ty: Type, v: Val, k: nat)
    requires ty.Sigma? && Shaped(v, ty) && k <= |ty.ops|
    ensures DotUpTo(Zero(ty), v, k) == 0
    decreases ty, 0, k
  {
    if k > 0 {
      DotZeroUpTo(ty, v, k - 1);
      DotZero(ty.ops[k - 1], v.vs[k - 1]);
    }
  }

  lemma {:induction false} DotPlus(u: Val, w: Val, v: Val, ty: Type)
    requires Shaped(u, ty) && Shaped(w, ty) && Shaped(v, ty)
    ensures Dot(Plus(u, w), v) == Dot(u, v) + Dot(w, v)
    decreases ty
  {
    if ty.Sigma? { DotPlusUpTo(u, w, v, ty, |ty.ops|); } else { assert (u.n + w.n) * v.n == u.n * v.n + w.n * v.n; }
  }

  lemma {:induction false} DotPlusUpTo(u: Val, w: Val, v: Val, ty: Type, k: nat)
    requires ty.Sigma? && Shaped(u, ty) && Shaped(w, ty) && Shaped(v, ty) && k <= |ty.ops|
    ensures DotUpTo(Plus(u, w), v, k) == DotUpTo(u, v, k) + DotUpTo(w, v, k)
    decreases ty, 0, k
  {
    if k > 0 {
      DotPlusUpTo(u, w, v, ty, k - 1);
      DotPlus(u.vs[k - 1], w.vs[k - 1], v.vs[k - 1], ty.ops[k - 1]);
    }
  }

  lemma {:induction false} DotScale(c: int, u: Val, v: Val, ty: Type)
    requires Shaped(u, ty) && Shaped(v, ty)
    ensures Dot(Scale(c, u), v) == c * Dot(u, v)
    decreases ty
  {
    if ty.Sigma? { DotScaleUpTo(c, u, v, ty, |ty.ops|); } else { assert (c * u.n) * v.n == c * (u.n * v.n); }
  }

  lemma {:induction false} DotScaleUpTo(c: int, u: Val, v: Val, ty: Type, k: nat)
    requires ty.Sigma? && Shaped(u, ty) && Shaped(v, ty) && k <= |ty.ops|
    ensures DotUpTo(Scale(c, u), v, k) == c * DotUpTo(u, v, k)
    decreases ty, 0, k
  {
    if k > 0 {
      DotScaleUpTo(c, u, v, ty, k - 1);
      DotScale(c, u.vs[k - 1], v.vs[k - 1], ty.ops[k - 1]);
      assert c * (DotUpTo(u, v, k - 1) + Dot(u.vs[k - 1], v.vs[k - 1]))
          == c * DotUpTo(u, v, k - 1) + c * Dot(u.vs[k - 1], v.vs[k - 1]);
    }
  }

  lemma {:induction false} DotCommutes(u: Val, v: Val)
    ensures Dot(u, v) == Dot(v, u)
    decreases u
  {
    if u.Tup? && v.Tup? && |u.vs| == |v.vs| { DotCommutesUpTo(u, v, |u.vs|); }
  }

  lemma {:induction false} DotCommutesUpTo(u: Val, v: Val, k: nat)
    requires u.Tup? && v.Tup? && k <= |u.vs| && k <= |v.vs|
    ensures DotUpTo(u, v, k) == DotUpTo(v, u, k)
    decreases u, 0, k
  {
    if k > 0 {
      DotCommutesUpTo(u, v, k - 1);
      DotCommutes(u.vs[k - 1], v.vs[k - 1]);
    }
  }

  /** A tuple that is zero except at i only sees component i. */
  lemma DotUnit(ty: Type, i: nat, s: Val, v: Val)
    requires ty.Sigma? && i < |ty.ops| && Shaped(v, ty) && Shaped(s, ty.ops[i])
    ensures Dot(Put(Zero(ty), i, s), v) == Dot(s, v.vs[i])
  {
    DotUnitUpTo(ty, i, s, v, |ty.ops|);
  }

  lemma {:induction false} DotUnitUpTo(ty: Type, i: nat, s: Val, v: Val, k: nat)
    requires ty.Sigma? && i < |ty.ops| && Shaped(v, ty) && k <= |ty.ops|
    ensures DotUpTo(Put(Zero(ty), i, s), v, k) == if i < k then Dot(s, v.vs[i]) else 0
    decreases k
  {
    if k > 0 {
      DotUnitUpTo(ty, i, s, v, k - 1);
      if k - 1 != i { DotZero(ty.ops[k - 1], v.vs[k - 1]); }
    }
  }

  ghost predicate SameDot(u: Val, w: Val, v: Val) {
    Dot(u, v) == Dot(w, v)
  }

  /** Vectors with the same products are the same. */
  lemma {:induction false} DotDetermines(u: Val, w: Val, ty: Type)
    requires Shaped(u, ty) && Shaped(w, ty)
    requires forall v {:trigger SameDot(u, w, v)} | Shaped(v, ty) :: SameDot(u, w, v)
    ensures u == w
    decreases ty
  {
    if ty.Sigma? {
      forall i | 0 <= i < |ty.ops|
        ensures u.vs[i] == w.vs[i]
      {
        forall v {:trigger SameDot(u.vs[i], w.vs[i], v)} | Shaped(v, ty.ops[i])
          ensures SameDot(u.vs[i], w.vs[i], v)
        {
          DotAlong(u, ty, i, v);
          DotAlong(w, ty, i, v);
          assert SameDot(u, w, Put(Zero(ty), i, v));
        }
        DotDetermines(u.vs[i], w.vs[i], ty.ops[i]);
      }
    } else {
      assert SameDot(u, w, Scalar(1));
    }
  }

  lemma DotAlong(u: Val, ty: Type, i: nat, v: Val)
    requires ty.Sigma? && i < |ty.ops| && Shaped(u, ty) && Shaped(v, ty.ops[i])
    ensures Shaped(Put(Zero(ty), i, v), ty) && Dot(u, Put(Zero(ty), i, v)) == Dot(u.vs[i], v)
  {
    ZeroShaped(ty);
    PutShaped(Zero(ty), ty, i, v);
    DotUnit(ty, i, v, u);
    DotCommutes(u, Put(Zero(ty), i, v));
    DotCommutes(u.vs[i], v);
  }
}
