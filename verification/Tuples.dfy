/** Tuples: how the world builds them, takes them apart and updates them, and what that means. */
module Tuples {
  /** Arrays of literal arity are tuples whose operands have the same type. */
  datatype Type = Num | Idx(size: nat) | Sigma(ops: seq<Type>)

  datatype Val = Scalar(n: int) | Tup(vs: seq<Val>)

  datatype PrimOp = Add | Mul | Sle | Ul | Eq

  datatype Expr =
    | Lit(ty: Type, value: nat)
    | Var(id: nat, ty: Type)
    | Tuple(ops: seq<Expr>)
    | Pack(arity: nat, body: Expr)
    | Extract(tuple: Expr, index: Expr)
    | Insert(tuple: Expr, index: Expr, value_: Expr)
    | Prim(op: PrimOp, arg: Expr)

  /** There are no 1-tuples. */
  ghost predicate OkType(ty: Type) {
    ty.Sigma? ==> |ty.ops| != 1 && forall o | o in ty.ops :: OkType(o)
  }

  function Arity(ty: Type): nat {
    if ty.Sigma? then |ty.ops| else 1
  }

  /** Size 0 stands for 2^64. */
  function Size(size: nat): nat {
    if size == 0 then 0x1_0000_0000_0000_0000 else size
  }

  ghost predicate HasType(v: Val, ty: Type) {
    match ty
    case Num => v.Scalar?
    case Idx(size) => v.Scalar? && 0 <= v.n < Size(size)
    case Sigma(ops) => v.Tup? && |v.vs| == |ops| && forall i | 0 <= i < |ops| :: HasType(v.vs[i], ops[i])
  }

  predicate Homogeneous(ty: Type) {
    ty.Sigma? && forall o | o in ty.ops :: o == ty.ops[0]
  }

  /** The literal that selects operand i of a value of type ty. */
  function IndexLit(ty: Type, i: nat): Expr {
    Lit(Idx(Arity(ty)), i)
  }

  /** The type of the operand at an index. */
  function ElemType(ty: Type, index: Expr): Type {
    if !ty.Sigma? then ty
    else if index.Lit? && index.value < |ty.ops| then ty.ops[index.value]
    else if ty.ops != [] then ty.ops[0]
    else ty
  }

  function TypeOf(e: Expr): Type {
    match e
    case Lit(ty, _) => ty
    case Var(_, ty) => ty
    case Tuple(ops) => Sigma(TypesOf(ops))
    case Pack(n, body) => Sigma(seq(n, _ => TypeOf(body)))
    case Extract(t, i) => ElemType(TypeOf(t), i)
    case Insert(t, _, _) => TypeOf(t)
    case Prim(op, _) => if op.Add? || op.Mul? then Num else Idx(2)
  }

  function TypesOf(es: seq<Expr>): (r: seq<Type>)
    ensures |r| == |es|
    ensures forall i | 0 <= i < |es| :: r[i] == TypeOf(es[i])
  {
    if es == [] then [] else TypesOf(es[..|es| - 1]) + [TypeOf(es[|es| - 1])]
  }

  /** The index suits a tuple type; only arrays can be indexed by something unknown. */
  ghost predicate IndexOk(ty: Type, index: Expr) {
    && OkType(ty) && TypeOf(index) == Idx(Arity(ty)) && Arity(ty) > 0
    && (index.Lit? || Homogeneous(ty) || Arity(ty) == 1)
  }

  ghost predicate Typed(e: Expr) {
    && OkType(TypeOf(e))
    && match e
       case Lit(ty, value) => !ty.Sigma? && (ty.Idx? ==> value < Size(ty.size))
       case Var(_, ty) => true
       case Tuple(ops) => |ops| != 1 && forall o | o in ops :: Typed(o)
       case Pack(n, body) => n >= 2 && Typed(body)
       case Extract(t, i) => Typed(t) && Typed(i) && TypeOf(t).Sigma? && IndexOk(TypeOf(t), i)
       case Insert(t, i, v) =>
         Typed(t) && Typed(i) && Typed(v) && TypeOf(t).Sigma? && IndexOk(TypeOf(t), i)
             && TypeOf(v) == ElemType(TypeOf(t), i)
       case Prim(_, arg) => Typed(arg) && TypeOf(arg) == Sigma([Num, Num])
  }

  function Int(v: Val): int {
    if v.Scalar? then v.n else 0
  }

  function Proj(v: Val, i: int): Val {
    if v.Tup? && 0 <= i < |v.vs| then v.vs[i] else Scalar(0)
  }

  function Put(v: Val, i: int, w: Val): Val {
    if v.Tup? && 0 <= i < |v.vs| then Tup(v.vs[i := w]) else v
  }

  function Apply(op: PrimOp, a: int, b: int): int {
    match op
    case Add => a + b
    case Mul => a * b
    case Sle => if a <= b then 1 else 0
    case Ul => if a < b then 1 else 0
    case Eq => if a == b then 1 else 0
  }

  /** The value of e when the variables have the given values. */
  function Eval(e: Expr, env: seq<Val>): Val {
    match e
    case Lit(_, value) => Scalar(value)
    case Var(id, _) => if id < |env| then env[id] else Scalar(0)
    case Tuple(ops) => Tup(Evals(ops, env))
    case Pack(n, body) => Tup(seq(n, _ => Eval(body, env)))
    case Extract(t, i) => Proj(Eval(t, env), Int(Eval(i, env)))
    case Insert(t, i, v) => Put(Eval(t, env), Int(Eval(i, env)), Eval(v, env))
    case Prim(op, arg) => var a := Eval(arg, env); Scalar(Apply(op, Int(Proj(a, 0)), Int(Proj(a, 1))))
  }

  function Evals(es: seq<Expr>, env: seq<Val>): (r: seq<Val>)
    ensures |r| == |es|
    ensures forall i | 0 <= i < |es| :: r[i] == Eval(es[i], env)
  {
    if es == [] then [] else Evals(es[..|es| - 1], env) + [Eval(es[|es| - 1], env)]
  }

  /** The variables of e have values of their types. */
  ghost predicate EnvOk(e: Expr, env: seq<Val>) {
    match e
    case Lit(_, _) => true
    case Var(id, ty) => id < |env| && HasType(env[id], ty)
    case Tuple(ops) => forall o | o in ops :: EnvOk(o, env)
    case Pack(_, body) => EnvOk(body, env)
    case Extract(t, i) => EnvOk(t, env) && EnvOk(i, env)
    case Insert(t, i, v) => EnvOk(t, env) && EnvOk(i, env) && EnvOk(v, env)
    case Prim(_, arg) => EnvOk(arg, env)
  }

  lemma ElemHasType(ty: Type, index: Expr, i: int, v: Val, w: Val)
    requires ty.Sigma? && IndexOk(ty, index) && HasType(v, ty) && HasType(Scalar(i), Idx(Arity(ty)))
    requires index.Lit? ==> i == index.value
    ensures 0 <= i < |ty.ops| && HasType(Proj(v, i), ElemType(ty, index))
    ensures HasType(w, ElemType(ty, index)) ==> HasType(Put(v, i, w), ty)
  {
    assert ty.ops[i] in ty.ops;
    assert ElemType(ty, index) == ty.ops[i];
  }

  lemma {:induction false} EvalTyped(e: Expr, env: seq<Val>)
    requires Typed(e) && EnvOk(e, env)
    ensures HasType(Eval(e, env), TypeOf(e))
  {
    match e
    case Lit(_, _) =>
    case Var(_, _) =>
    case Tuple(ops) =>
      forall i | 0 <= i < |ops|
        ensures HasType(Eval(ops[i], env), TypeOf(ops[i]))
      {
        EvalTyped(ops[i], env);
      }
    case Pack(_, body) => EvalTyped(body, env);
    case Extract(t, i) =>
      EvalTyped(t, env);
      EvalTyped(i, env);
      ElemHasType(TypeOf(t), i, Int(Eval(i, env)), Eval(t, env), Scalar(0));
    case Insert(t, i, v) =>
      EvalTyped(t, env);
      EvalTyped(i, env);
      EvalTyped(v, env);
      ElemHasType(TypeOf(t), i, Int(Eval(i, env)), Eval(t, env), Eval(v, env));
    case Prim(_, _) =>
  }

  /** tuple((x#0, ..., x#n-1)) is x. */
  predicate IsEta(ops: seq<Expr>) {
    && ops != [] && ops[0].Extract?
    && TypeOf(ops[0].tuple) == Sigma(TypesOf(ops))
    && forall i | 0 <= i < |ops| :: ops[i].Extract? && ops[i].index.Lit? && ops[i].index.value == i
        && ops[i].tuple == ops[0].tuple
  }

  predicate AllSame(ops: seq<Expr>)
    requires ops != []
  {
    forall o | o in ops[1..] :: o == ops[0]
  }

  function MkTuple(ops: seq<Expr>): Expr {
    if |ops| == 1 then ops[0]
    else if ops == [] then Tuple([])
    else if AllSame(ops) then MkPack(|ops|, ops[0])
    else if IsEta(ops) then ops[0].tuple
    else Tuple(ops)
  }

  function MkPack(n: nat, body: Expr): Expr {
    if n == 0 then Tuple([]) else if n == 1 then body else Pack(n, body)
  }

  function MkExtract(d: Expr, index: Expr): Expr
    requires Typed(d) && Typed(index) && IndexOk(TypeOf(d), index)
  {
    if Arity(TypeOf(d)) == 1 then d
    else if d.Pack? then d.body
    else if d.Insert? && d.index == index then d.value_
    else if index.Lit? && d.Tuple? then d.ops[index.value]
    else if index.Lit? && d.Insert? && d.index.Lit? then MkExtract(d.tuple, index)
    else Extract(d, index)
  }

  /** A tuple or pack can only be updated at a literal index. */
  function MkInsert(d: Expr, index: Expr, v: Expr): Expr
    requires Typed(d) && Typed(index) && IndexOk(TypeOf(d), index)
    requires d.Tuple? || d.Pack? ==> index.Lit?
  {
    if Arity(TypeOf(d)) == 1 then v
    else if d.Tuple? then MkTuple(d.ops[index.value := v])
    else if d.Pack? then MkTuple(seq(d.arity, i => if i == index.value then v else d.body))
    else if d.Insert? && d.index == index then Insert(d.tuple, index, v)
    else Insert(d, index, v)
  }

  /** Taking the operand at i out of a value of the given type; what is no tuple is its own operand. */
  function Select(ty: Type, v: Val, i: int): Val {
    if Arity(ty) == 1 then v else Proj(v, i)
  }

  function Update(ty: Type, v: Val, i: int, w: Val): Val {
    if Arity(ty) == 1 then w else Put(v, i, w)
  }

  lemma AllSameMeans(ops: seq<Expr>, env: seq<Val>)
    requires |ops| > 1 && AllSame(ops)
    ensures TypeOf(Pack(|ops|, ops[0])) == Sigma(TypesOf(ops)) && Eval(Pack(|ops|, ops[0]), env) == Tup(Evals(ops, env))
  {
    forall i | 0 <= i < |ops|
      ensures ops[i] == ops[0]
    {
      if i > 0 { assert ops[1..][i - 1] in ops[1..]; }
    }
    assert TypeOf(Pack(|ops|, ops[0])).ops == TypesOf(ops);
    assert Eval(Pack(|ops|, ops[0]), env).vs == Evals(ops, env);
  }

  lemma EtaMeans(ops: seq<Expr>, env: seq<Val>)
    requires IsEta(ops) && Typed(ops[0]) && EnvOk(ops[0], env)
    ensures Eval(ops[0].tuple, env) == Tup(Evals(ops, env))
  {
    var t := ops[0].tuple;
    EvalTyped(t, env);
    forall i | 0 <= i < |ops|
      ensures Eval(ops[i], env) == Eval(t, env).vs[i]
    {
      assert ops[i].tuple == t && Eval(ops[i].index, env) == Scalar(i);
    }
    assert Eval(t, env).vs == Evals(ops, env);
  }

  lemma TupleTyped(ops: seq<Expr>)
    requires |ops| != 1 && forall o | o in ops :: Typed(o)
    ensures Typed(Tuple(ops))
  {
    forall t | t in TypesOf(ops)
      ensures OkType(t)
    {
      var i :| 0 <= i < |ops| && TypesOf(ops)[i] == t;
      assert ops[i] in ops;
    }
  }

  /** Building a tuple never changes the tuple meant, eta included. */
  lemma MkTupleMeans(ops: seq<Expr>, env: seq<Val>)
    requires forall o | o in ops :: Typed(o) && EnvOk(o, env)
    ensures Typed(MkTuple(ops)) && EnvOk(MkTuple(ops), env)
    ensures TypeOf(MkTuple(ops)) == if |ops| == 1 then TypeOf(ops[0]) else Sigma(TypesOf(ops))
    ensures Eval(MkTuple(ops), env) == if |ops| == 1 then Eval(ops[0], env) else Tup(Evals(ops, env))
  {
    if |ops| > 0 {
      assert ops[0] in ops;
      if |ops| > 1 {
        TupleTyped(ops);
        if AllSame(ops) {
          AllSameMeans(ops, env);
        } else if IsEta(ops) {
          EtaMeans(ops, env);
        }
      }
    }
  }

  /** Taking an operand out never changes which one is meant. Looking past an update at another literal index
      is right because different literals are different values. */
  lemma {:induction false} MkExtractMeans(d: Expr, index: Expr, env: seq<Val>)
    requires Typed(d) && Typed(index) && IndexOk(TypeOf(d), index) && EnvOk(d, env) && EnvOk(index, env)
    ensures var r := MkExtract(d, index);
            && Typed(r) && EnvOk(r, env) && TypeOf(r) == ElemType(TypeOf(d), index)
            && Eval(r, env) == Select(TypeOf(d), Eval(d, env), Int(Eval(index, env)))
  {
    EvalTyped(d, env);
    EvalTyped(index, env);
    if Arity(TypeOf(d)) > 1 {
      if d.Insert? {
        EvalTyped(d.tuple, env);
        EvalTyped(d.index, env);
        if d.index != index && index.Lit? && d.index.Lit? {
          MkExtractMeans(d.tuple, index, env);
        }
      }
    }
  }

  lemma RefineMeans(ty: Type, ops: seq<Expr>, index: nat, v: Expr, env: seq<Val>)
    requires ty == Sigma(TypesOf(ops)) && |ops| != 1 && index < |ops|
             && forall o | o in ops :: Typed(o) && EnvOk(o, env)
    requires Typed(v) && EnvOk(v, env) && TypeOf(v) == ty.ops[index]
    ensures var r := MkTuple(ops[index := v]);
            && Typed(r) && EnvOk(r, env) && TypeOf(r) == ty
            && Eval(r, env) == Put(Tup(Evals(ops, env)), index, Eval(v, env))
  {
    var ops' := ops[index := v];
    forall o | o in ops'
      ensures Typed(o) && EnvOk(o, env)
    {
      if o != v { assert o in ops; }
    }
    MkTupleMeans(ops', env);
    assert TypesOf(ops') == TypesOf(ops);
    assert Evals(ops', env) == Evals(ops, env)[index := Eval(v, env)];
  }

  lemma PackRefineMeans(d: Expr, index: nat, v: Expr, env: seq<Val>)
    requires d.Pack? && Typed(d) && EnvOk(d, env) && index < d.arity
    requires Typed(v) && EnvOk(v, env) && TypeOf(v) == TypeOf(d).ops[index]
    ensures var r := MkTuple(seq(d.arity, i => if i == index then v else d.body));
            && Typed(r) && EnvOk(r, env) && TypeOf(r) == TypeOf(d)
            && Eval(r, env) == Put(Eval(d, env), index, Eval(v, env))
  {
    var ops := seq(d.arity, _ => d.body);
    assert seq(d.arity, i => if i == index then v else d.body) == ops[index := v];
    assert TypesOf(ops) == TypeOf(d).ops && Evals(ops, env) == Eval(d, env).vs;
    RefineMeans(TypeOf(d), ops, index, v, env);
  }

  /** Updating never changes the tuple meant. */
  lemma MkInsertMeans(d: Expr, index: Expr, v: Expr, env: seq<Val>)
    requires Typed(d) && Typed(index) && IndexOk(TypeOf(d), index) && EnvOk(d, env) && EnvOk(index, env)
    requires Typed(v) && EnvOk(v, env) && TypeOf(v) == ElemType(TypeOf(d), index)
    requires d.Tuple? || d.Pack? ==> index.Lit?
    ensures var r := MkInsert(d, index, v);
            && Typed(r) && EnvOk(r, env) && TypeOf(r) == TypeOf(d)
            && Eval(r, env) == Update(TypeOf(d), Eval(d, env), Int(Eval(index, env)), Eval(v, env))
  {
    if Arity(TypeOf(d)) > 1 {
      if d.Tuple? {
        RefineMeans(TypeOf(d), d.ops, index.value, v, env);
      } else if d.Pack? {
        PackRefineMeans(d, index.value, v, env);
      } else if d.Insert? && d.index == index {
        OverwriteMeans(d, v, env);
      }
    }
  }

  lemma OverwriteMeans(d: Expr, v: Expr, env: seq<Val>)
    requires d.Insert? && Typed(d) && EnvOk(d, env)
    requires Typed(v) && EnvOk(v, env) && TypeOf(v) == ElemType(TypeOf(d), d.index)
    ensures var r := Insert(d.tuple, d.index, v);
            && Typed(r) && EnvOk(r, env) && TypeOf(r) == TypeOf(d)
            && Eval(r, env) == Put(Eval(d, env), Int(Eval(d.index, env)), Eval(v, env))
  {
    EvalTyped(d.tuple, env);
  }
}
