/** Map-reduce over matrices as a nest of counting loops. */
module MapReduce {
  type Index = seq<nat>

  /** What loops carry along: the output matrix, or one element of it. */
  datatype Carry<V> = Mat(m: map<Index, V>) | Elem(v: V)

  /** Where loops get their first carry from. */
  datatype Source = InitMatrix | ZeroElem | CarryOf(lam: nat)

  datatype Cont = YieldOf(lam: nat) | WriteBack

  /** The body of a function: nothing yet, a counting loop with the function for its body, or a call of the
      combining function with the elements read at the iterators of some functions. */
  datatype Body =
    | Unset
    | CountingFor(dim: nat, init: Source, body: nat, exit: Cont)
    | Combine(acc: Source, inputs: seq<seq<nat>>, exit: Cont)

  /** Writes the element to the matrix at the iterators of some functions, and goes on. */
  datatype Write = Write(matrix: Source, at: seq<nat>, exit: nat)

  datatype Program = Program(bodies: seq<Body>, write: Write)

  /** The parameters of a function that is running. */
  datatype Frame<!V> = Frame(iter: nat, carry: Carry<V>, yield_: Carry<V> -> Carry<V>)

  /** What the nest is about: how matrices are read, how elements are combined, where that starts. */
  datatype Task<!V> = Task(read: (nat, Index) -> V, combine: (V, seq<V>) -> V, zero: V, init: map<Index, V>)

  function CarryAt<V>(s: Source, task: Task<V>, env: seq<Frame<V>>): Carry<V> {
    match s
    case InitMatrix => Mat(task.init)
    case ZeroElem => Elem(task.zero)
    case CarryOf(lam) => if lam < |env| then env[lam].carry else Elem(task.zero)
  }

  function IterAt<V>(lam: nat, env: seq<Frame<V>>): nat {
    if lam < |env| then env[lam].iter else 0
  }

  function ItersAt<V>(lams: seq<nat>, env: seq<Frame<V>>): Index {
    seq(|lams|, j requires 0 <= j < |lams| => IterAt(lams[j], env))
  }

  /** The elements read from all inputs. */
  function Reads<V>(inputs: seq<seq<nat>>, task: Task<V>, env: seq<Frame<V>>): seq<V> {
    seq(|inputs|, i requires 0 <= i < |inputs| => task.read(i, ItersAt(inputs[i], env)))
  }

  function Yield<V>(lam: nat, env: seq<Frame<V>>, c: Carry<V>): Carry<V> {
    if lam < |env| then env[lam].yield_(c) else c
  }

  function Continue<V>(p: Program, task: Task<V>, exit: Cont, env: seq<Frame<V>>, c: Carry<V>): Carry<V> {
    match exit
    case YieldOf(lam) => Yield(lam, env, c)
    case WriteBack =>
      var m := CarryAt(p.write.matrix, task, env);
      if m.Mat? && c.Elem? then Yield(p.write.exit, env, Mat(m.m[ItersAt(p.write.at, env) := c.v])) else c
  }

  /** Runs the last function of env. */
  function Run<V>(p: Program, task: Task<V>, env: seq<Frame<V>>): Carry<V>
    requires env != []
    decreases |p.bodies| - |env|, 1, 0
  {
    var lam := |env| - 1;
    if lam >= |p.bodies| then Elem(task.zero)
    else match p.bodies[lam]
      case Unset => Elem(task.zero)
      case CountingFor(dim, init, body, exit) =>
        if body == |env| && body < |p.bodies| then Loop(p, task, env, 0, dim, exit, CarryAt(init, task, env))
        else Elem(task.zero)
      case Combine(acc, inputs, exit) =>
        var c := CarryAt(acc, task, env);
        Continue(p, task, exit, env, Elem(task.combine(if c.Elem? then c.v else task.zero, Reads(inputs, task, env))))
  }

  /** The counting loop whose body is the next function. */
  function Loop<V>(p: Program, task: Task<V>, env: seq<Frame<V>>, iter: nat, dim: nat, exit: Cont,
                   c: Carry<V>): Carry<V>
    requires |env| < |p.bodies|
    decreases |p.bodies| - |env|, 0, if iter < dim then dim - iter else 0
  {
    if iter < dim then Run(p, task, env + [Frame(iter, c, c' => Loop(p, task, env, iter + 1, dim, exit, c'))])
    else Continue(p, task, exit, env, c)
  }

  /** The nest for n output dimensions followed by further dimensions: function 0 is entered from outside,
      function k + 1 is the body of the loop over dimension k. */
  ghost predicate IsNest(p: Program, dims: seq<nat>, n: nat, inputs: seq<seq<nat>>) {
    && n <= |dims| && |p.bodies| == |dims| + 1
    && p.write == Write(if n == 0 then InitMatrix else CarryOf(n), seq(n, j => j + 1), n)
    && (forall k {:trigger p.bodies[k]} | 0 <= k < |dims| ::
          p.bodies[k] == CountingFor(dims[k], First(k, n), k + 1, Exit(k, n)))
    && p.bodies[|dims|] == Combine(First(|dims|, n), inputs, Exit(|dims|, n))
  }

  /** Outer loops carry the matrix, inner loops an element; the first of each starts anew. */
  function First(k: nat, n: nat): Source {
    if k == 0 && n > 0 then InitMatrix else if k == n then ZeroElem else CarryOf(k)
  }

  function Exit(k: nat, n: nat): Cont {
    if k == n then WriteBack else YieldOf(k)
  }

  /** The iterators of all running functions but function 0. */
  function Iters<V>(env: seq<Frame<V>>): Index {
    seq(if |env| == 0 then 0 else |env| - 1, j requires 0 <= j < |env| - 1 => env[j + 1].iter)
  }

  /** The elements to be combined when the iterators are its. */
  function Elements<V>(task: Task<V>, inputs: seq<seq<nat>>, its: Index): seq<V> {
    seq(|inputs|, i requires 0 <= i < |inputs| =>
      task.read(i, IndexOf(inputs[i], its)))
  }

  /** The iterators of some functions; function k + 1 has iterator k. */
  function IndexOf(lams: seq<nat>, its: Index): Index {
    seq(|lams|, j requires 0 <= j < |lams| => if 0 < lams[j] <= |its| then its[lams[j] - 1] else 0)
  }

  /** What the inner loops make of v, given the iterators so far. */
  function Inner<V>(task: Task<V>, inputs: seq<seq<nat>>, dims: seq<nat>, its: Index, v: V): V
    decreases |dims| - |its|, 1, 0
  {
    if |its| >= |dims| then task.combine(v, Elements(task, inputs, its)) else InnerLoop(task, inputs, dims, its, 0, v)
  }

  function InnerLoop<V>(task: Task<V>, inputs: seq<seq<nat>>, dims: seq<nat>, its: Index, iter: nat, v: V): V
    requires |its| < |dims|
    decreases |dims| - |its|, 0, if iter < dims[|its|] then dims[|its|] - iter else 0
  {
    if iter < dims[|its|] then
      InnerLoop(task, inputs, dims, its, iter + 1, Inner(task, inputs, dims, its + [iter], v))
    else v
  }

  /** What the outer loops make of the matrix m. */
  function Outer<V>(task: Task<V>, inputs: seq<seq<nat>>, dims: seq<nat>, n: nat, its: Index,
                    m: map<Index, V>): map<Index, V>
    requires |its| <= n <= |dims|
    decreases n - |its|, 1, 0
  {
    if |its| == n then m[its := Inner(task, inputs, dims, its, task.zero)]
    else OuterLoop(task, inputs, dims, n, its, 0, m)
  }

  function OuterLoop<V>(task: Task<V>, inputs: seq<seq<nat>>, dims: seq<nat>, n: nat, its: Index, iter: nat,
                        m: map<Index, V>): map<Index, V>
    requires |its| < n <= |dims|
    decreases n - |its|, 0, if iter < dims[|its|] then dims[|its|] - iter else 0
  {
    if iter < dims[|its|] then
      OuterLoop(task, inputs, dims, n, its, iter + 1, Outer(task, inputs, dims, n, its + [iter], m))
    else m
  }

  /** Reads refer to running functions. */
  ghost predicate ReadsOk(inputs: seq<seq<nat>>, k: nat) {
    forall i, j | 0 <= i < |inputs| && 0 <= j < |inputs[i]| :: 0 < inputs[i][j] <= k
  }

  lemma ReadsAre<V>(task: Task<V>, inputs: seq<seq<nat>>, env: seq<Frame<V>>)
    requires env != [] && ReadsOk(inputs, |env| - 1)
    ensures Reads(inputs, task, env) == Elements(task, inputs, Iters(env))
  {
    forall i | 0 <= i < |inputs|
      ensures Reads(inputs, task, env)[i] == Elements(task, inputs, Iters(env))[i]
    {
      IndexIs(inputs[i], env);
    }
  }

  lemma IndexIs<V>(lams: seq<nat>, env: seq<Frame<V>>)
    requires env != [] && forall j | 0 <= j < |lams| :: 0 < lams[j] < |env|
    ensures ItersAt(lams, env) == IndexOf(lams, Iters(env))
  {
  }

  lemma ItersMore<V>(env: seq<Frame<V>>, f: Frame<V>)
    requires env != []
    ensures Iters(env + [f]) == Iters(env) + [f.iter]
  {
  }

  /** The inner loops pass what Inner says to their exit. */
  lemma {:induction false} RunInner<V>(p: Program, task: Task<V>, dims: seq<nat>, n: nat, inputs: seq<seq<nat>>,
                                       env: seq<Frame<V>>, v: V)
    requires IsNest(p, dims, n, inputs) && ReadsOk(inputs, |dims|) && n < |env| <= |dims| + 1
    requires CarryAt(First(|env| - 1, n), task, env) == Elem(v)
    ensures Run(p, task, env)
            == Continue(p, task, Exit(|env| - 1, n), env, Elem(Inner(task, inputs, dims, Iters(env), v)))
    decreases |p.bodies| - |env|, 1, 0
  {
    var k := |env| - 1;
    if k < |dims| {
      RunInnerLoop(p, task, dims, n, inputs, env, 0, v);
    } else {
      ReadsAre(task, inputs, env);
    }
  }

  lemma {:induction false} RunInnerLoop<V>(p: Program, task: Task<V>, dims: seq<nat>, n: nat, inputs: seq<seq<nat>>,
                                           env: seq<Frame<V>>, iter: nat, v: V)
    requires IsNest(p, dims, n, inputs) && ReadsOk(inputs, |dims|) && n < |env| <= |dims|
    ensures Loop(p, task, env, iter, dims[|env| - 1], Exit(|env| - 1, n), Elem(v))
         == Continue(p, task, Exit(|env| - 1, n), env, Elem(InnerLoop(task, inputs, dims, Iters(env), iter, v)))
    decreases |p.bodies| - |env|, 0, if iter < dims[|env| - 1] then dims[|env| - 1] - iter else 0
  {
    var k := |env| - 1;
    if iter < dims[k] {
      var f := Frame(iter, Elem(v), c' => Loop(p, task, env, iter + 1, dims[k], Exit(k, n), c'));
      var env' := env + [f];
      ItersMore(env, f);
      RunInner(p, task, dims, n, inputs, env', v);
      var w := Inner(task, inputs, dims, Iters(env) + [iter], v);
      assert Continue(p, task, YieldOf(k + 1), env', Elem(w)) == f.yield_(Elem(w));
      RunInnerLoop(p, task, dims, n, inputs, env, iter + 1, w);
    }
  }

  /** The outer loops pass what Outer says to the function they return to. */
  lemma {:induction false} RunOuter<V>(p: Program, task: Task<V>, dims: seq<nat>, n: nat, inputs: seq<seq<nat>>,
                                       env: seq<Frame<V>>, m: map<Index, V>)
    requires IsNest(p, dims, n, inputs) && ReadsOk(inputs, |dims|) && 0 < |env| <= n + 1
    requires CarryAt(if |env| == 1 then InitMatrix else CarryOf(|env| - 1), task, env) == Mat(m)
    ensures Run(p, task, env) == Yield(|env| - 1, env, Mat(Outer(task, inputs, dims, n, Iters(env), m)))
    decreases |p.bodies| - |env|, 1, 0
  {
    if |env| - 1 < n {
      RunOuterLoop(p, task, dims, n, inputs, env, 0, m);
    } else {
      RunInner(p, task, dims, n, inputs, env, task.zero);
      assert ItersAt(p.write.at, env) == Iters(env);
    }
  }

  lemma {:induction false} RunOuterLoop<V>(p: Program, task: Task<V>, dims: seq<nat>, n: nat, inputs: seq<seq<nat>>,
                                           env: seq<Frame<V>>, iter: nat, m: map<Index, V>)
    requires IsNest(p, dims, n, inputs) && ReadsOk(inputs, |dims|) && 0 < |env| <= n
    ensures Loop(p, task, env, iter, dims[|env| - 1], YieldOf(|env| - 1), Mat(m))
         == Yield(|env| - 1, env, Mat(OuterLoop(task, inputs, dims, n, Iters(env), iter, m)))
    decreases |p.bodies| - |env|, 0, if iter < dims[|env| - 1] then dims[|env| - 1] - iter else 0
  {
    var k := |env| - 1;
    if iter < dims[k] {
      var f := Frame(iter, Mat(m), c' => Loop(p, task, env, iter + 1, dims[k], YieldOf(k), c'));
      var env' := env + [f];
      ItersMore(env, f);
      RunOuter(p, task, dims, n, inputs, env', m);
      var m' := Outer(task, inputs, dims, n, Iters(env) + [iter], m);
      assert Yield(k + 1, env', Mat(m')) == f.yield_(Mat(m'));
      RunOuterLoop(p, task, dims, n, inputs, env, iter + 1, m');
    }
  }

  predicate InBounds(t: Index, dims: seq<nat>) {
    |t| == |dims| && forall k | 0 <= k < |t| :: t[k] < dims[k]
  }

  /** All index tuples, in lexicographic order. */
  function AllTuples(dims: seq<nat>): seq<Index>
    decreases |dims|, 1, 0
  {
    if dims == [] then [[]] else TuplesFrom(dims, 0)
  }

  function TuplesFrom(dims: seq<nat>, first: nat): seq<Index>
    requires dims != []
    decreases |dims|, 0, if first < dims[0] then dims[0] - first else 0
  {
    if first < dims[0] then Prefixed(first, AllTuples(dims[1..])) + TuplesFrom(dims, first + 1) else []
  }

  function Prefixed(first: nat, ts: seq<Index>): seq<Index> {
    seq(|ts|, k requires 0 <= k < |ts| => [first] + ts[k])
  }

  ghost predicate LexLess(s: Index, t: Index) {
    exists k :: 0 <= k < |s| && k < |t| && s[..k] == t[..k] && s[k] < t[k]
  }

  ghost predicate LexSorted(ts: seq<Index>) {
    forall i, j {:trigger LexLess(ts[i], ts[j])} | 0 <= i < j < |ts| :: LexLess(ts[i], ts[j])
  }

  /** Exactly the tuples within the bounds, in strictly increasing order. */
  lemma {:induction false} AllTuplesAre(dims: seq<nat>)
    ensures LexSorted(AllTuples(dims)) && forall t :: t in AllTuples(dims) <==> InBounds(t, dims)
    decreases |dims|, 1, 0
  {
    if dims != [] {
      TuplesFromAre(dims, 0);
    }
  }

  lemma {:induction false} TuplesFromAre(dims: seq<nat>, first: nat)
    requires dims != []
    ensures LexSorted(TuplesFrom(dims, first))
    ensures forall t :: t in TuplesFrom(dims, first) <==> InBounds(t, dims) && first <= t[0]
    decreases |dims|, 0, if first < dims[0] then dims[0] - first else 0
  {
    if first < dims[0] {
      var low, high := Prefixed(first, AllTuples(dims[1..])), TuplesFrom(dims, first + 1);
      AllTuplesAre(dims[1..]);
      PrefixedAre(dims, first);
      TuplesFromAre(dims, first + 1);
      forall i, j {:trigger LexLess((low + high)[i], (low + high)[j])} | 0 <= i < j < |low + high|
        ensures LexLess((low + high)[i], (low + high)[j])
      {
        if j < |low| {
          assert LexLess(low[i], low[j]);
        } else if i >= |low| {
          assert LexLess(high[i - |low|], high[j - |low|]);
        } else {
          assert low[i] in low && high[j - |low|] in high;
          assert low[i][..0] == high[j - |low|][..0] && low[i][0] < high[j - |low|][0];
        }
      }
    }
  }

  lemma PrefixedAre(dims: seq<nat>, first: nat)
    requires dims != [] && first < dims[0]
    requires LexSorted(AllTuples(dims[1..])) && forall t :: t in AllTuples(dims[1..]) <==> InBounds(t, dims[1..])
    ensures LexSorted(Prefixed(first, AllTuples(dims[1..])))
    ensures forall t :: t in Prefixed(first, AllTuples(dims[1..])) <==> InBounds(t, dims) && t[0] == first
  {
    var ts := AllTuples(dims[1..]);
    var ps := Prefixed(first, ts);
    forall i, j {:trigger LexLess(ps[i], ps[j])} | 0 <= i < j < |ps|
      ensures LexLess(ps[i], ps[j])
    {
      assert LexLess(ts[i], ts[j]);
      var k :| 0 <= k < |ts[i]| && k < |ts[j]| && ts[i][..k] == ts[j][..k] && ts[i][k] < ts[j][k];
      assert ps[i][..k + 1] == [first] + ts[i][..k] && ps[j][..k + 1] == [first] + ts[j][..k];
      assert ps[i][k + 1] == ts[i][k] && ps[j][k + 1] == ts[j][k];
    }
    forall t
      ensures t in ps <==> InBounds(t, dims) && t[0] == first
    {
      if t in ps {
        var k :| 0 <= k < |ps| && ps[k] == t;
        assert ts[k] in ts && InBounds(ts[k], dims[1..]);
      }
      if InBounds(t, dims) && t[0] == first {
        assert InBounds(t[1..], dims[1..]);
        var k :| 0 <= k < |ts| && ts[k] == t[1..];
        assert ps[k] == t;
      }
    }
  }

  /** The left fold over index tuples that continue the iterators its. */
  function Fold<V>(task: Task<V>, inputs: seq<seq<nat>>, its: Index, ts: seq<Index>, v: V): V {
    if ts == [] then v else Fold(task, inputs, its, ts[1..], task.combine(v, Elements(task, inputs, its + ts[0])))
  }

  lemma {:induction false} FoldConcat<V>(task: Task<V>, inputs: seq<seq<nat>>, its: Index, ts: seq<Index>,
                                         us: seq<Index>, v: V)
    ensures Fold(task, inputs, its, ts + us, v) == Fold(task, inputs, its, us, Fold(task, inputs, its, ts, v))
    decreases |ts|
  {
    if ts == [] {
      assert ts + us == us;
    } else {
      assert (ts + us)[1..] == ts[1..] + us;
      FoldConcat(task, inputs, its, ts[1..], us, task.combine(v, Elements(task, inputs, its + ts[0])));
    }
  }

  lemma {:induction false} FoldPrefixed<V>(task: Task<V>, inputs: seq<seq<nat>>, its: Index, first: nat, ts: seq<Index>,
                                           v: V)
    ensures Fold(task, inputs, its, Prefixed(first, ts), v) == Fold(task, inputs, its + [first], ts, v)
    decreases |ts|
  {
    if ts != [] {
      assert its + Prefixed(first, ts)[0] == its + [first] + ts[0];
      assert Prefixed(first, ts)[1..] == Prefixed(first, ts[1..]);
      FoldPrefixed(task, inputs, its, first, ts[1..], task.combine(v, Elements(task, inputs, its + [first] + ts[0])));
    }
  }

  /** The inner loops fold over all tuples of the inner dimensions. */
  lemma {:induction false} InnerIsFold<V>(task: Task<V>, inputs: seq<seq<nat>>, dims: seq<nat>, its: Index, v: V)
    requires |its| <= |dims|
    ensures Inner(task, inputs, dims, its, v) == Fold(task, inputs, its, AllTuples(dims[|its|..]), v)
    decreases |dims| - |its|, 1, 0
  {
    if |its| < |dims| {
      InnerLoopIsFold(task, inputs, dims, its, 0, v);
    } else {
      assert AllTuples(dims[|its|..]) == [[]];
      assert its + [] == its;
      assert Fold(task, inputs, its, [[]][1..], task.combine(v, Elements(task, inputs, its + [[]][0])))
          == task.combine(v, Elements(task, inputs, its));
    }
  }

  lemma {:induction false} InnerLoopIsFold<V>(task: Task<V>, inputs: seq<seq<nat>>, dims: seq<nat>, its: Index,
                                              iter: nat, v: V)
    requires |its| < |dims|
    ensures InnerLoop(task, inputs, dims, its, iter, v) == Fold(task, inputs, its, TuplesFrom(dims[|its|..], iter), v)
    decreases |dims| - |its|, 0, if iter < dims[|its|] then dims[|its|] - iter else 0
  {
    var ds := dims[|its|..];
    if iter < dims[|its|] {
      var w := Inner(task, inputs, dims, its + [iter], v);
      InnerIsFold(task, inputs, dims, its + [iter], v);
      assert dims[|its| + 1..] == ds[1..];
      FoldPrefixed(task, inputs, its, iter, AllTuples(ds[1..]), v);
      InnerLoopIsFold(task, inputs, dims, its, iter + 1, w);
      FoldConcat(task, inputs, its, Prefixed(iter, AllTuples(ds[1..])), TuplesFrom(ds, iter + 1), v);
    }
  }

  /** The outer loops below its write this matrix: folds at the tuples that continue its within the bounds, and
      nothing elsewhere. */
  ghost predicate Written<V>(task: Task<V>, inputs: seq<seq<nat>>, dims: seq<nat>, n: nat, its: Index, first: nat,
                             m: map<Index, V>, m': map<Index, V>)
    requires |its| <= n <= |dims|
  {
    forall t {:trigger WrittenAt(task, inputs, dims, n, its, first, m, m', t)} ::
        WrittenAt(task, inputs, dims, n, its, first, m, m', t)
  }

  ghost predicate WrittenAt<V>(task: Task<V>, inputs: seq<seq<nat>>, dims: seq<nat>, n: nat, its: Index, first: nat,
                               m: map<Index, V>, m': map<Index, V>, t: Index)
    requires |its| <= n <= |dims|
  {
    if Continues(dims, n, its, first, t) then t in m' && m'[t] == Inner(task, inputs, dims, t, task.zero)
    else (t in m' <==> t in m) && (t in m ==> m'[t] == m[t])
  }

  /** t starts with its, is within the bounds from there on, and its next index is at least first. */
  predicate Continues(dims: seq<nat>, n: nat, its: Index, first: nat, t: Index)
    requires |its| <= n <= |dims|
  {
    && |t| == n && its <= t && (forall k | |its| <= k < n :: t[k] < dims[k])
    && (|its| < n ==> first <= t[|its|])
  }

  lemma {:induction false} OuterWrites<V>(task: Task<V>, inputs: seq<seq<nat>>, dims: seq<nat>, n: nat, its: Index,
                                          m: map<Index, V>)
    requires |its| <= n <= |dims|
    ensures Written(task, inputs, dims, n, its, 0, m, Outer(task, inputs, dims, n, its, m))
    decreases n - |its|, 1, 0
  {
    if |its| < n {
      OuterLoopWrites(task, inputs, dims, n, its, 0, m);
    } else {
      var r := Outer(task, inputs, dims, n, its, m);
      forall t {:trigger WrittenAt(task, inputs, dims, n, its, 0, m, r, t)}
        ensures WrittenAt(task, inputs, dims, n, its, 0, m, r, t)
      {
        assert Continues(dims, n, its, 0, t) <==> t == its;
      }
    }
  }

  lemma {:induction false} OuterLoopWrites<V>(task: Task<V>, inputs: seq<seq<nat>>, dims: seq<nat>, n: nat, its: Index,
                                              iter: nat, m: map<Index, V>)
    requires |its| < n <= |dims|
    ensures Written(task, inputs, dims, n, its, iter, m, OuterLoop(task, inputs, dims, n, its, iter, m))
    decreases n - |its|, 0, if iter < dims[|its|] then dims[|its|] - iter else 0
  {
    var r := OuterLoop(task, inputs, dims, n, its, iter, m);
    if iter < dims[|its|] {
      var m1 := Outer(task, inputs, dims, n, its + [iter], m);
      OuterWrites(task, inputs, dims, n, its + [iter], m);
      OuterLoopWrites(task, inputs, dims, n, its, iter + 1, m1);
      forall t {:trigger WrittenAt(task, inputs, dims, n, its, iter, m, r, t)}
        ensures WrittenAt(task, inputs, dims, n, its, iter, m, r, t)
      {
        assert WrittenAt(task, inputs, dims, n, its + [iter], 0, m, m1, t);
        assert WrittenAt(task, inputs, dims, n, its, iter + 1, m1, r, t);
        ContinuesSplit(dims, n, its, iter, t);
      }
    } else {
      forall t {:trigger WrittenAt(task, inputs, dims, n, its, iter, m, r, t)}
        ensures WrittenAt(task, inputs, dims, n, its, iter, m, r, t)
      {
      }
    }
  }

  lemma ContinuesSplit(dims: seq<nat>, n: nat, its: Index, iter: nat, t: Index)
    requires |its| < n <= |dims| && iter < dims[|its|]
    ensures Continues(dims, n, its, iter, t)
      <==> Continues(dims, n, its + [iter], 0, t) || Continues(dims, n, its, iter + 1, t)
    ensures !(Continues(dims, n, its + [iter], 0, t) && Continues(dims, n, its, iter + 1, t))
  {
  }

  /** The matrix holds the left fold of the combining function over all tuples of the inner indices, in lexicographic
      order, wherever the outer indices are in bounds, and what was there anywhere else. */
  ghost predicate IsMapReduce<V>(task: Task<V>, dims: seq<nat>, n: nat, inputs: seq<seq<nat>>, m: map<Index, V>)
    requires n <= |dims|
  {
    forall t :: if InBounds(t, dims[..n]) then t in m && m[t] == Fold(task, inputs, t, AllTuples(dims[n..]), task.zero)
                else (t in m <==> t in task.init) && (t in m ==> m[t] == task.init[t])
  }

  lemma OuterIsMapReduce<V>(task: Task<V>, inputs: seq<seq<nat>>, dims: seq<nat>, n: nat)
    requires n <= |dims|
    ensures IsMapReduce(task, dims, n, inputs, Outer(task, inputs, dims, n, [], task.init))
  {
    var m := Outer(task, inputs, dims, n, [], task.init);
    OuterWrites(task, inputs, dims, n, [], task.init);
    forall t
      ensures if InBounds(t, dims[..n]) then t in m && m[t] == Fold(task, inputs, t, AllTuples(dims[n..]), task.zero)
              else (t in m <==> t in task.init) && (t in m ==> m[t] == task.init[t])
    {
      assert WrittenAt(task, inputs, dims, n, [], 0, task.init, m, t);
      assert InBounds(t, dims[..n]) <==> Continues(dims, n, [], 0, t);
      if |t| == n { InnerIsFold(task, inputs, dims, t, task.zero); }
    }
  }

  /** The nest returns the map-reduced matrix. */
  lemma NestMeans<V>(p: Program, task: Task<V>, dims: seq<nat>, n: nat, inputs: seq<seq<nat>>, caller: Frame<V>)
    returns (m: map<Index, V>)
    requires IsNest(p, dims, n, inputs) && ReadsOk(inputs, |dims|)
    ensures Run(p, task, [caller]) == caller.yield_(Mat(m)) && IsMapReduce(task, dims, n, inputs, m)
  {
    m := Outer(task, inputs, dims, n, [], task.init);
    assert Iters([caller]) == [];
    RunOuter(p, task, dims, n, inputs, [caller], task.init);
    OuterIsMapReduce(task, inputs, dims, n);
  }

  /** An input matrix: the numbers of the iterators it is read at, and its dimensions. */
  datatype Input = Input(indices: seq<nat>, dims: seq<nat>)

  /** The dimensions that belong to an iterator are all the same. */
  ghost predicate DimsAgree(outDims: seq<nat>, ins: seq<Input>) {
    && (forall i | 0 <= i < |ins| :: |ins[i].indices| == |ins[i].dims|)
    && exists dims: map<nat, nat> :: DimsOf(dims, outDims, ins)
  }

  ghost predicate DimsOf(dims: map<nat, nat>, outDims: seq<nat>, ins: seq<Input>) {
    && (forall k | 0 <= k < |outDims| :: k in dims && dims[k] == outDims[k])
    && (forall i, j | 0 <= i < |ins| && 0 <= j < |ins[i].indices| && j < |ins[i].dims| ::
          ins[i].indices[j] in dims && dims[ins[i].indices[j]] == ins[i].dims[j])
  }

  /** Output or input have an index that is this iterator. */
  ghost predicate Mentioned(idx: nat, outDims: seq<nat>, ins: seq<Input>) {
    idx < |outDims| || exists i, j :: 0 <= i < |ins| && 0 <= j < |ins[i].indices| && ins[i].indices[j] == idx
  }

  /** The iterators of output and inputs and no others, in increasing order, and their dimensions. */
  ghost predicate Ordered(order: seq<nat>, dims: seq<nat>, outDims: seq<nat>, ins: seq<Input>) {
    && IsSorted(order) && (forall idx: nat :: idx in order <==> Mentioned(idx, outDims, ins))
    && outDims <= dims && |dims| == |order| && (forall k | 0 <= k < |outDims| :: order[k] == k)
    && forall i, j, k | 0 <= i < |ins| && 0 <= j < |ins[i].indices| && j < |ins[i].dims| && 0 <= k < |order| ::
         order[k] == ins[i].indices[j] ==> dims[k] == ins[i].dims[j]
  }

  /** Every input is read at the functions with its iterators: function k + 1 has iterator order[k]. */
  ghost predicate ReadsAt(inputs: seq<seq<nat>>, order: seq<nat>, ins: seq<Input>) {
    && |inputs| == |ins|
    && forall i | 0 <= i < |ins| :: ReadAtOwn(inputs[i], order, ins[i].indices)
  }

  ghost predicate ReadAtOwn(lams: seq<nat>, order: seq<nat>, indices: seq<nat>) {
    && |lams| == |indices|
    && forall j | 0 <= j < |indices| :: 0 < lams[j] <= |order| && order[lams[j] - 1] == indices[j]
  }

  /** The value of an iterator when those in order have the values its. */
  ghost function ValueOf(order: seq<nat>, its: Index, idx: nat): nat {
    if exists k: nat :: k < |order| && k < |its| && order[k] == idx then
      var k: nat :| k < |order| && k < |its| && order[k] == idx; its[k]
    else 0
  }

  ghost function ValuesOf(order: seq<nat>, its: Index, indices: seq<nat>): Index {
    seq(|indices|, j requires 0 <= j < |indices| => ValueOf(order, its, indices[j]))
  }

  /** The elements of the inputs, each read where its own iterators stand. */
  ghost function ElementsOf<V>(task: Task<V>, ins: seq<Input>, order: seq<nat>, its: Index): seq<V> {
    seq(|ins|, i requires 0 <= i < |ins| => task.read(i, ValuesOf(order, its, ins[i].indices)))
  }

  /** The left fold over the tuples that continue its. */
  ghost function Reduce<V>(task: Task<V>, ins: seq<Input>, order: seq<nat>, its: Index, ts: seq<Index>, v: V): V {
    if ts == [] then v
    else Reduce(task, ins, order, its, ts[1..], task.combine(v, ElementsOf(task, ins, order, its + ts[0])))
  }

  /** Within the bounds the matrix holds the elements of the inputs combined, from zero on, over all values of the other
      iterators in lexicographic order, and anywhere else what was there. */
  ghost predicate IsReduced<V>(task: Task<V>, outDims: seq<nat>, ins: seq<Input>, order: seq<nat>, dims: seq<nat>,
                               m: map<Index, V>)
    requires |outDims| <= |dims|
  {
    forall t :: if InBounds(t, outDims) then
                  t in m && m[t] == Reduce(task, ins, order, t, AllTuples(dims[|outDims|..]), task.zero)
                else (t in m <==> t in task.init) && (t in m ==> m[t] == task.init[t])
  }

  lemma ReadOneByOne(inputs: seq<seq<nat>>, order: seq<nat>, ins: seq<Input>)
    requires ReadsAt(inputs, order, ins)
    ensures |inputs| == |ins| && forall i | 0 <= i < |ins| :: |inputs[i]| == |ins[i].indices|
    ensures forall i, j | 0 <= i < |ins| && 0 <= j < |ins[i].indices| ::
              0 < inputs[i][j] <= |order| && order[inputs[i][j] - 1] == ins[i].indices[j]
  {
    assert forall i | 0 <= i < |ins| :: ReadAtOwn(inputs[i], order, ins[i].indices);
  }

  lemma ValueIs(order: seq<nat>, its: Index, k: nat)
    requires IsSorted(order) && k < |order| == |its|
    ensures ValueOf(order, its, order[k]) == its[k]
  {
  }

  lemma ElementsMatch<V>(task: Task<V>, inputs: seq<seq<nat>>, ins: seq<Input>, order: seq<nat>, its: Index)
    requires IsSorted(order) && ReadsAt(inputs, order, ins) && |its| == |order|
    ensures Elements(task, inputs, its) == ElementsOf(task, ins, order, its)
  {
    forall i | 0 <= i < |ins|
      ensures Elements(task, inputs, its)[i] == ElementsOf(task, ins, order, its)[i]
    {
      assert ReadAtOwn(inputs[i], order, ins[i].indices);
      IndicesMatch(inputs[i], order, its, ins[i].indices);
    }
  }

  lemma IndicesMatch(lams: seq<nat>, order: seq<nat>, its: Index, indices: seq<nat>)
    requires IsSorted(order) && ReadAtOwn(lams, order, indices) && |its| == |order|
    ensures IndexOf(lams, its) == ValuesOf(order, its, indices)
  {
    forall j | 0 <= j < |indices|
      ensures IndexOf(lams, its)[j] == ValuesOf(order, its, indices)[j]
    {
      ValueIs(order, its, lams[j] - 1);
    }
  }

  lemma {:induction false} FoldReduces<V>(task: Task<V>, inputs: seq<seq<nat>>, ins: seq<Input>, order: seq<nat>,
                                          its: Index, ts: seq<Index>, v: V)
    requires IsSorted(order) && ReadsAt(inputs, order, ins) && forall t | t in ts :: |its| + |t| == |order|
    ensures Fold(task, inputs, its, ts, v) == Reduce(task, ins, order, its, ts, v)
    decreases |ts|
  {
    if ts != [] {
      ElementsMatch(task, inputs, ins, order, its + ts[0]);
      FoldReduces(task, inputs, ins, order, its, ts[1..], task.combine(v, Elements(task, inputs, its + ts[0])));
    }
  }

  /** What the nest returns, in terms of the iterators of the inputs. */
  lemma MapReduceReduces<V>(task: Task<V>, outDims: seq<nat>, ins: seq<Input>, order: seq<nat>, dims: seq<nat>,
                            inputs: seq<seq<nat>>, m: map<Index, V>)
    requires Ordered(order, dims, outDims, ins) && ReadsAt(inputs, order, ins)
    requires IsMapReduce(task, dims, |outDims|, inputs, m)
    ensures IsReduced(task, outDims, ins, order, dims, m)
  {
    var n := |outDims|;
    var ts := AllTuples(dims[n..]);
    AllTuplesAre(dims[n..]);
    forall t | InBounds(t, outDims)
      ensures t in m && m[t] == Reduce(task, ins, order, t, ts, task.zero)
    {
      assert InBounds(t, dims[..n]);
      FoldReduces(task, inputs, ins, order, t, ts, task.zero);
    }
    assert outDims == dims[..n];
  }

  /** dims has been collected from the output and the first inputs. */
  ghost predicate Collected(dims: map<nat, nat>, all: map<nat, nat>, outDims: seq<nat>, ins: seq<Input>, i: nat,
                            j: nat) {
    && (forall k | k in dims :: k in all && dims[k] == all[k] && Mentioned(k, outDims, ins))
    && (forall k | 0 <= k < |outDims| :: k in dims)
    && (forall i', j' | 0 <= i' < |ins| && 0 <= j' < |ins[i'].indices| && (i' < i || (i' == i && j' < j)) ::
        ins[i'].indices[j'] in dims)
  }

  ghost predicate IsSorted(order: seq<nat>) {
    forall a, b | 0 <= a < b < |order| :: order[a] < order[b]
  }

  lemma LeastExists(s: set<nat>)
    requires s != {}
    ensures exists x :: x in s && IsLeast(s, x)
    decreases s
  {
    var y :| y in s;
    if !IsLeast(s, y) {
      var below := set z | z in s && z < y;
      var z :| z in s && z < y;
      assert z in below && y !in below;
      LeastExists(below);
      var x: nat :| x in below && IsLeast(below, x);
      forall w | w in s
        ensures x <= w
      {
        if w < y { assert w in below; }
      }
      assert IsLeast(s, x);
    }
  }

  /** The keys are those in order and, after them, those in rest. */
  ghost predicate Remaining(order: seq<nat>, rest: set<nat>, dims: map<nat, nat>) {
    && IsSorted(order)
    && (forall k: nat :: k in dims <==> k in order || k in rest)
    && (forall k: nat, l: nat | k in order && l in rest :: k < l)
  }

  lemma NextRemaining(order: seq<nat>, rest: set<nat>, dims: map<nat, nat>, idx: nat)
    requires Remaining(order, rest, dims) && idx in rest && IsLeast(rest, idx)
    ensures Remaining(order + [idx], rest - {idx}, dims) && idx in dims && idx !in order
  {
    forall a | 0 <= a < |order|
      ensures order[a] < idx
    {
      assert order[a] in order;
    }
  }

  lemma FirstRemaining(outer: seq<nat>, rest: set<nat>, dims: map<nat, nat>, n: nat)
    requires outer == seq(n, k => k) && (forall k | 0 <= k < n :: outer[k] in dims)
    requires rest == set k | k in dims && n <= k
    ensures Remaining(outer, rest, dims)
  {
    forall k: nat
      ensures k in outer <==> k < n
      ensures k < n ==> k in dims
    {
      if k < n { assert outer[k] == k && outer[k] in dims; }
    }
  }

  predicate IsLeast(s: set<nat>, x: nat) {
    forall z | z in s :: x <= z
  }

  class Builder {
    var bodies: seq<Body>
    var currentNom: nat
    var cont: Cont
    var acc: Source
    /** The function whose parameter is an iterator. */
    var iterOf: map<nat, nat>

    constructor ()
      ensures bodies == [Body.Unset] && currentNom == 0 && cont == YieldOf(0) && acc == InitMatrix && iterOf == map[]
    {
      bodies := [Body.Unset];
      currentNom, cont, acc, iterOf := 0, YieldOf(0), InitMatrix, map[];
    }

    /** The loops over the first dimensions in order have been built. */
    ghost predicate Built(order: seq<nat>, dims: map<nat, nat>, n: nat)
      reads this
    {
      && |bodies| == |order| + 1 && currentNom == |order|
      && (forall k | 0 <= k < |order| ::
            order[k] in dims && bodies[k] == CountingFor(dims[order[k]], First(k, n), k + 1, Exit(k, n)))
      && (forall k | 0 <= k < |order| :: order[k] in iterOf && iterOf[order[k]] == k + 1)
      && (forall k | k in iterOf :: k in order)
    }

    /** Adds a loop over idx to the body under construction; what follows goes into the body of that loop. */
    method AddLoop(idx: nat, ghost order: seq<nat>, dims: map<nat, nat>, ghost n: nat)
      requires Built(order, dims, n) && idx in dims && idx !in order
      requires acc == First(|order|, n) && cont == Exit(|order|, n)
      modifies this
      ensures Built(order + [idx], dims, n) && acc == CarryOf(|order| + 1) && cont == YieldOf(|order| + 1)
    {
      var body := |bodies|;
      bodies := bodies + [Body.Unset];
      bodies := bodies[currentNom := CountingFor(dims[idx], acc, body, cont)];
      cont := YieldOf(body);
      iterOf := iterOf[idx := body];
      acc := CarryOf(body);
      currentNom := body;
    }

    /** Collects the dimension of every iterator. */
    method CollectDims(outDims: seq<nat>, ins: seq<Input>) returns (dims: map<nat, nat>)
      requires DimsAgree(outDims, ins)
      ensures DimsOf(dims, outDims, ins) && forall k | k in dims :: Mentioned(k, outDims, ins)
    {
      ghost var all: map<nat, nat> :| DimsOf(all, outDims, ins);
      dims := map[];
      for k := 0 to |outDims|
        invariant forall l :: l in dims <==> 0 <= l < k
        invariant forall l | 0 <= l < k :: dims[l] == outDims[l]
      {
        dims := dims[k := outDims[k]];
      }
      for i := 0 to |ins|
        invariant Collected(dims, all, outDims, ins, i, 0)
      {
        for j := 0 to |ins[i].indices|
          invariant Collected(dims, all, outDims, ins, i, j)
        {
          var idx := ins[i].indices[j];
          if idx !in dims {
            dims := dims[idx := ins[i].dims[j]];
          }
        }
      }
    }

    /** Builds the whole nest. Function k + 1 has the iterator numbered order[k]. */
    method Rewrite(outDims: seq<nat>, ins: seq<Input>)
      returns (p: Program, ghost order: seq<nat>, ghost dims: seq<nat>, ghost inputs: seq<seq<nat>>)
      requires bodies == [Body.Unset] && currentNom == 0 && cont == YieldOf(0) && acc == InitMatrix && iterOf == map[]
      requires DimsAgree(outDims, ins)
      modifies this
      ensures Ordered(order, dims, outDims, ins)
      ensures IsNest(p, dims, |outDims|, inputs) && |inputs| == |ins|
      ensures forall i | 0 <= i < |ins| :: |inputs[i]| == |ins[i].indices|
      ensures forall i, j | 0 <= i < |ins| && 0 <= j < |ins[i].indices| ::
                0 < inputs[i][j] <= |order| && order[inputs[i][j] - 1] == ins[i].indices[j]
    {
      var ds := CollectDims(outDims, ins);
      var n := |outDims|;
      var write;
      write, order := AddLoops(ds, n);
      var lams := ReadAt(ins, order);
      inputs := lams;
      dims := seq(|order|, k requires 0 <= k < |order| => if order[k] in ds then ds[order[k]] else 0);
      IsOrdered(order, ds, dims, outDims, ins);
      NestBuilt(bodies, order, ds, dims, n, inputs, write);
      bodies := bodies[currentNom := Combine(acc, lams, cont)];
      p := Program(bodies, write);
      ReadOneByOne(inputs, order, ins);
    }

    method AddLoops(dims: map<nat, nat>, n: nat) returns (write: Write, ghost order: seq<nat>)
      requires bodies == [Body.Unset] && currentNom == 0 && cont == YieldOf(0) && acc == InitMatrix && iterOf == map[]
      requires forall k | 0 <= k < n :: k in dims
      modifies this
      ensures IsSorted(order) && (forall k :: k in order <==> k in dims) && Built(order, dims, n)
      ensures n <= |order| && (forall k | 0 <= k < n :: order[k] == k)
      ensures write == Write(if n == 0 then InitMatrix else CarryOf(n), seq(n, j => j + 1), n)
      ensures acc == First(|order|, n) && cont == Exit(|order|, n)
    {
      write := AddOuterLoops(dims, n);
      acc, cont := ZeroElem, WriteBack;
      order := AddInnerLoops(dims, n, seq(n, k => k));
    }

    method AddOuterLoops(dims: map<nat, nat>, n: nat) returns (write: Write)
      requires Built([], dims, n) && acc == InitMatrix && cont == YieldOf(0) && forall k | 0 <= k < n :: k in dims
      modifies this
      ensures Built(seq(n, k => k), dims, n)
      ensures write == Write(if n == 0 then InitMatrix else CarryOf(n), seq(n, j => j + 1), n)
    {
      ghost var order: seq<nat> := [];
      for idx := 0 to n
        invariant order == seq(idx, k => k) && Built(order, dims, n)
        invariant acc == (if idx == 0 then InitMatrix else CarryOf(idx)) && cont == YieldOf(idx)
      {
        AddLoop(idx, order, dims, n);
        order := order + [idx];
      }
      var iters := iterOf;
      forall i: nat | i < n
        ensures i in iters && iters[i] == i + 1
      {
        assert order[i] == i;
      }
      write := Write(acc, seq(n, i requires 0 <= i < n => iters[i]), n);
      assert write.at == seq(n, j => j + 1);
    }

    method AddInnerLoops(dims: map<nat, nat>, n: nat, ghost outer: seq<nat>) returns (ghost order: seq<nat>)
      requires outer == seq(n, k => k) && Built(outer, dims, n) && acc == ZeroElem && cont == WriteBack
      modifies this
      ensures IsSorted(order) && (forall k :: k in order <==> k in dims) && Built(order, dims, n)
      ensures n <= |order| && forall k | 0 <= k < n :: order[k] == k
      ensures acc == First(|order|, n) && cont == Exit(|order|, n)
    {
      order := outer;
      var rest := set k | k in dims && n <= k;
      FirstRemaining(outer, rest, dims, n);
      while rest != {}
        invariant Remaining(order, rest, dims) && Built(order, dims, n)
        invariant n <= |order| && forall k | 0 <= k < n :: order[k] == k
        invariant acc == First(|order|, n) && cont == Exit(|order|, n)
      {
        var idx := AddInnerLoop(rest, order, dims, n);
        order := order + [idx];
        rest := rest - {idx};
      }
    }

    /** Adds a loop over the least iterator that is left. */
    method AddInnerLoop(rest: set<nat>, ghost order: seq<nat>, dims: map<nat, nat>, ghost n: nat) returns (idx: nat)
      requires rest != {} && Remaining(order, rest, dims) && Built(order, dims, n)
      requires acc == First(|order|, n) && cont == Exit(|order|, n) && n <= |order|
      modifies this
      ensures idx in rest && Remaining(order + [idx], rest - {idx}, dims) && Built(order + [idx], dims, n)
      ensures acc == First(|order| + 1, n) && cont == Exit(|order| + 1, n)
    {
      LeastExists(rest);
      idx :| idx in rest && IsLeast(rest, idx);
      NextRemaining(order, rest, dims, idx);
      AddLoop(idx, order, dims, n);
    }

    /** The functions whose iterators the inputs are read at. */
    method ReadAt(ins: seq<Input>, ghost order: seq<nat>) returns (inputs: seq<seq<nat>>)
      requires forall k | 0 <= k < |order| :: order[k] in iterOf && iterOf[order[k]] == k + 1
      requires forall i, j | 0 <= i < |ins| && 0 <= j < |ins[i].indices| :: ins[i].indices[j] in order
      ensures ReadsAt(inputs, order, ins)
    {
      inputs := [];
      for i := 0 to |ins|
        invariant |inputs| == i && forall k | 0 <= k < i :: ReadAtOwn(inputs[k], order, ins[k].indices)
      {
        var lams: seq<nat> := [];
        for j := 0 to |ins[i].indices|
          invariant |lams| == j
          invariant forall l | 0 <= l < j :: 0 < lams[l] <= |order| && order[lams[l] - 1] == ins[i].indices[l]
        {
          assert ins[i].indices[j] in order;
          lams := lams + [iterOf[ins[i].indices[j]]];
        }
        inputs := inputs + [lams];
      }
    }
  }

  lemma IsOrdered(order: seq<nat>, ds: map<nat, nat>, dims: seq<nat>, outDims: seq<nat>, ins: seq<Input>)
    requires DimsOf(ds, outDims, ins) && (forall k | k in ds :: Mentioned(k, outDims, ins))
    requires forall i | 0 <= i < |ins| :: |ins[i].indices| == |ins[i].dims|
    requires IsSorted(order) && (forall k :: k in order <==> k in ds)
    requires |outDims| <= |order| == |dims| && (forall k | 0 <= k < |outDims| :: order[k] == k)
    requires forall k | 0 <= k < |order| :: dims[k] == if order[k] in ds then ds[order[k]] else 0
    ensures Ordered(order, dims, outDims, ins)
  {
    forall k | 0 <= k < |order|
      ensures order[k] in ds && dims[k] == ds[order[k]]
    {
      assert order[k] in order;
    }
    assert outDims == dims[..|outDims|];
  }

  lemma NestBuilt(bodies: seq<Body>, order: seq<nat>, ds: map<nat, nat>, dims: seq<nat>, n: nat,
                  inputs: seq<seq<nat>>, write: Write)
    requires n <= |order| == |dims| && |bodies| == |order| + 1
    requires forall k | 0 <= k < |order| ::
               order[k] in ds && bodies[k] == CountingFor(ds[order[k]], First(k, n), k + 1, Exit(k, n))
    requires forall k | 0 <= k < |order| :: dims[k] == if order[k] in ds then ds[order[k]] else 0
    requires write == Write(if n == 0 then InitMatrix else CarryOf(n), seq(n, j => j + 1), n)
    ensures IsNest(Program(bodies[|order| := Combine(First(|order|, n), inputs, Exit(|order|, n))], write), dims, n,
                   inputs)
  {
  }
}
