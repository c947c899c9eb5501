/** The product of two matrices as a map-reduce, all the way down to functions that call each other. */
module MatrixProduct {
  import opened Wrappers
  import opened Cps
  import opened MapReduce
  import opened LowerFor
  import opened NestLowering

  type Matrix = Index -> int

  /** Reads a or b, multiplies, and adds up. */
  function Product(a: Matrix, b: Matrix): Task<int> {
    Task((i: nat, x: Index) => if i == 0 then a(x) else b(x),
         (v: int, es: seq<int>) => v + if |es| == 2 then es[0] * es[1] else 0, 0, map[])
  }

  /** The output has iterators 0 and 1; a is read at 0 and 2, b at 2 and 1. */
  function Factors(rows: nat, inner: nat, columns: nat): seq<Input> {
    [Input([0, 2], [rows, inner]), Input([2, 1], [inner, columns])]
  }

  /** Row i of a times column j of b, from position k on. */
  function RowTimesColumn(a: Matrix, b: Matrix, i: nat, j: nat, k: nat, inner: nat): int
    decreases if k < inner then inner - k else 0
  {
    if k < inner then a([i, k]) * b([k, j]) + RowTimesColumn(a, b, i, j, k + 1, inner) else 0
  }

  /** Lowering gives a program that returns the product, element by element. */
  method LowerProduct(rows: nat, inner: nat, columns: nat, ghost a: Matrix, ghost b: Matrix) returns (prog: seq<Code>)
    requires rows < WORD && inner < WORD && columns < WORD
    ensures exists k, m :: Steps(k, prog, PrimsOf(Product(a, b)), At(0, map[])) == Done(Mat(m))
                        && IsProduct(a, b, rows, inner, columns, m)
  {
    var outDims, ins := [rows, columns], Factors(rows, inner, columns);
    assert DimsOf(map[0 := rows, 1 := columns, 2 := inner], outDims, ins);
    prog := LowerMapReduce(outDims, ins, Product(a, b));
    ghost var order, dims, k, m :|
      && Ordered(order, dims, outDims, ins)
      && Steps(k, prog, PrimsOf(Product(a, b)), At(0, map[])) == Done(Mat(m))
      && IsReduced(Product(a, b), outDims, ins, order, dims, m);
    ReducedIsProduct(a, b, rows, inner, columns, order, dims, m);
  }

  ghost predicate IsProduct(a: Matrix, b: Matrix, rows: nat, inner: nat, columns: nat, m: map<Index, int>) {
    forall i: nat, j: nat | i < rows && j < columns ::
      [i, j] in m && m[[i, j]] == RowTimesColumn(a, b, i, j, 0, inner)
  }

  lemma ReducedIsProduct(a: Matrix, b: Matrix, rows: nat, inner: nat, columns: nat, order: seq<nat>, dims: seq<nat>,
                         m: map<Index, int>)
    requires Ordered(order, dims, [rows, columns], Factors(rows, inner, columns))
    requires IsReduced(Product(a, b), [rows, columns], Factors(rows, inner, columns), order, dims, m)
    ensures IsProduct(a, b, rows, inner, columns, m)
  {
    var ins := Factors(rows, inner, columns);
    ThreeIterators(rows, inner, columns, order, dims);
    forall i: nat, j: nat | i < rows && j < columns
      ensures [i, j] in m && m[[i, j]] == RowTimesColumn(a, b, i, j, 0, inner)
    {
      assert InBounds([i, j], [rows, columns]);
      assert dims[|[rows, columns]|..] == [inner];
      assert AllTuples([inner]) == TuplesFrom([inner], 0);
      SumsUp(a, b, ins, i, j, 0, inner, 0);
    }
  }

  lemma ThreeIterators(rows: nat, inner: nat, columns: nat, order: seq<nat>, dims: seq<nat>)
    requires Ordered(order, dims, [rows, columns], Factors(rows, inner, columns))
    ensures order == [0, 1, 2] && dims == [rows, columns, inner]
  {
    var outDims, ins := [rows, columns], Factors(rows, inner, columns);
    assert ins[0].indices[1] == 2;
    assert Mentioned(2, outDims, ins);
    forall k | 0 <= k < |order|
      ensures order[k] <= 2
    {
      assert order[k] in order;
    }
    assert 2 in order;
    SortedAtLeast(order, |order| - 1);
    assert |order| == 3;
    assert order[2] == ins[0].indices[1] && dims[2] == ins[0].dims[1];
  }

  lemma {:induction false} SortedAtLeast(order: seq<nat>, k: nat)
    requires IsSorted(order) && k < |order|
    ensures order[k] >= k
  {
    if k > 0 { SortedAtLeast(order, k - 1); }
  }

  lemma {:induction false} SumsUp(a: Matrix, b: Matrix, ins: seq<Input>, i: nat, j: nat, k: nat, inner: nat, v: int)
    requires |ins| == 2 && ins[0].indices == [0, 2] && ins[1].indices == [2, 1]
    ensures Reduce(Product(a, b), ins, [0, 1, 2], [i, j], TuplesFrom([inner], k), v)
         == v + RowTimesColumn(a, b, i, j, k, inner)
    decreases if k < inner then inner - k else 0
  {
    if k < inner {
      var ts := TuplesFrom([inner], k);
      assert AllTuples([inner][1..]) == [[]];
      assert [k] + [] == [k] && Prefixed(k, [[]]) == [[k]];
      assert ts == [[k]] + TuplesFrom([inner], k + 1);
      assert [i, j] + ts[0] == [i, j, k];
      OneProduct(a, b, ins, i, j, k);
      SumsUp(a, b, ins, i, j, k + 1, inner, v + a([i, k]) * b([k, j]));
    }
  }

  lemma OneProduct(a: Matrix, b: Matrix, ins: seq<Input>, i: nat, j: nat, k: nat)
    requires |ins| == 2 && ins[0].indices == [0, 2] && ins[1].indices == [2, 1]
    ensures ElementsOf(Product(a, b), ins, [0, 1, 2], [i, j, k]) == [a([i, k]), b([k, j])]
  {
    var order := [0, 1, 2];
    ValueIs(order, [i, j, k], 0);
    ValueIs(order, [i, j, k], 1);
    ValueIs(order, [i, j, k], 2);
    assert ValuesOf(order, [i, j, k], [0, 2]) == [i, k];
    assert ValuesOf(order, [i, j, k], [2, 1]) == [k, j];
  }
}
