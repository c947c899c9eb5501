/** Nominal definitions: operands that can be changed, and the use lists that go with them. */
module Nominals {
  import opened Wrappers

  /** A definition as operands refer to it; nominals are numbered by creation. */
  datatype Def =
    | Lit(id: nat)
    | NomRef(nom: nat)
    | Var(nom: nat)
    | Proxy(pass: nat, ops: seq<Def>)
    | Node(tag: nat, ops: seq<Def>)

  /** No nominal, variable or proxy below. */
  predicate DepNone(d: Def) {
    match d
    case Lit(_) => true
    case Node(_, ops) => forall o | o in ops :: DepNone(o)
    case _ => false
  }

  /** All nominals referred to exist. */
  ghost predicate Wf(d: Def, gid: nat) {
    match d
    case Lit(_) => true
    case NomRef(n) => n < gid
    case Var(n) => n < gid
    case Proxy(_, ops) => forall o | o in ops :: Wf(o, gid)
    case Node(_, ops) => forall o | o in ops :: Wf(o, gid)
  }

  lemma {:induction false} WfMore(d: Def, gid: nat, gid': nat)
    requires Wf(d, gid) && gid <= gid'
    ensures Wf(d, gid')
  {
    if d.Proxy? || d.Node? {
      forall o | o in d.ops
        ensures Wf(o, gid')
      {
        WfMore(o, gid, gid');
      }
    }
  }

  type Ops = seq<Option<Def>>

  /** The operands of every nominal. */
  type Heap = seq<Ops>

  ghost predicate WfOps(ops: Ops, gid: nat) {
    forall o | o in ops && o.Some? :: Wf(o.value, gid)
  }

  ghost predicate WfHeap(heap: Heap) {
    forall n | 0 <= n < |heap| :: WfOps(heap[n], |heap|)
  }

  /** A nominal is set if it has no operands or its last operand is there. */
  predicate IsSet(ops: Ops) {
    |ops| == 0 || ops[|ops| - 1].Some?
  }

  /** New nominals aside, nothing changed. */
  ghost predicate Extends(heap: Heap, heap': Heap) {
    |heap| <= |heap'| && forall n | 0 <= n < |heap| :: heap'[n] == heap[n]
  }

  /** New nominals aside, only the operands of nom changed. */
  ghost predicate OnlyChanges(heap: Heap, heap': Heap, nom: nat) {
    && |heap| <= |heap'|
    && forall n | 0 <= n < |heap| :: |heap'[n]| == |heap[n]| && (n != nom ==> heap'[n] == heap[n])
  }

  datatype Use = Use(user: nat, index: nat)

  function UsesOf(uses: map<Def, set<Use>>, d: Def): set<Use> {
    if d in uses then uses[d] else {}
  }

  ghost predicate OpAt(heap: Heap, n: nat, i: nat, d: Def) {
    n < |heap| && i < |heap[n]| && heap[n][i] == Some(d)
  }

  /** The use lists say who has a definition as which operand. */
  ghost predicate Inverse(heap: Heap, uses: map<Def, set<Use>>) {
    forall n: nat, i: nat, d {:trigger OpAt(heap, n, i, d)} {:trigger Use(n, i) in UsesOf(uses, d)} ::
      OpAt(heap, n, i, d) <==> Use(n, i) in UsesOf(uses, d)
  }

  /** Use lists that are inverses of the same operands are the same. */
  lemma UsesDetermined(heap: Heap, heap': Heap, uses: map<Def, set<Use>>, uses': map<Def, set<Use>>, d: Def)
    requires Inverse(heap, uses) && Inverse(heap', uses') && Extends(heap, heap')
    ensures UsesOf(uses, d) == set u | u in UsesOf(uses', d) && u.user < |heap|
  {
    forall u: Use
      ensures u in UsesOf(uses, d) <==> u in UsesOf(uses', d) && u.user < |heap|
    {
      assert Use(u.user, u.index) in UsesOf(uses, d) <==> OpAt(heap, u.user, u.index, d);
      assert Use(u.user, u.index) in UsesOf(uses', d) <==> OpAt(heap', u.user, u.index, d);
    }
  }

  class World {
    var heap: Heap
    var uses: map<Def, set<Use>>

    ghost predicate Valid()
      reads this
    {
      WfHeap(heap) && Inverse(heap, uses)
    }

    constructor ()
      ensures Valid() && heap == []
    {
      heap := [];
      uses := map[];
    }

    /** Takes operand i away. */
    method Unset(n: nat, i: nat)
      requires Valid() && n < |heap| && i < |heap[n]| && heap[n][i].Some?
      modifies this
      ensures Valid() && heap == old(heap)[n := old(heap)[n][i := None]]
    {
      var d := heap[n][i].value;
      assert OpAt(heap, n, i, d);
      ghost var was, had := heap, uses;
      uses := uses[d := UsesOf(uses, d) - {Use(n, i)}];
      heap := heap[n := heap[n][i := None]];
      forall m: nat, j: nat, e {:trigger OpAt(heap, m, j, e)}
        ensures OpAt(heap, m, j, e) <==> Use(m, j) in UsesOf(uses, e)
      {
        assert OpAt(was, m, j, e) <==> Use(m, j) in UsesOf(had, e);
        if m == n && j == i { assert OpAt(was, m, j, e) ==> e == d; }
      }
      WfSet(was, n, i, None);
    }

    /** Makes d operand i, or nothing if there is no d. */
    method Set(n: nat, i: nat, d: Option<Def>)
      requires Valid() && n < |heap| && i < |heap[n]| && (d.Some? ==> Wf(d.value, |heap|))
      modifies this
      ensures Valid() && heap == old(heap)[n := old(heap)[n][i := d]]
    {
      if heap[n][i] == d {
        assert heap[n][i := d] == heap[n];
        return;
      }
      ghost var before := heap;
      if heap[n][i] != None {
        Unset(n, i);
        assert heap[n][i := d] == before[n][i := d];
      }
      if d.Some? {
        ghost var was, had := heap, uses;
        uses := uses[d.value := UsesOf(uses, d.value) + {Use(n, i)}];
        heap := heap[n := heap[n][i := d]];
        forall m: nat, j: nat, e {:trigger OpAt(heap, m, j, e)}
          ensures OpAt(heap, m, j, e) <==> Use(m, j) in UsesOf(uses, e)
        {
          assert OpAt(was, m, j, e) <==> Use(m, j) in UsesOf(had, e);
        }
        WfSet(was, n, i, d);
      }
      assert heap == before[n := before[n][i := d]];
    }

    /** Sets all operands. */
    method SetOps(n: nat, ops: Ops)
      requires Valid() && n < |heap| && |ops| == |heap[n]| && WfOps(ops, |heap|)
      modifies this
      ensures Valid() && heap == old(heap)[n := ops]
    {
      assert ops[..0] + heap[n][0..] == heap[n];
      for i := 0 to |ops|
        invariant Valid() && n < |heap| && |heap[n]| == |ops|
        invariant heap == old(heap)[n := ops[..i] + old(heap)[n][i..]]
      {
        Set(n, i, ops[i]);
        assert (ops[..i] + old(heap)[n][i..])[i := ops[i]] == ops[..i + 1] + old(heap)[n][i + 1..];
      }
      assert ops[..|ops|] + old(heap)[n][|ops|..] == ops;
    }

    /** A new nominal. */
    method Stub(ops: Ops) returns (n: nat)
      requires Valid() && WfOps(ops, |heap| + 1)
      modifies this
      ensures Valid() && n == |old(heap)| && heap == old(heap) + [ops]
    {
      n := |heap|;
      ghost var was := heap;
      heap := heap + [seq(|ops|, _ => None)];
      WfStub(was, heap[n]);
      forall m: nat, j: nat, e {:trigger OpAt(heap, m, j, e)}
        ensures OpAt(heap, m, j, e) <==> Use(m, j) in UsesOf(uses, e)
      {
        assert OpAt(was, m, j, e) <==> Use(m, j) in UsesOf(uses, e);
        assert OpAt(heap, m, j, e) ==> m < n;
      }
      SetOps(n, ops);
      assert heap == old(heap) + [ops];
    }
  }

  lemma WfSet(heap: Heap, n: nat, i: nat, d: Option<Def>)
    requires WfHeap(heap) && n < |heap| && i < |heap[n]| && (d.Some? ==> Wf(d.value, |heap|))
    ensures WfHeap(heap[n := heap[n][i := d]])
  {
    forall o | o in heap[n][i := d] && o.Some?
      ensures Wf(o.value, |heap|)
    {
      if o != d { assert o in heap[n]; }
    }
  }

  lemma WfStub(heap: Heap, ops: Ops)
    requires WfHeap(heap) && WfOps(ops, |heap| + 1)
    ensures WfHeap(heap + [ops])
  {
    var heap' := heap + [ops];
    forall n | 0 <= n < |heap'|
      ensures WfOps(heap'[n], |heap'|)
    {
      if n < |heap| { WfOpsMore(heap[n], |heap|, |heap'|); }
    }
  }

  lemma WfOpsMore(ops: Ops, gid: nat, gid': nat)
    requires WfOps(ops, gid) && gid <= gid'
    ensures WfOps(ops, gid')
  {
    forall o | o in ops && o.Some?
      ensures Wf(o.value, gid')
    {
      WfMore(o.value, gid, gid');
    }
  }
}
