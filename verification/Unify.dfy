/** The sea of nodes: structural nodes are unique, nominal nodes are not. */
module Unify {
  import opened Wrappers

  /** Node kind together with its flags, type, and operands. */
  datatype Key = Key(tag: nat, ty: Option<nat>, ops: seq<nat>)

  datatype Node = Structural(key: Key) | Nominal(tag: nat)

  type Nodes = map<nat, Node>

  /** The operands and the type of a structural node. */
  function Below(k: Key): set<nat> {
    (set o | o in k.ops) + (if k.ty.Some? then {k.ty.value} else {})
  }

  /** What a node stands for when identities of structural nodes do not matter. */
  datatype Tree = Leaf(nom: nat) | Branch(tag: nat, ty: Option<Tree>, ops: seq<Tree>)

  /** Operands come before the nodes they belong to. */
  ghost predicate Ordered(nodes: Nodes) {
    forall n | n in nodes && nodes[n].Structural? :: forall o | o in Below(nodes[n].key) :: o in nodes && o < n
  }

  function TreeOf(nodes: Nodes, n: nat): Tree
    decreases n, 1
  {
    if n !in nodes || nodes[n].Nominal? then Leaf(n)
    else
      var k := nodes[n].key;
      Branch(k.tag, if k.ty.Some? && k.ty.value < n then Some(TreeOf(nodes, k.ty.value)) else None,
             TreesUpTo(nodes, n, k.ops))
  }

  /** The trees of operands of n. */
  function TreesUpTo(nodes: Nodes, n: nat, ops: seq<nat>): (r: seq<Tree>)
    ensures |r| == |ops|
    decreases n, 0, |ops|
  {
    if ops == [] then []
    else TreesUpTo(nodes, n, ops[..|ops| - 1]) + [if ops[|ops| - 1] < n then TreeOf(nodes, ops[|ops| - 1]) else Leaf(n)]
  }

  /** No two structural nodes look the same. */
  ghost predicate Unique(nodes: Nodes) {
    forall m, n | m in nodes && n in nodes && nodes[m].Structural? && nodes[m] == nodes[n] :: m == n
  }

  /** Nodes that stand for the same are the same: structural equality of whole trees is identity. */
  lemma {:induction false} TreesInjective(nodes: Nodes, m: nat, n: nat)
    requires Ordered(nodes) && Unique(nodes) && m in nodes && n in nodes && TreeOf(nodes, m) == TreeOf(nodes, n)
    ensures m == n
    decreases m, 1
  {
    if nodes[m].Structural? {
      assert nodes[n].Structural?;
      var k, l := nodes[m].key, nodes[n].key;
      OpsInjective(nodes, m, n, k.ops, l.ops);
      TypesInjective(nodes, m, n, k.ty, l.ty);
      assert k == l;
    }
  }

  lemma {:induction false} TypesInjective(nodes: Nodes, m: nat, n: nat, t: Option<nat>, u: Option<nat>)
    requires Ordered(nodes) && Unique(nodes)
    requires (t.Some? ==> t.value in nodes && t.value < m) && (u.Some? ==> u.value in nodes && u.value < n)
    requires (if t.Some? then Some(TreeOf(nodes, t.value)) else None)
             == (if u.Some? then Some(TreeOf(nodes, u.value)) else None)
    ensures t == u
    decreases m, 0, 0
  {
    if t.Some? { TreesInjective(nodes, t.value, u.value); }
  }

  lemma {:induction false} OpsInjective(nodes: Nodes, m: nat, n: nat, ops: seq<nat>, ops': seq<nat>)
    requires Ordered(nodes) && Unique(nodes) && (forall o | o in ops :: o in nodes && o < m)
             && (forall o | o in ops' :: o in nodes && o < n)
    requires TreesUpTo(nodes, m, ops) == TreesUpTo(nodes, n, ops')
    ensures ops == ops'
    decreases m, 0, |ops|
  {
    if ops != [] && ops' != [] {
      var k := |ops| - 1;
      assert |ops| == |ops'|;
      var ts, us := TreesUpTo(nodes, m, ops), TreesUpTo(nodes, n, ops');
      assert ts[..k] == TreesUpTo(nodes, m, ops[..k]) && us[..k] == TreesUpTo(nodes, n, ops'[..k]);
      assert ts[k] == TreeOf(nodes, ops[k]) && us[k] == TreeOf(nodes, ops'[k]);
      OpsInjective(nodes, m, n, ops[..k], ops'[..k]);
      TreesInjective(nodes, ops[k], ops'[k]);
      assert ops == ops[..k] + [ops[k]] && ops' == ops'[..k] + [ops'[k]];
    } else {
      assert |ops| == |TreesUpTo(nodes, m, ops)| == |ops'|;
    }
  }

  /** New nodes do not change what is there. */
  lemma {:induction false} TreeStays(nodes: Nodes, nodes': Nodes, n: nat)
    requires Ordered(nodes) && n in nodes && forall m | m in nodes :: m in nodes' && nodes'[m] == nodes[m]
    ensures TreeOf(nodes', n) == TreeOf(nodes, n)
    decreases n, 1
  {
    if nodes[n].Structural? {
      var k := nodes[n].key;
      OpsStay(nodes, nodes', n, k.ops);
      if k.ty.Some? { TreeStays(nodes, nodes', k.ty.value); }
    }
  }

  lemma {:induction false} OpsStay(nodes: Nodes, nodes': Nodes, n: nat, ops: seq<nat>)
    requires Ordered(nodes) && (forall o | o in ops :: o in nodes && o < n)
             && forall m | m in nodes :: m in nodes' && nodes'[m] == nodes[m]
    ensures TreesUpTo(nodes', n, ops) == TreesUpTo(nodes, n, ops)
    decreases n, 0, |ops|
  {
    if ops != [] {
      assert ops[|ops| - 1] in ops;
      OpsStay(nodes, nodes', n, ops[..|ops| - 1]);
      TreeStays(nodes, nodes', ops[|ops| - 1]);
    }
  }

  class World {
    var nodes: Nodes
    /** The structural nodes by what they look like. */
    var defs: map<Key, nat>
    var currGid: nat
    var frozen: bool

    ghost predicate Valid()
      reads this
    {
      && Ordered(nodes) && Unique(nodes)
      && (forall n | n in nodes :: n <= currGid)
      && (forall k | k in defs :: defs[k] in nodes && nodes[defs[k]] == Structural(k))
      && (forall n | n in nodes && nodes[n].Structural? :: nodes[n].key in defs && defs[nodes[n].key] == n)
    }

    constructor ()
      ensures Valid() && nodes == map[] && !frozen
    {
      nodes, defs, currGid, frozen := map[], map[], 0, false;
    }

    method NextGid() returns (gid: nat)
      modifies this`currGid
      ensures gid == currGid == old(currGid) + 1
    {
      currGid := currGid + 1;
      gid := currGid;
    }

    /** The one structural node that looks like this. A frozen world does not make a new one. */
    method UnifyNode(tag: nat, ty: Option<nat>, ops: seq<nat>) returns (def: Option<nat>)
      requires Valid() && forall o | o in Below(Key(tag, ty, ops)) :: o in nodes
      modifies this
      ensures Valid() && frozen == old(frozen)
      ensures def.Some? ==> def.value in nodes && nodes[def.value] == Structural(Key(tag, ty, ops))
      ensures def.None? <==> frozen && Key(tag, ty, ops) !in old(defs)
      ensures forall n | n in old(nodes) ::
                n in nodes && nodes[n] == old(nodes)[n] && TreeOf(nodes, n) == TreeOf(old(nodes), n)
      ensures frozen || Key(tag, ty, ops) in old(defs) ==> nodes == old(nodes)
      ensures frozen ==> currGid == old(currGid)
    {
      var key := Key(tag, ty, ops);
      var gid := NextGid();
      if frozen {
        currGid := currGid - 1;
        def := if key in defs then Some(defs[key]) else None;
      } else if key in defs {
        def := Some(defs[key]);
      } else {
        Add(gid, Structural(key));
        defs := defs[key := gid];
        def := Some(gid);
      }
    }

    /** A new nominal node, whatever it looks like. */
    method InsertNode(tag: nat) returns (nom: nat)
      requires Valid()
      modifies this
      ensures Valid() && frozen == old(frozen) && defs == old(defs)
      ensures nom !in old(nodes) && nodes == old(nodes)[nom := Nominal(tag)]
      ensures forall n | n in old(nodes) :: TreeOf(nodes, n) == TreeOf(old(nodes), n)
    {
      nom := NextGid();
      Add(nom, Nominal(tag));
    }

    method Add(gid: nat, node: Node)
      requires Ordered(nodes) && gid !in nodes
      modifies this`nodes
      ensures nodes == old(nodes)[gid := node]
      ensures forall n | n in old(nodes) :: TreeOf(nodes, n) == TreeOf(old(nodes), n)
    {
      ghost var before := nodes;
      nodes := nodes[gid := node];
      forall n | n in before
        ensures TreeOf(nodes, n) == TreeOf(before, n)
      {
        TreeStays(before, nodes, n);
      }
    }
  }
}
