/** Eta expansion: how every function was seen, with one lattice element per state of the pass manager. */
module EtaExpansion {
  datatype Pos = Callee | NonCallee1

  /** How often a function was met as callee and elsewhere. */
  datatype Seen = Seen(callee: nat, other: nat)

  datatype Occurrence = Occurrence(lam: nat, isCallee: bool)

  function SeenOf(seen: map<nat, Seen>, lam: nat): Seen {
    if lam in seen then seen[lam] else Seen(0, 0)
  }

  function Meet(seen: map<nat, Seen>, lam: nat, isCallee: bool): map<nat, Seen> {
    var s := SeenOf(seen, lam);
    seen[lam := if isCallee then s.(callee := s.callee + 1) else s.(other := s.other + 1)]
  }

  /** Either callee occurrences only, or a single other one. */
  predicate Fine(s: Seen) {
    s.other == 0 || (s.other == 1 && s.callee == 0)
  }

  /** The lattice element tells what was seen. */
  ghost predicate Tells(pos: map<nat, Pos>, seen: map<nat, Seen>, lam: nat) {
    var s := SeenOf(seen, lam);
    && Fine(s)
    && (lam !in pos <==> s == Seen(0, 0))
    && (lam in pos && pos[lam] == Callee <==> s.callee > 0)
    && (lam in pos && pos[lam] == NonCallee1 <==> s.other == 1)
  }

  /** Where the chain of originals ends. */
  ghost function Root(new2old: map<nat, nat>, lam: nat): nat
    requires forall n | n in new2old :: new2old[n] < n
  {
    if lam in new2old then Root(new2old, new2old[lam]) else lam
  }

  ghost predicate SameRoots(new2old: map<nat, nat>, new2old': map<nat, nat>) {
    && (forall n | n in new2old :: new2old[n] < n) && (forall n | n in new2old' :: new2old'[n] < n)
    && new2old'.Keys == new2old.Keys
    && forall n :: Root(new2old', n) == Root(new2old, n)
  }

  lemma {:induction false} Compressed(new2old: map<nat, nat>, lam: nat, n: nat)
    requires forall m | m in new2old :: new2old[m] < m
    requires lam in new2old && Root(new2old, lam) < lam
    ensures Root(new2old[lam := Root(new2old, lam)], n) == Root(new2old, n)
  {
    var m := new2old[lam := Root(new2old, lam)];
    RootIsEnd(new2old, lam);
    if n in new2old && n != lam {
      Compressed(new2old, lam, new2old[n]);
    }
  }

  lemma {:induction false} RootIsEnd(new2old: map<nat, nat>, lam: nat)
    requires forall m | m in new2old :: new2old[m] < m
    ensures Root(new2old, lam) !in new2old && Root(new2old, lam) <= lam
  {
    if lam in new2old { RootIsEnd(new2old, new2old[lam]); }
  }

  /** Here occurs a function that leads back to f, as a callee or elsewhere. */
  ghost predicate Occurs(o: Occurrence, new2old: map<nat, nat>, f: nat, isCallee: bool)
    requires forall n | n in new2old :: new2old[n] < n
  {
    Root(new2old, o.lam) == f && o.isCallee == isCallee
  }

  ghost function Places(ops: seq<Occurrence>, new2old: map<nat, nat>, f: nat, isCallee: bool): set<nat>
    requires forall n | n in new2old :: new2old[n] < n
  {
    set k: nat | k < |ops| && Occurs(ops[k], new2old, f, isCallee)
  }

  /** What was seen of f together with its occurrences among ops. */
  ghost function Together(seen: map<nat, Seen>, ops: seq<Occurrence>, new2old: map<nat, nat>, f: nat): Seen
    requires forall n | n in new2old :: new2old[n] < n
  {
    var s := SeenOf(seen, f);
    Seen(s.callee + |Places(ops, new2old, f, true)|, s.other + |Places(ops, new2old, f, false)|)
  }

  /** The lattice element of f for these occurrences. */
  ghost predicate Element(pos: map<nat, Pos>, f: nat, s: Seen) {
    if s.callee + s.other == 0 then f !in pos else f in pos && pos[f] == if s.callee > 0 then Callee else NonCallee1
  }

  lemma PlacesNext(ops: seq<Occurrence>, i: nat, new2old: map<nat, nat>, f: nat, isCallee: bool)
    requires i < |ops| && forall n | n in new2old :: new2old[n] < n
    ensures |Places(ops[..i + 1], new2old, f, isCallee)|
         == |Places(ops[..i], new2old, f, isCallee)| + if Occurs(ops[i], new2old, f, isCallee) then 1 else 0
  {
    var before, after := Places(ops[..i], new2old, f, isCallee), Places(ops[..i + 1], new2old, f, isCallee);
    forall k: nat
      ensures k in after <==> k in before || (k == i && Occurs(ops[i], new2old, f, isCallee))
    {
      assert k < i ==> ops[..i + 1][k] == ops[..i][k];
    }
    assert after == before + if Occurs(ops[i], new2old, f, isCallee) then {i} else {};
  }

  function OneMore(s: Seen, isCallee: bool): Seen {
    if isCallee then s.(callee := s.callee + 1) else s.(other := s.other + 1)
  }

  /** One more occurrence is counted where it belongs. */
  lemma TogetherNext(seen: map<nat, Seen>, ops: seq<Occurrence>, i: nat, new2old: map<nat, nat>, f: nat)
    requires i < |ops| && forall n | n in new2old :: new2old[n] < n
    ensures Together(seen, ops[..i + 1], new2old, f)
         == if Root(new2old, ops[i].lam) == f then OneMore(Together(seen, ops[..i], new2old, f), ops[i].isCallee)
            else Together(seen, ops[..i], new2old, f)
  {
    PlacesNext(ops, i, new2old, f, true);
    PlacesNext(ops, i, new2old, f, false);
  }

  /** Every state tells what was seen of all functions but the settled ones. */
  ghost predicate AllTell(pos: seq<map<nat, Pos>>, seen: seq<map<nat, Seen>>, settled: set<nat>) {
    && |pos| == |seen| > 0
    && forall k, lam: nat {:trigger Tells(pos[k], seen[k], lam)} | 0 <= k < |pos| && lam !in settled ::
        Tells(pos[k], seen[k], lam)
  }

  /** Only what the last state says about lam changes. */
  lemma TopTells(pos: seq<map<nat, Pos>>, seen: seq<map<nat, Seen>>, settled: set<nat>, top: map<nat, Pos>,
                 topSeen: map<nat, Seen>, settled': set<nat>, lam: nat)
    requires AllTell(pos, seen, settled) && settled <= settled' && (lam in settled' || Tells(top, topSeen, lam))
    requires forall n: nat | n != lam :: Tells(pos[|pos| - 1], seen[|pos| - 1], n) ==> Tells(top, topSeen, n)
    ensures AllTell(pos[|pos| - 1 := top], seen[|pos| - 1 := topSeen], settled')
  {
    forall j, n: nat {:trigger Tells(pos[j], seen[j], n)} | 0 <= j < |pos| && n !in settled'
      ensures Tells(pos[|pos| - 1 := top][j], seen[|pos| - 1 := topSeen][j], n)
    {
      assert Tells(pos[j], seen[j], n);
    }
  }

  /** An operand of a definition: whether it is a function, one with a body, and whether it is called. */
  datatype Operand = Operand(id: nat, isLam: bool, isSet: bool, isCallee: bool)

  predicate Workable(o: Operand) {
    o.isLam && o.isSet
  }

  function Ids(ops: seq<Operand>): (r: seq<nat>)
    ensures |r| == |ops| && forall i | 0 <= i < |ops| :: r[i] == ops[i].id
  {
    seq(|ops|, i requires 0 <= i < |ops| => ops[i].id)
  }

  function SetOp(ops: seq<nat>, i: nat, n: nat): seq<nat>
    requires i < |ops|
  {
    ops[i := n]
  }

  /** What stands in place of operand i of def, if anything else: the original of an expansion that is called, or else
      an expansion of its own. */
  ghost predicate StandsFor(expand: set<nat>, exp2orig: map<nat, nat>, place: map<nat, (nat, nat)>, def: nat, i: nat,
                            o: Operand, n: nat) {
    n == o.id
    || (Workable(o)
        && if o.isCallee then o.id in exp2orig && n == exp2orig[o.id]
           else Expands(expand, exp2orig, place, def, i, o, n))
  }

  ghost predicate Expands(expand: set<nat>, exp2orig: map<nat, nat>, place: map<nat, (nat, nat)>, def: nat, i: nat,
                          o: Operand, n: nat) {
    && n in exp2orig && n in place && place[n] == (def, i)
    && (o.id in expand || o.id in exp2orig)
    && (exp2orig[n] == o.id || (o.id in exp2orig && exp2orig[n] == exp2orig[o.id]))
  }

  /** All that is remembered of def's operands is right. */
  ghost predicate OpsOk(expand: set<nat>, exp2orig: map<nat, nat>, place: map<nat, (nat, nat)>, gid: nat, def: nat,
                        ops: seq<Operand>, newOps: seq<nat>) {
    && |newOps| == |ops|
    && forall i: nat {:trigger newOps[i]} | i < |ops| ::
         ops[i].id < gid && StandsFor(expand, exp2orig, place, def, i, ops[i], newOps[i])
  }

  /** Operand o has been rewritten to n. */
  ghost predicate Rewritten(expand: set<nat>, exp2orig: map<nat, nat>, o: Operand, n: nat) {
    if !Workable(o) then n == o.id
    else if o.isCallee then n == if o.id in exp2orig then exp2orig[o.id] else o.id
    else n != o.id <==> o.id in expand || o.id in exp2orig
  }

  predicate Expanded(o: Operand, n: nat) {
    !o.isCallee && n != o.id
  }

  /** What stands for an operand is the same function up to eta expansion. */
  lemma SameUpToEta(expand: set<nat>, exp2orig: map<nat, nat>, place: map<nat, (nat, nat)>, def: nat, i: nat,
                    o: Operand, n: nat)
    requires forall e | e in exp2orig :: exp2orig[e] < e
    requires StandsFor(expand, exp2orig, place, def, i, o, n)
    ensures Root(exp2orig, n) == Root(exp2orig, o.id)
  {
  }

  /** One more operand has been dealt with. */
  lemma OpsSet(expand: set<nat>, exp2orig: map<nat, nat>, place: map<nat, (nat, nat)>, gid: nat, def: nat,
               ops: seq<Operand>, newOps: seq<nat>, i: nat, n: nat)
    requires OpsOk(expand, exp2orig, place, gid, def, ops, newOps) && i < |ops|
             && StandsFor(expand, exp2orig, place, def, i, ops[i], n)
    ensures OpsOk(expand, exp2orig, place, gid, def, ops, SetOp(newOps, i, n))
  {
    forall j: nat {:trigger SetOp(newOps, i, n)[j]} | j < |ops|
      ensures ops[j].id < gid && StandsFor(expand, exp2orig, place, def, j, ops[j], SetOp(newOps, i, n)[j])
    {
      assert j != i ==> SetOp(newOps, i, n)[j] == newOps[j];
      assert ops[j].id < gid by { var _ := newOps[j]; }
    }
  }

  /** More functions to be expanded do no harm. */
  lemma OpsGrow(expand: set<nat>, expand': set<nat>, exp2orig: map<nat, nat>, place: map<nat, (nat, nat)>, gid: nat,
                def: nat, ops: seq<Operand>, newOps: seq<nat>)
    requires OpsOk(expand, exp2orig, place, gid, def, ops, newOps) && expand <= expand'
    ensures OpsOk(expand', exp2orig, place, gid, def, ops, newOps)
  {
  }

  /** A new expansion leaves what stands for other operands alone. */
  lemma OpsStay(expand: set<nat>, exp2orig: map<nat, nat>, place: map<nat, (nat, nat)>, exp: nat, lam: nat, def: nat,
                ops: seq<Operand>, newOps: seq<nat>, at: (nat, nat))
    requires OpsOk(expand, exp2orig, place, exp, def, ops, newOps) && exp !in exp2orig
    requires forall e | e in exp2orig :: exp2orig[e] < e < exp
    ensures OpsOk(expand, exp2orig[exp := lam], place[exp := at], exp + 1, def, ops, newOps)
  {
    forall i: nat {:trigger newOps[i]} | i < |ops|
      ensures StandsFor(expand, exp2orig[exp := lam], place[exp := at], def, i, ops[i], newOps[i])
    {
      assert StandsFor(expand, exp2orig, place, def, i, ops[i], newOps[i]);
    }
  }

  class EtaExp {
    /** Functions to be expanded; this survives roll backs. */
    var expand: set<nat>
    var exp2orig: map<nat, nat>
    var new2old: map<nat, nat>
    /** The operands of definitions with expansions in place of functions; this survives roll backs, too. */
    var def2newOps: map<nat, seq<nat>>
    ghost var def2ops: map<nat, seq<Operand>>
    /** The operand for which an expansion was made. */
    ghost var place: map<nat, (nat, nat)>
    /** The next definition to be made. */
    var gid: nat
    /** One per state: what has been rewritten, and how functions were seen. */
    var old2new: seq<set<nat>>
    var pos: seq<map<nat, Pos>>
    ghost var seen: seq<map<nat, Seen>>

    ghost predicate Valid()
      reads this
    {
      && (forall n | n in new2old :: new2old[n] < n)
      && AllTell(pos, seen, expand + exp2orig.Keys)
      && |old2new| == |pos| && ExpansionsOk()
    }

    /** Expansions are younger than what they expand, and stand where they were made for. */
    ghost predicate ExpansionsOk()
      reads this`expand, this`exp2orig, this`place, this`gid, this`def2newOps, this`def2ops
    {
      && (forall e | e in exp2orig :: exp2orig[e] < e < gid)
      && def2ops.Keys == def2newOps.Keys
      && forall d {:trigger def2newOps[d]} | d in def2newOps ::
          OpsOk(expand, exp2orig, place, gid, d, def2ops[d], def2newOps[d])
    }

    constructor (gid: nat)
      ensures Valid() && |pos| == 1 && expand == {} && exp2orig == map[] && new2old == map[]
    {
      expand, exp2orig, new2old := {}, map[], map[];
      def2newOps, def2ops, place, this.gid := map[], map[], map[], gid;
      old2new, pos, seen := [{}], [map[]], [map[]];
    }

    /** The pass manager pushes a state. */
    method Push()
      requires Valid()
      modifies this`old2new, this`pos, this`seen
      ensures Valid() && pos == old(pos) + [old(pos[|pos| - 1])] && seen == old(seen) + [old(seen[|seen| - 1])]
      ensures old2new == old(old2new) + [old(old2new[|old2new| - 1])]
    {
      old2new := old2new + [old2new[|old2new| - 1]];
      pos, seen := pos + [pos[|pos| - 1]], seen + [seen[|seen| - 1]];
    }

    /** The pass manager goes back to where there were undo many states. */
    method PopTo(undo: nat)
      requires Valid() && 0 < undo <= |pos|
      modifies this`old2new, this`pos, this`seen
      ensures Valid() && pos == old(pos)[..undo] && seen == old(seen)[..undo] && old2new == old(old2new)[..undo]
    {
      old2new, pos, seen := old2new[..undo], pos[..undo], seen[..undo];
    }

    /** Rewrites the operands of def: no expansion is called, and every other use of a function to be expanded gets an
        expansion of its own, which is the same function up to eta. What has been rewritten in this state stays as it
        is. */
    method Rewrite(def: nat, ops: seq<Operand>, rebuild: (nat, seq<nat>) -> nat)
      returns (newDef: nat, ghost newOps: seq<nat>)
      requires Valid() && (forall o | o in ops :: o.id < gid) && (def in def2ops ==> def2ops[def] == ops)
      modifies this`exp2orig, this`def2newOps, this`def2ops, this`place, this`gid, this`old2new
      ensures Valid() && |old2new| == |old(old2new)| && gid >= old(gid)
      ensures forall e | e in old(exp2orig) :: e in exp2orig && exp2orig[e] == old(exp2orig)[e]
      ensures if (forall o | o in ops :: !o.isLam) || def in old(old2new[|old2new| - 1])
              then newDef == def && newOps == Ids(ops) && exp2orig == old(exp2orig)
              else newDef == rebuild(def, newOps) && newDef in old2new[|old2new| - 1] && |newOps| == |ops|
                   && (forall i: nat {:trigger newOps[i]} | i < |ops| :: Rewritten(expand, exp2orig, ops[i], newOps[i])
                                                       && StandsFor(expand, exp2orig, place, def, i, ops[i], newOps[i]))
      ensures |newOps| == |ops| && forall i | 0 <= i < |ops| :: Root(exp2orig, newOps[i]) == Root(exp2orig, ops[i].id)
      ensures forall i, j | 0 <= i < j < |ops| && Expanded(ops[i], newOps[i]) && Expanded(ops[j], newOps[j]) ::
              newOps[i] != newOps[j]
    {
      newOps := Ids(ops);
      var k := |old2new| - 1;
      if (forall o | o in ops :: !o.isLam) || def in old2new[k] {
        return def, newOps;
      }
      RewriteOps(def, ops);
      newOps := def2newOps[def];
      assert OpsOk(expand, exp2orig, place, gid, def, ops, newOps);
      forall i | 0 <= i < |ops|
        ensures Root(exp2orig, newOps[i]) == Root(exp2orig, ops[i].id)
      {
        SameUpToEta(expand, exp2orig, place, def, i, ops[i], newOps[i]);
      }
      newDef := rebuild(def, def2newOps[def]);
      old2new := old2new[k := old2new[k] + {newDef}];
    }

    /** The operands of def are remembered, and rewritten one by one. */
    method RewriteOps(def: nat, ops: seq<Operand>)
      requires Valid() && (forall o | o in ops :: o.id < gid) && (def in def2ops ==> def2ops[def] == ops)
      modifies this`exp2orig, this`def2newOps, this`def2ops, this`place, this`gid
      ensures Valid() && gid >= old(gid)
      ensures forall e | e in old(exp2orig) :: e in exp2orig && exp2orig[e] == old(exp2orig)[e]
      ensures def in def2newOps && def2ops[def] == ops && |def2newOps[def]| == |ops|
      ensures forall i: nat {:trigger def2newOps[def][i]} | i < |ops| ::
              Rewritten(expand, exp2orig, ops[i], def2newOps[def][i])
    {
      if def !in def2newOps {
        def2newOps, def2ops := def2newOps[def := Ids(ops)], def2ops[def := ops];
      }
      assert OpsOk(expand, exp2orig, place, gid, def, ops, def2newOps[def]);
      for i := 0 to |ops|
        invariant Valid() && gid >= old(gid)
        invariant forall e | e in old(exp2orig) :: e in exp2orig && exp2orig[e] == old(exp2orig)[e]
        invariant def in def2newOps && def2ops[def] == ops && |def2newOps[def]| == |ops|
        invariant forall j: nat {:trigger def2newOps[def][j]} | j < i ::
                  Rewritten(expand, exp2orig, ops[j], def2newOps[def][j])
      {
        RewriteOp(def, i, ops[i]);
      }
    }

    method RewriteOp(def: nat, i: nat, o: Operand)
      requires Valid() && def in def2newOps && i < |def2ops[def]| && o == def2ops[def][i]
      modifies this`exp2orig, this`def2newOps, this`place, this`gid
      ensures Valid() && gid >= old(gid) && def2newOps.Keys == old(def2newOps.Keys)
      ensures forall e | e in old(exp2orig) :: e in exp2orig && exp2orig[e] == old(exp2orig)[e]
      ensures forall e | e in exp2orig && e !in old(exp2orig) :: e >= old(gid)
      ensures |def2newOps[def]| == |def2ops[def]| && Rewritten(expand, exp2orig, o, def2newOps[def][i])
      ensures forall j | 0 <= j < |def2ops[def]| && j != i :: def2newOps[def][j] == old(def2newOps)[def][j]
    {
      var newOps := def2newOps[def];
      assert OpsOk(expand, exp2orig, place, gid, def, def2ops[def], newOps)
          && StandsFor(expand, exp2orig, place, def, i, o, newOps[i]);
      if !Workable(o) { return; }
      if o.isCallee {
        if o.id in exp2orig {
          OpsSet(expand, exp2orig, place, gid, def, def2ops[def], newOps, i, exp2orig[o.id]);
          def2newOps := def2newOps[def := SetOp(newOps, i, exp2orig[o.id])];
        }
      } else if newOps[i] == o.id {
        if o.id in expand {
          EtaExpand(def, i, o, o.id);
        } else if o.id in exp2orig {
          EtaExpand(def, i, o, exp2orig[o.id]);
        }
      }
    }

    /** A new function that calls lam; it takes the place of operand i. */
    method EtaExpand(def: nat, i: nat, ghost o: Operand, lam: nat)
      requires Valid() && def in def2newOps && i < |def2ops[def]| && o == def2ops[def][i] && Workable(o) && !o.isCallee
      requires (lam == o.id && o.id in expand) || (o.id in exp2orig && lam == exp2orig[o.id])
      requires |def2newOps[def]| == |def2ops[def]| && lam < gid
      modifies this`exp2orig, this`def2newOps, this`place, this`gid
      ensures Valid() && gid == old(gid) + 1 && exp2orig == old(exp2orig)[old(gid) := lam]
      ensures def2newOps == old(def2newOps)[def := SetOp(old(def2newOps)[def], i, old(gid))]
    {
      ghost var exp2orig0, place0, ops0 := exp2orig, place, def2newOps;
      var exp := gid;
      exp2orig, place, gid := exp2orig[exp := lam], place[exp := (def, i)], gid + 1;
      def2newOps := def2newOps[def := SetOp(def2newOps[def], i, exp)];
      forall d {:trigger def2newOps[d]} | d in def2newOps
        ensures OpsOk(expand, exp2orig, place, gid, d, def2ops[d], def2newOps[d])
      {
        assert OpsOk(expand, exp2orig0, place0, exp, d, def2ops[d], ops0[d]);
        OpsStay(expand, exp2orig0, place0, exp, lam, d, def2ops[d], ops0[d], (def, i));
        if d == def { OpsSet(expand, exp2orig, place, gid, def, def2ops[def], ops0[def], i, exp); }
      }
    }

    /** Some pass made newLam out of oldLam. */
    method AddNew(newLam: nat, oldLam: nat)
      requires Valid() && oldLam < newLam
      modifies this`new2old
      ensures Valid() && new2old == old(new2old)[newLam := oldLam]
    {
      new2old := new2old[newLam := oldLam];
    }

    /** The original of newLam; the way there is made shorter. */
    method NewToOld(newLam: nat) returns (root: nat)
      requires Valid()
      modifies this`new2old
      ensures Valid() && SameRoots(old(new2old), new2old)
      ensures root == Root(old(new2old), newLam)
      ensures newLam in new2old ==> new2old[newLam] == root
      decreases newLam
    {
      if newLam in new2old {
        ghost var was := new2old;
        root := NewToOld(new2old[newLam]);
        RootIsEnd(was, was[newLam]);
        forall n
          ensures Root(new2old[newLam := root], n) == Root(new2old, n)
        {
          Compressed(new2old, newLam, n);
        }
        new2old := new2old[newLam := root];
        return;
      }
      return newLam;
    }

    /** A proxy asks for lam to be expanded. */
    method AnalyzeProxy(lam: nat) returns (undo: bool)
      requires Valid()
      modifies this`expand
      ensures Valid() && expand == old(expand) + {lam} && undo == (lam !in old(expand))
    {
      undo := lam !in expand;
      AddExpand(lam);
    }

    method AddExpand(lam: nat)
      requires Valid()
      modifies this`expand
      ensures Valid() && expand == old(expand) + {lam}
    {
      ghost var was := expand;
      expand := expand + {lam};
      forall d {:trigger def2newOps[d]} | d in def2newOps
        ensures OpsOk(expand, exp2orig, place, gid, d, def2ops[d], def2newOps[d])
      {
        OpsGrow(was, expand, exp2orig, place, gid, d, def2ops[d], def2newOps[d]);
      }
    }

    /** The lattice element of lam after one more occurrence, unless that is one too many. */
    static method Classify(pos: map<nat, Pos>, ghost seen: map<nat, Seen>, lam: nat, isCallee: bool)
      returns (top: map<nat, Pos>, undo: bool)
      requires Tells(pos, seen, lam)
      ensures undo == !Fine(Meet(seen, lam, isCallee)[lam]) && (!undo ==> Tells(top, Meet(seen, lam, isCallee), lam))
      ensures forall n: nat | n != lam :: Tells(pos, seen, n) ==> Tells(top, Meet(seen, lam, isCallee), n)
    {
      top := pos;
      if isCallee {
        if lam !in top { top := top[lam := Callee]; }
        undo := top[lam] == NonCallee1;
      } else {
        undo := lam in top;
        if lam !in top { top := top[lam := NonCallee1]; }
      }
    }

    /** lam occurs as an operand. If that is one occurrence too many, it is to be expanded and undone. */
    method AnalyzeOp(lam: nat, isCallee: bool) returns (root: nat, undo: bool)
      requires Valid()
      modifies this`expand, this`new2old, this`pos, this`seen
      ensures Valid() && SameRoots(old(new2old), new2old)
      ensures |pos| == |old(pos)| && pos[..|pos| - 1] == old(pos[..|pos| - 1])
              && seen[..|pos| - 1] == old(seen[..|pos| - 1])
      ensures root == Root(old(new2old), lam)
      ensures var k := |pos| - 1;
              if root in old(expand) || root in exp2orig then
                !undo && expand == old(expand) && pos == old(pos) && seen == old(seen)
              else
                && seen[k] == Meet(old(seen)[k], root, isCallee)
                && undo == !Fine(seen[k][root])
                && expand == old(expand) + if undo then {root} else {}
    {
      undo := false;
      root := NewToOld(lam);
      if root in expand || root in exp2orig {
        return;
      }
      undo := Record(root, isCallee);
    }

    /** One more occurrence of a function that is neither to be expanded nor an expansion. */
    method Record(root: nat, isCallee: bool) returns (undo: bool)
      requires Valid() && root !in expand && root !in exp2orig
      modifies this`expand, this`pos, this`seen
      ensures Valid() && |pos| == |old(pos)| && |seen| == |old(seen)|
      ensures pos[..|pos| - 1] == old(pos[..|pos| - 1]) && seen[..|pos| - 1] == old(seen[..|pos| - 1])
      ensures seen[|pos| - 1] == Meet(old(seen)[|pos| - 1], root, isCallee)
      ensures undo == !Fine(seen[|pos| - 1][root]) && expand == old(expand) + if undo then {root} else {}
    {
      var k := |pos| - 1;
      assert Tells(pos[k], seen[k], root);
      var top;
      top, undo := Classify(pos[k], seen[k], root, isCallee);
      if undo {
        AddExpand(root);
      }
      pos, seen := pos[k := top], seen[k := Meet(seen[k], root, isCallee)];
      TopTells(old(pos), old(seen), old(expand) + exp2orig.Keys, top, seen[k], expand + exp2orig.Keys, root);
    }

    method AnalyzeOps(ops: seq<Occurrence>) returns (undo: seq<nat>)
      requires Valid()
      modifies this`expand, this`new2old, this`pos, this`seen
      ensures Valid() && SameRoots(old(new2old), new2old) && old(expand) <= expand
      ensures forall n :: n in undo <==> n in expand && n !in old(expand)
      ensures |pos| == |old(pos)| && pos[..|pos| - 1] == old(pos[..|pos| - 1])
              && seen[..|pos| - 1] == old(seen[..|pos| - 1])
      ensures Counted(expand, exp2orig, seen[|pos| - 1], old(seen[|pos| - 1]), ops, old(new2old), old(expand))
    {
      undo := [];
      ghost var k, roots, before := |pos| - 1, new2old, seen[|pos| - 1];
      NoneCounted(pos[k], expand, exp2orig, before, ops, roots);
      for i := 0 to |ops|
        invariant Valid() && SameRoots(roots, new2old) && old(expand) <= expand
        invariant forall n :: n in undo <==> n in expand && n !in old(expand)
        invariant |pos| == k + 1 && pos[..k] == old(pos[..k]) && seen[..k] == old(seen[..k])
        invariant Counted(expand, exp2orig, seen[k], before, ops[..i], roots, old(expand))
      {
        ghost var expand0, seen0 := expand, seen[k];
        var root, u := AnalyzeOp(ops[i].lam, ops[i].isCallee);
        if u {
          undo := undo + [root];
        }
        CountedNext(expand0, expand, exp2orig, seen0, seen[k], before, ops, i, roots, old(expand), u);
      }
      assert ops[..|ops|] == ops;
    }

    /** All operands of a definition that are functions. A function is to be expanded exactly if the occurrences seen so
        far and those in ops are too many together; else the top lattice element is that of all these occurrences. */
    method Analyze(ops: seq<Occurrence>) returns (undo: seq<nat>)
      requires Valid()
      modifies this`expand, this`new2old, this`pos, this`seen
      ensures Valid() && SameRoots(old(new2old), new2old) && old(expand) <= expand
      ensures forall n :: n in undo <==> n in expand && n !in old(expand)
      ensures |pos| == |old(pos)| && pos[..|pos| - 1] == old(pos[..|pos| - 1])
              && seen[..|pos| - 1] == old(seen[..|pos| - 1])
      ensures forall f {:trigger f in expand} | f !in old(expand) && f !in exp2orig ::
                var all := Together(old(seen[|pos| - 1]), ops, old(new2old), f);
                && (f in expand <==> !(all.other == 0 || (all.other == 1 && all.callee == 0)))
                && (f !in expand ==> SeenOf(seen[|pos| - 1], f) == all && Element(pos[|pos| - 1], f, all))
    {
      undo := AnalyzeOps(ops);
      forall f | f !in expand && f !in exp2orig
        ensures Tells(pos[|pos| - 1], seen[|pos| - 1], f)
      {
        assert f !in expand + exp2orig.Keys;
      }
    }
  }

  lemma NoneCounted(pos: map<nat, Pos>, expand: set<nat>, exp2orig: map<nat, nat>, seen: map<nat, Seen>,
                    ops: seq<Occurrence>, roots: map<nat, nat>)
    requires forall n | n in roots :: roots[n] < n
    requires forall f {:trigger Tells(pos, seen, f)} | f !in expand + exp2orig.Keys :: Tells(pos, seen, f)
    ensures Counted(expand, exp2orig, seen, seen, ops[..0], roots, expand)
  {
    forall f {:trigger f in expand} | f !in expand && f !in exp2orig
      ensures Fine(Together(seen, ops[..0], roots, f)) && SeenOf(seen, f) == Together(seen, ops[..0], roots, f)
    {
      assert Places(ops[..0], roots, f, true) == {} && Places(ops[..0], roots, f, false) == {};
      assert Tells(pos, seen, f);
    }
  }

  /** These occurrences have been analyzed. */
  ghost predicate Counted(expand: set<nat>, exp2orig: map<nat, nat>, seen: map<nat, Seen>, before: map<nat, Seen>,
                          ops: seq<Occurrence>, roots: map<nat, nat>, settled: set<nat>)
    requires forall n | n in roots :: roots[n] < n
  {
    forall f {:trigger f in expand} | f !in settled && f !in exp2orig ::
      && (f in expand <==> !Fine(Together(before, ops, roots, f)))
      && (f !in expand ==> SeenOf(seen, f) == Together(before, ops, roots, f))
  }

  lemma CountedNext(expand: set<nat>, expand': set<nat>, exp2orig: map<nat, nat>, seen: map<nat, Seen>,
                    seen': map<nat, Seen>, before: map<nat, Seen>, ops: seq<Occurrence>, i: nat, roots: map<nat, nat>,
                    settled: set<nat>, undo: bool)
    requires i < |ops| && (forall n | n in roots :: roots[n] < n) && settled <= expand
    requires Counted(expand, exp2orig, seen, before, ops[..i], roots, settled)
    requires var root := Root(roots, ops[i].lam);
             if root in expand || root in exp2orig then expand' == expand && seen' == seen
             else
               && seen' == Meet(seen, root, ops[i].isCallee) && undo == !Fine(seen'[root])
               && expand' == expand + if undo then {root} else {}
    ensures Counted(expand', exp2orig, seen', before, ops[..i + 1], roots, settled)
  {
    forall f {:trigger f in expand'} | f !in settled && f !in exp2orig
      ensures f in expand' <==> !Fine(Together(before, ops[..i + 1], roots, f))
      ensures f !in expand' ==> SeenOf(seen', f) == Together(before, ops[..i + 1], roots, f)
    {
      TogetherNext(before, ops, i, roots, f);
      assert f in expand <==> !Fine(Together(before, ops[..i], roots, f));
    }
  }
}
