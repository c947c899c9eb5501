/** Substitution for the variable of a nominal that leaves alone what is not bound. */
module ScopeRewrite {
  import opened Wrappers
  import opened Scopes

  /** Plain substitution: arg for v in structural definitions, which are built anew from their operands. */
  function Subst(g: Defs, rebuild: (nat, seq<nat>) -> nat, v: Option<nat>, arg: nat, d: nat): nat
    decreases d, 1
  {
    if v == Some(d) then arg
    else if g.Nom(d) || d >= |g.ops| then d
    else rebuild(d, SubstUpTo(g, rebuild, v, arg, d, |g.ops[d]|))
  }

  function SubstUpTo(g: Defs, rebuild: (nat, seq<nat>) -> nat, v: Option<nat>, arg: nat, d: nat, k: nat): seq<nat>
    requires d < |g.ops| && k <= |g.ops[d]|
    decreases d, 0, k
  {
    if k == 0 then []
    else
      var o := g.ops[d][k - 1];
      SubstUpTo(g, rebuild, v, arg, d, k - 1) + [if o < d then Subst(g, rebuild, v, arg, o) else o]
  }

  /** Building a structural definition from its own operands gives itself. */
  ghost predicate Unified(g: Defs, rebuild: (nat, seq<nat>) -> nat) {
    forall d | 0 <= d < |g.ops| && !g.Nom(d) :: rebuild(d, g.ops[d]) == d
  }

  /** What does not refer to the variable stays the same. */
  lemma {:induction false} SubstUnbound(g: Defs, rebuild: (nat, seq<nat>) -> nat, entry: nat, exit: nat, v: Option<nat>,
                                        arg: nat, d: nat)
    requires g.Valid() && Unified(g, rebuild) && g.Nom(entry) && g.Nom(exit) && !Refers(g, entry, exit, v, d)
    requires v.Some? ==> v.value != entry && v.value != exit && v.value < |g.ops|
    ensures Subst(g, rebuild, v, arg, d) == d
    decreases d, 1
  {
    if v == Some(d) {
      assert g.Path([d], entry, exit);
    } else if !g.Nom(d) && d < |g.ops| {
      SubstUnboundUpTo(g, rebuild, entry, exit, v, arg, d, |g.ops[d]|);
      assert g.ops[d][..|g.ops[d]|] == g.ops[d];
    }
  }

  lemma {:induction false} SubstUnboundUpTo(g: Defs, rebuild: (nat, seq<nat>) -> nat, entry: nat, exit: nat,
                                            v: Option<nat>, arg: nat, d: nat, k: nat)
    requires g.Valid() && Unified(g, rebuild) && g.Nom(entry) && g.Nom(exit) && !Refers(g, entry, exit, v, d)
    requires v.Some? ==> v.value != entry && v.value != exit && v.value < |g.ops|
    requires d < |g.ops| && !g.Nom(d) && k <= |g.ops[d]|
    ensures SubstUpTo(g, rebuild, v, arg, d, k) == g.ops[d][..k]
    decreases d, 0, k
  {
    if k > 0 {
      var o := g.ops[d][k - 1];
      SubstUnboundUpTo(g, rebuild, entry, exit, v, arg, d, k - 1);
      assert g.Uses(d, o) && o < d;
      if o == entry || o == exit {
        NominalStays(g, rebuild, v, arg, o);
      } else {
        if Refers(g, entry, exit, v, o) { RefersStep(g, entry, exit, v, d, o); }
        SubstUnbound(g, rebuild, entry, exit, v, arg, o);
      }
      SubstNext(g, rebuild, v, arg, d, k);
    }
  }

  lemma SubstNext(g: Defs, rebuild: (nat, seq<nat>) -> nat, v: Option<nat>, arg: nat, d: nat, k: nat)
    requires d < |g.ops| && 0 < k <= |g.ops[d]| && g.ops[d][k - 1] < d
    requires SubstUpTo(g, rebuild, v, arg, d, k - 1) == g.ops[d][..k - 1]
    requires Subst(g, rebuild, v, arg, g.ops[d][k - 1]) == g.ops[d][k - 1]
    ensures SubstUpTo(g, rebuild, v, arg, d, k) == g.ops[d][..k]
  {
  }

  lemma NominalStays(g: Defs, rebuild: (nat, seq<nat>) -> nat, v: Option<nat>, arg: nat, d: nat)
    requires g.Nom(d) && v != Some(d)
    ensures Subst(g, rebuild, v, arg, d) == d
  {
  }

  function Meanings<V>(mean: nat -> V, ds: seq<nat>): seq<V> {
    seq(|ds|, i requires 0 <= i < |ds| => mean(ds[i]))
  }

  /** What is built from operands means what op makes of their meanings. */
  ghost predicate Builds<V(!new)>(g: Defs, rebuild: (nat, seq<nat>) -> nat, op: (nat, seq<V>) -> V, mean: nat -> V) {
    forall d: nat, ops {:trigger rebuild(d, ops)} | d < |g.ops| && !g.Nom(d) && |ops| == |g.ops[d]| ::
      mean(rebuild(d, ops)) == op(d, Meanings(mean, ops))
  }

  /** What definitions mean when v is x: structural ones what op makes of their operands, others what they meant. */
  ghost predicate IsReading<V(!new)>(g: Defs, op: (nat, seq<V>) -> V, mean: nat -> V, v: Option<nat>, x: V,
                                     reading: nat -> V) {
    && (v.Some? ==> reading(v.value) == x)
    && forall d: nat {:trigger reading(d)} | v != Some(d) ::
         reading(d) == if g.Nom(d) || d >= |g.ops| then mean(d) else op(d, Meanings(reading, g.ops[d]))
  }

  /** Substitution means giving the variable the meaning of what takes its place, wherever it occurs. */
  lemma {:induction false} SubstMeans<V(!new)>(g: Defs, rebuild: (nat, seq<nat>) -> nat, op: (nat, seq<V>) -> V,
                                               mean: nat -> V, v: Option<nat>, arg: nat, reading: nat -> V, d: nat)
    requires g.Valid() && Builds(g, rebuild, op, mean) && IsReading(g, op, mean, v, mean(arg), reading)
    ensures mean(Subst(g, rebuild, v, arg, d)) == reading(d)
    decreases d, 1
  {
    if v != Some(d) && !g.Nom(d) && d < |g.ops| {
      var n := |g.ops[d]|;
      SubstUpToMeans(g, rebuild, op, mean, v, arg, reading, d, n);
      var ops := SubstUpTo(g, rebuild, v, arg, d, n);
      assert g.ops[d][..n] == g.ops[d];
      assert mean(rebuild(d, ops)) == op(d, Meanings(mean, ops));
    }
  }

  lemma {:induction false} SubstUpToMeans<V(!new)>(g: Defs, rebuild: (nat, seq<nat>) -> nat, op: (nat, seq<V>) -> V,
                                                   mean: nat -> V, v: Option<nat>, arg: nat, reading: nat -> V, d: nat,
                                                   k: nat)
    requires g.Valid() && Builds(g, rebuild, op, mean) && IsReading(g, op, mean, v, mean(arg), reading)
    requires d < |g.ops| && !g.Nom(d) && k <= |g.ops[d]|
    ensures |SubstUpTo(g, rebuild, v, arg, d, k)| == k
    ensures Meanings(mean, SubstUpTo(g, rebuild, v, arg, d, k)) == Meanings(reading, g.ops[d][..k])
    decreases d, 0, k
  {
    if k > 0 {
      var o := g.ops[d][k - 1];
      SubstUpToMeans(g, rebuild, op, mean, v, arg, reading, d, k - 1);
      assert o in g.ops[d] && o < d;
      SubstMeans(g, rebuild, op, mean, v, arg, reading, o);
      MeaningsSnoc(mean, SubstUpTo(g, rebuild, v, arg, d, k - 1), Subst(g, rebuild, v, arg, o));
      MeaningsSnoc(reading, g.ops[d][..k - 1], o);
      assert g.ops[d][..k] == g.ops[d][..k - 1] + [o];
    }
  }

  lemma MeaningsSnoc<V>(mean: nat -> V, ds: seq<nat>, d: nat)
    ensures Meanings(mean, ds + [d]) == Meanings(mean, ds) + [mean(d)]
  {
  }

  /** There is such a reading. */
  function Reading<V>(g: Defs, op: (nat, seq<V>) -> V, mean: nat -> V, v: Option<nat>, x: V, d: nat): V {
    if v == Some(d) then x
    else if g.Nom(d) || d >= |g.ops| then mean(d)
    else
      var ops := g.ops[d];
      op(d, seq(|ops|, i requires 0 <= i < |ops| => if ops[i] < d then Reading(g, op, mean, v, x, ops[i]) else x))
  }

  lemma ReadingExists<V(!new)>(g: Defs, op: (nat, seq<V>) -> V, mean: nat -> V, v: Option<nat>, x: V)
    requires g.Valid()
    ensures IsReading(g, op, mean, v, x, (d: nat) => Reading(g, op, mean, v, x, d))
  {
    var reading := (d: nat) => Reading(g, op, mean, v, x, d);
    forall d: nat {:trigger reading(d)} | v != Some(d)
      ensures reading(d) == if g.Nom(d) || d >= |g.ops| then mean(d) else op(d, Meanings(reading, g.ops[d]))
    {
      if !g.Nom(d) && d < |g.ops| {
        var ops := g.ops[d];
        assert forall i | 0 <= i < |ops| :: ops[i] in ops && ops[i] < d;
        assert Meanings(reading, ops)
            == seq(|ops|, i requires 0 <= i < |ops| => if ops[i] < d then Reading(g, op, mean, v, x, ops[i]) else x);
      }
    }
  }

  class ScopeRewriter {
    const scope: Scope
    const rebuild: (nat, seq<nat>) -> nat
    ghost const arg: nat
    var old2new: map<nat, nat>

    ghost predicate Valid()
      reads this, scope
    {
      && scope.Valid() && scope.hasBound && scope.g.Nom(scope.exit) && Unified(scope.g, rebuild)
      && (forall d | d in scope.bound :: !scope.g.Nom(d))
      && (scope.entryVar.Some? ==> scope.entryVar.value in old2new)
      && (forall d {:trigger d in old2new} | d in old2new ::
          old2new[d] == Subst(scope.g, rebuild, scope.entryVar, arg, d))
    }

    /** arg is to take the place of the variable. */
    constructor (scope: Scope, rebuild: (nat, seq<nat>) -> nat, arg: nat)
      requires scope.Valid() && scope.hasBound && scope.g.Nom(scope.exit) && Unified(scope.g, rebuild)
      requires forall d | d in scope.bound :: !scope.g.Nom(d)
      ensures Valid() && this.scope == scope && this.rebuild == rebuild && this.arg == arg
    {
      this.scope, this.rebuild, this.arg := scope, rebuild, arg;
      old2new := if scope.entryVar.Some? then map[scope.entryVar.value := arg] else map[];
    }

    /** Rewrites what is bound, once, and nothing else; the result is that of plain substitution. */
    method Rewrite(d: nat) returns (r: nat)
      requires Valid() && (d == scope.entry || d == scope.exit || Reached(scope.g, scope.entry, scope.exit, d))
      modifies this`old2new
      ensures Valid() && r == Subst(scope.g, rebuild, scope.entryVar, arg, d)
      ensures forall e | e in old(old2new) :: e in old2new && old2new[e] == old(old2new)[e]
      decreases d, 1
    {
      if d !in scope.bound {
        Unbound(d);
        return d;
      }
      if d in old2new {
        return old2new[d];
      }
      r := RewriteStructural(d);
      old2new := old2new[d := r];
    }

    method RewriteStructural(d: nat) returns (r: nat)
      requires Valid() && d in scope.bound && scope.entryVar != Some(d)
      modifies this`old2new
      ensures Valid() && r == Subst(scope.g, rebuild, scope.entryVar, arg, d)
      ensures forall e | e in old(old2new) :: e in old2new && old2new[e] == old(old2new)[e]
      decreases d, 0
    {
      var g := scope.g;
      BoundRange(d);
      var newOps := [];
      for i := 0 to |g.ops[d]|
        invariant Valid() && newOps == SubstUpTo(g, rebuild, scope.entryVar, arg, d, i)
        invariant forall e | e in old(old2new) :: e in old2new && old2new[e] == old(old2new)[e]
      {
        var o := g.ops[d][i];
        OperandReached(d, o);
        var newOp := Rewrite(o);
        newOps := newOps + [newOp];
      }
      r := rebuild(d, newOps);
    }

    lemma BoundRange(d: nat)
      requires Valid() && d in scope.bound
      ensures d < |scope.g.ops| && !scope.g.Nom(d)
    {
      scope.InRange(d);
    }

    lemma OperandReached(d: nat, o: nat)
      requires Valid() && d in scope.bound && scope.g.Uses(d, o)
      ensures o < d && (o == scope.entry || o == scope.exit || Reached(scope.g, scope.entry, scope.exit, o))
    {
      BoundRange(d);
      if o != scope.entry && o != scope.exit { ReachedStep(scope.g, scope.entry, scope.exit, d, o); }
    }

    lemma Unbound(d: nat)
      requires Valid() && d !in scope.bound
               && (d == scope.entry || d == scope.exit || Reached(scope.g, scope.entry, scope.exit, d))
      ensures Subst(scope.g, rebuild, scope.entryVar, arg, d) == d
    {
      if d == scope.entry || d == scope.exit {
        NominalStays(scope.g, rebuild, scope.entryVar, arg, d);
      } else {
        SubstUnbound(scope.g, rebuild, scope.entry, scope.exit, scope.entryVar, arg, d);
      }
    }
  }
}
