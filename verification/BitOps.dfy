/** Normalization of comparisons and of bit operations on two operands. */
module BitOps {
  import opened Wrappers
  import opened Bitwise
  import opened Comparisons
  import opened Terms

  /** Builds a comparison of a and b. */
  function MkIcmp(gid: Term -> nat, rel: nat, a: Term, b: Term): (r: Term)
    requires Ok(a) && Ok(b) && Width(a) == Width(b) && rel < 32
    ensures Ok(r) && Width(r) == 1 && Size(r) <= 1 + Size(a) + Size(b)
  {
    var w := Width(a);
    if a.Lit? && b.Lit? then Lit(1, Bit(FoldIcmp(rel, w, a.v % Pow2(w), b.v % Pow2(w))))
    else
      var (x, y) := if rel == 1 || rel == 30 then Commute(gid, a, b) else (a, b);
      if rel == 0 then Lit(1, 0)
      else if rel == 31 then Lit(1, 1)
      else if x == y && rel == 1 then Lit(1, 1)
      else if x == y && rel == 30 then Lit(1, 0)
      else Icmp(rel, x, y)
  }

  lemma MkIcmpMeans(gid: Term -> nat, rel: nat, a: Term, b: Term, env: Env)
    requires Ok(a) && Ok(b) && Width(a) == Width(b) && rel < 32
    ensures Eval(MkIcmp(gid, rel, a, b), env) == Compare(rel, Width(a), Eval(a, env), Eval(b, env))
  {
    var w, u, v := Width(a), Eval(a, env), Eval(b, env);
    EvalBound(a, env);
    EvalBound(b, env);
    BitValue(0, env);
    BitValue(1, env);
    if a.Lit? && b.Lit? {
    } else {
      IcmpFacts(rel, w, u, v);
      IcmpValue(rel, a, b, env);
      IcmpValue(rel, b, a, env);
    }
  }

  /** A comparison as a word of one bit. */
  function Compare(rel: nat, w: nat, u: nat, v: nat): nat
    requires w > 0
  {
    Bit(FoldIcmp(rel, w, u, v))
  }

  lemma IcmpValue(rel: nat, a: Term, b: Term, env: Env)
    requires Width(a) > 0
    ensures Eval(Icmp(rel, a, b), env) == Compare(rel, Width(a), Eval(a, env), Eval(b, env))
  {
  }

  lemma BitValue(v: nat, env: Env)
    requires v <= 1
    ensures Eval(Lit(1, v), env) == v
  {
    assert Pow2(1) == 2;
  }

  /** Equality and its negation are symmetric; no relation never holds, all relations always do. */
  lemma IcmpFacts(rel: nat, w: nat, u: nat, v: nat)
    requires w > 0 && u < Pow2(w) && v < Pow2(w) && rel < 32
    ensures rel == 1 || rel == 30 ==> Compare(rel, w, u, v) == Compare(rel, w, v, u)
    ensures u == v && (rel == 1 || rel == 30) ==> Compare(rel, w, u, v) == if rel == 1 then 1 else 0
    ensures (rel == 0 ==> Compare(rel, w, u, v) == 0) && (rel == 31 ==> Compare(rel, w, u, v) == 1)
  {
    Aliases(w, u, v);
    Aliases(w, v, u);
    FoldIcmpMeans(rel, w, u, v);
    BitsOf(0, false, false, false, false, false);
    BitsOf(31, true, true, true, true, true);
  }

  /** The table the normalizer works with; it has the mixed entries the other way round. */
  function CodeTable(sub: nat): Table {
    Table(Masked(sub, 1), Masked(sub, 4), Masked(sub, 2), Masked(sub, 8))
  }

  predicate IsAssociative(sub: nat) {
    sub == 6 || sub == 8 || sub == 9 || sub == 14
  }

  /** Both are comparisons of the same operands. */
  predicate Mergeable(a: Term, b: Term) {
    a.Icmp? && b.Icmp? && a.a == b.a && a.b == b.b
  }

  function Rank(sub: nat): nat {
    if sub == 2 || sub == 13 then 2 else if sub == 6 then 0 else 1
  }

  function Allones(w: nat): Term {
    Lit(w, Ones(w))
  }

  /** Folds literals on 64 bits; negative results are cut back. */
  function FoldBits(sub: nat, w: nat, x: nat, y: nat): nat {
    var r := Bits(DocTable(sub), 64, x, y);
    if sub == 8 || sub == 14 || sub == 6 || sub == 4 then r else r % Pow2(w)
  }

  predicate HasLit(sub: nat, t: Term) {
    t.Bit2? && t.sub == sub && t.a.Lit?
  }

  /** Builds a sub b. The subtags are, in order: f nor nciff na niff nb xor nand and nxor b iff a ciff or t. */
  function MkBit2(gid: Term -> nat, sub: nat, a: Term, b: Term): (r: Term)
    requires Ok(a) && Ok(b) && Width(a) == Width(b) && sub < 16
    ensures Ok(r) && Width(r) == Width(a) && Size(r) <= 1 + Size(a) + Size(b) && (a.Lit? && b.Lit? ==> r.Lit?)
    decreases Rank(sub), Size(a) + Size(b), if a.Lit? || b.Lit? then 0 else 1, 2
  {
    var t := CodeTable(sub);
    var (x, y) := if t.Symmetric() then Commute(gid, a, b) else (a, b);
    SubsBound(t, x, y);
    AssociativeSymmetric(sub);
    if Mergeable(x, y) then MkIcmp(gid, Bits(t, 5, x.rel, y.rel), x.a, x.b) else Simplify(gid, sub, x, y)
  }

  lemma SubsBound(t: Table, a: Term, b: Term)
    ensures a.Icmp? && b.Icmp? ==> Bits(t, 5, a.rel, b.rel) < 32
  {
    if a.Icmp? && b.Icmp? { BitsBound(t, 5, a.rel, b.rel); }
    assert Pow2(3) == 8 && Pow2(5) == 32;
  }

  lemma AssociativeSymmetric(sub: nat)
    ensures IsAssociative(sub) ==>
              CodeTable(sub).Symmetric() && CodeTable(sub) == DocTable(sub) && Associative(DocTable(sub))
  {
  }

  function Simplify(gid: Term -> nat, sub: nat, a: Term, b: Term): (r: Term)
    requires Ok(a) && Ok(b) && Width(a) == Width(b) && sub < 16
    requires IsAssociative(sub) && !a.Lit? ==> !b.Lit?
    ensures Ok(r) && Width(r) == Width(a) && Size(r) <= 1 + Size(a) + Size(b) && (a.Lit? && b.Lit? ==> r.Lit?)
    decreases Rank(sub), Size(a) + Size(b), if a.Lit? || b.Lit? then 0 else 1, 1
  {
    var w := Width(a);
    WordBound(w);
    FoldBitsBound(sub, w, a, b);
    if sub == 0 then Lit(w, 0)
    else if sub == 15 then Allones(w)
    else if sub == 12 then a
    else if sub == 10 then b
    else if sub == 3 then Negate(gid, a)
    else if sub == 5 then Negate(gid, b)
    else if sub == 13 then MkBit2(gid, 11, b, a)
    else if sub == 2 then MkBit2(gid, 4, b, a)
    else if a.Lit? && b.Lit? then Lit(w, FoldBits(sub, w, a.v, b.v))
    else match OneOperand(gid, sub, a, b)
      case Some(r) => r
      case None =>
        if IsAssociative(sub) then Reassociate(gid, sub, a, b) else Bit2(sub, a, b)
  }

  lemma FoldBitsBound(sub: nat, w: nat, a: Term, b: Term)
    requires IsWord(w)
    ensures a.Lit? && b.Lit? ==> FoldBits(sub, w, a.v, b.v) < MAX_WORD
  {
    WordSizes();
    WordBound(w);
    if a.Lit? && b.Lit? { BitsBound(DocTable(sub), 64, a.v, b.v); }
  }

  function Negate(gid: Term -> nat, a: Term): (r: Term)
    requires Ok(a)
    ensures Ok(r) && Width(r) == Width(a) && Size(r) <= 2 + Size(a) && (a.Lit? ==> r.Lit?)
    decreases 0, 1 + Size(a), 1, 3
  {
    WordBound(Width(a));
    MkBit2(gid, 6, Allones(Width(a)), a)
  }

  /** What is left when both operands are the same, or one is a literal without or with all bits. */
  function OneOperand(gid: Term -> nat, sub: nat, a: Term, b: Term): (r: Option<Term>)
    requires Ok(a) && Ok(b) && Width(a) == Width(b) && sub < 16 && Rank(sub) < 2
    ensures r.Some? ==> Ok(r.value) && Width(r.value) == Width(a) && Size(r.value) <= 1 + Size(a) + Size(b)
    decreases Rank(sub), Size(a) + Size(b), if a.Lit? || b.Lit? then 0 else 1, 0
  {
    var t := CodeTable(sub);
    var same := if t.Symmetric() && a == b then Unary(gid, sub, t.t00, t.t11, a) else None;
    if same.Some? then same
    else
      var left := Fixed(gid, sub, t.t00, t.t01, t.t10, t.t11, a, b);
      if left.Some? then left else Fixed(gid, sub, t.t00, t.t10, t.t01, t.t11, b, a)
  }

  /** The operation on x when the other operand is a literal with no bits or all bits. */
  function Fixed(gid: Term -> nat, sub: nat, z0: bool, z1: bool, o0: bool, o1: bool, lit: Term,
                 x: Term): (r: Option<Term>)
    requires Ok(lit) && Ok(x) && Width(lit) == Width(x) && sub < 16 && Rank(sub) < 2
    ensures r.Some? ==> Ok(r.value) && Width(r.value) == Width(x) && Size(r.value) <= 2 + Size(x)
    decreases Rank(sub), 0, 0, 1
  {
    if lit == Lit(Width(x), 0) then Unary(gid, sub, z0, z1, x)
    else if lit == Allones(Width(x)) then Unary(gid, sub, o0, o1, x)
    else None
  }

  /** A function of one bit applied to a; an exclusive or is not turned into a negation, which it is. */
  function Unary(gid: Term -> nat, sub: nat, f0: bool, f1: bool, a: Term): (r: Option<Term>)
    requires Ok(a) && sub < 16 && Rank(sub) < 2
    ensures r.Some? ==> Ok(r.value) && Width(r.value) == Width(a) && Size(r.value) <= 2 + Size(a)
    decreases Rank(sub), 0, 0, 0
  {
    WordBound(Width(a));
    if !f0 && !f1 then Some(Lit(Width(a), 0))
    else if f0 && f1 then Some(Allones(Width(a)))
    else if f1 then Some(a)
    else if sub != 6 then Some(Negate(gid, a))
    else None
  }

  /** Moves literals together and to the left. */
  function Reassociate(gid: Term -> nat, sub: nat, a: Term, b: Term): (r: Term)
    requires Ok(a) && Ok(b) && Width(a) == Width(b) && IsAssociative(sub) && !b.Lit?
    ensures Ok(r) && Width(r) == Width(a) && Size(r) <= 1 + Size(a) + Size(b)
    decreases Rank(sub), Size(a) + Size(b), if a.Lit? || b.Lit? then 0 else 1, 0
  {
    if a.Lit? && HasLit(sub, b) then MkBit2(gid, sub, MkBit2(gid, sub, a, b.a), b.b)
    else if HasLit(sub, a) && HasLit(sub, b)
        then MkBit2(gid, sub, MkBit2(gid, sub, a.a, b.a), MkBit2(gid, sub, a.b, b.b))
    else if HasLit(sub, b) then MkBit2(gid, sub, b.a, MkBit2(gid, sub, a, b.b))
    else if HasLit(sub, a) then MkBit2(gid, sub, a.a, MkBit2(gid, sub, a.b, b))
    else Bit2(sub, a, b)
  }

  /** The cases in which the normalizer confuses the operands: the operation is not symmetric, and either two
      comparisons are merged, or an implication has a literal operand without or with all bits. */
  predicate Confused(sub: nat, a: Term, b: Term) {
    && !DocTable(sub).Symmetric()
    && (Mergeable(a, b) || ((sub == 4 || sub == 11 || sub == 2 || sub == 13) && !(a.Lit? && b.Lit?)
        && (IsExtreme(a) || IsExtreme(b))))
  }

  predicate IsExtreme(t: Term) {
    t.Lit? && (t.v == 0 || t.v == Ones(t.w))
  }

  ghost function BitsOfTerms(sub: nat, a: Term, b: Term, env: Env): nat {
    Bits(DocTable(sub), Width(a), Eval(a, env), Eval(b, env))
  }

  /** The value that the normalizer gives. */
  ghost function Given(sub: nat, a: Term, b: Term, env: Env): nat {
    if Confused(sub, a, b) then BitsOfTerms(sub, b, a, env) else BitsOfTerms(sub, a, b, env)
  }

  lemma TablesSwapped(sub: nat)
    ensures CodeTable(sub) == DocTable(sub).Swap() && (DocTable(sub).Symmetric() <==> CodeTable(sub).Symmetric())
    ensures DocTable(sub).Symmetric() ==> CodeTable(sub) == DocTable(sub)
  {
  }

  /** What the sixteen subtags stand for, as documented. */
  lemma DocTables()
    ensures DocTable(0) == Table(false, false, false, false) && DocTable(15) == Table(true, true, true, true)
    ensures DocTable(12) == Table(false, false, true, true) && DocTable(10) == Table(false, true, false, true)
    ensures DocTable(3) == Table(true, true, false, false) && DocTable(5) == Table(true, false, true, false)
    ensures DocTable(11) == Table(true, true, false, true) && DocTable(13) == DocTable(11).Swap()
    ensures DocTable(4) == Table(false, false, true, false) && DocTable(2) == DocTable(4).Swap()
    ensures DocTable(6) == Table(false, true, true, false)
  {
  }

  lemma {:induction false} MkBit2Means(gid: Term -> nat, sub: nat, a: Term, b: Term, env: Env)
    requires Ok(a) && Ok(b) && Width(a) == Width(b) && sub < 16
    ensures Eval(MkBit2(gid, sub, a, b), env) == Given(sub, a, b, env)
    decreases Rank(sub), Size(a) + Size(b), if a.Lit? || b.Lit? then 0 else 1, 2
  {
    var t, w := CodeTable(sub), Width(a);
    TablesSwapped(sub);
    AssociativeSymmetric(sub);
    var (x, y) := if t.Symmetric() then Commute(gid, a, b) else (a, b);
    BitsSwap(DocTable(sub), w, Eval(a, env), Eval(b, env));
    if Mergeable(x, y) {
      MergedMeans(gid, sub, x, y, env);
    } else {
      SimplifyMeans(gid, sub, x, y, env);
    }
  }

  lemma MergedMeans(gid: Term -> nat, sub: nat, a: Term, b: Term, env: Env)
    requires Ok(a) && Ok(b) && Width(a) == Width(b) && sub < 16 && Mergeable(a, b)
    ensures Bits(CodeTable(sub), 5, a.rel, b.rel) < 32
    ensures Eval(MkIcmp(gid, Bits(CodeTable(sub), 5, a.rel, b.rel), a.a, a.b), env) == Given(sub, a, b, env)
  {
    var t := CodeTable(sub);
    SubsBound(t, a, b);
    TablesSwapped(sub);
    MkIcmpMeans(gid, Bits(t, 5, a.rel, b.rel), a.a, a.b, env);
    var w, u, v := Width(a.a), Eval(a.a, env), Eval(a.b, env);
    EvalBound(a.a, env);
    EvalBound(a.b, env);
    MergeMeans(t, a.rel, b.rel, w, u, v);
    OneBit(t, FoldIcmp(a.rel, w, u, v), FoldIcmp(b.rel, w, u, v));
    BitsSwap(t, 1, Eval(a, env), Eval(b, env));
  }

  lemma OneBit(t: Table, x: bool, y: bool)
    ensures Bits(t, 1, Bit(x), Bit(y)) == Bit(t.At(x, y))
  {
    assert Bits(t, 0, 0, 0) == 0;
  }

  lemma {:induction false} NegateMeans(gid: Term -> nat, a: Term, env: Env)
    requires Ok(a)
    ensures Eval(Negate(gid, a), env) == Ones(Width(a)) - Eval(a, env)
    decreases 0, 1 + Size(a), 1, 3
  {
    var w := Width(a);
    WordBound(w);
    EvalExtreme(w, env);
    MkBit2Means(gid, 6, Allones(w), a, env);
    EvalBound(a, env);
    DocTables();
    BitsUnary(DocTable(6), w, Eval(a, env));
  }

  lemma {:induction false} SimplifyMeans(gid: Term -> nat, sub: nat, a: Term, b: Term, env: Env)
    requires Ok(a) && Ok(b) && Width(a) == Width(b) && sub < 16 && !Mergeable(a, b)
    requires IsAssociative(sub) && !a.Lit? ==> !b.Lit?
    ensures Eval(Simplify(gid, sub, a, b), env) == Given(sub, a, b, env)
    decreases Rank(sub), Size(a) + Size(b), if a.Lit? || b.Lit? then 0 else 1, 1
  {
    var w, x, y := Width(a), Eval(a, env), Eval(b, env);
    if sub == 0 || sub == 15 || sub == 12 || sub == 10 || sub == 3 || sub == 5 {
      ProjectionMeans(gid, sub, a, b, env);
    } else if sub == 13 || sub == 2 {
      MkBit2Means(gid, if sub == 13 then 11 else 4, b, a, env);
      ConverseMeans(sub, a, b, env);
    } else if a.Lit? && b.Lit? {
      FoldBitsMeans(sub, w, a.v, b.v);
    } else {
      OthersMeans(gid, sub, a, b, env);
    }
  }

  lemma {:induction false} OthersMeans(gid: Term -> nat, sub: nat, a: Term, b: Term, env: Env)
    requires Ok(a) && Ok(b) && Width(a) == Width(b) && sub < 16 && !Mergeable(a, b) && !(a.Lit? && b.Lit?)
    requires !(sub == 0 || sub == 15 || sub == 12 || sub == 10 || sub == 3 || sub == 5 || sub == 13 || sub == 2)
    requires IsAssociative(sub) && !a.Lit? ==> !b.Lit?
    ensures Eval(Simplify(gid, sub, a, b), env) == Given(sub, a, b, env)
    decreases Rank(sub), Size(a) + Size(b), if a.Lit? || b.Lit? then 0 else 1, 1, 0
  {
    OneOperandMeans(gid, sub, a, b, env);
    OneOperandGiven(gid, sub, a, b, env);
    if OneOperand(gid, sub, a, b).None? && IsAssociative(sub) {
      ReassociateMeans(gid, sub, a, b, env);
    }
  }

  lemma {:induction false} ProjectionMeans(gid: Term -> nat, sub: nat, a: Term, b: Term, env: Env)
    requires Ok(a) && Ok(b) && Width(a) == Width(b) && !Mergeable(a, b)
    requires sub == 0 || sub == 15 || sub == 12 || sub == 10 || sub == 3 || sub == 5
    ensures Eval(Simplify(gid, sub, a, b), env) == Given(sub, a, b, env)
    decreases Rank(sub), Size(a) + Size(b), if a.Lit? || b.Lit? then 0 else 1, 0
  {
    var w := Width(a);
    EvalExtreme(w, env);
    EvalBound(a, env);
    EvalBound(b, env);
    DocTables();
    Projections(DocTable(sub), w, Eval(a, env), Eval(b, env));
    if sub == 3 { NegateMeans(gid, a, env); }
    if sub == 5 { NegateMeans(gid, b, env); }
  }

  /** A converse implication is the implication with its operands exchanged, confused or not. */
  lemma ConverseMeans(sub: nat, a: Term, b: Term, env: Env)
    requires Width(a) == Width(b) && (sub == 13 || sub == 2) && !Mergeable(a, b)
    ensures Given(if sub == 13 then 11 else 4, b, a, env) == Given(sub, a, b, env)
  {
    DocTables();
    var sub' := if sub == 13 then 11 else 4;
    BitsSwap(DocTable(sub), Width(a), Eval(a, env), Eval(b, env));
    BitsSwap(DocTable(sub), Width(a), Eval(b, env), Eval(a, env));
    assert Confused(sub', b, a) == Confused(sub, a, b);
  }

  /** With the table the other way round the result is confused exactly if the table is not symmetric. */
  lemma OneOperandGiven(gid: Term -> nat, sub: nat, a: Term, b: Term, env: Env)
    requires Ok(a) && Ok(b) && Width(a) == Width(b) && sub < 16 && !Mergeable(a, b) && !(a.Lit? && b.Lit?)
    requires !(sub == 0 || sub == 15 || sub == 12 || sub == 10 || sub == 3 || sub == 5 || sub == 13 || sub == 2)
    ensures OneOperand(gid, sub, a, b).Some? ==>
              Given(sub, a, b, env) == Bits(CodeTable(sub), Width(a), Eval(a, env), Eval(b, env))
    ensures OneOperand(gid, sub, a, b).None? ==> Given(sub, a, b, env) == BitsOfTerms(sub, a, b, env)
  {
    TablesSwapped(sub);
    OthersSymmetric(sub);
    OneOperandLeaves(gid, sub, a, b);
    if DocTable(sub).Symmetric() {
    } else {
      BitsSwap(DocTable(sub), Width(a), Eval(b, env), Eval(a, env));
      SomeExtreme(gid, sub, a, b);
    }
  }

  lemma SomeExtreme(gid: Term -> nat, sub: nat, a: Term, b: Term)
    requires Ok(a) && Ok(b) && Width(a) == Width(b) && sub < 16 && Rank(sub) < 2 && !CodeTable(sub).Symmetric()
    ensures OneOperand(gid, sub, a, b).Some? ==> IsExtreme(a) || IsExtreme(b)
  {
    var t := CodeTable(sub);
    FixedExtreme(gid, sub, t.t00, t.t01, t.t10, t.t11, a, b);
    FixedExtreme(gid, sub, t.t00, t.t10, t.t01, t.t11, b, a);
  }

  lemma FixedExtreme(gid: Term -> nat, sub: nat, z0: bool, z1: bool, o0: bool, o1: bool, lit: Term, x: Term)
    requires Ok(lit) && Ok(x) && Width(lit) == Width(x) && sub < 16 && Rank(sub) < 2
    ensures Fixed(gid, sub, z0, z1, o0, o1, lit, x).Some? ==> IsExtreme(lit)
  {
  }

  lemma OthersSymmetric(sub: nat)
    ensures sub == 1 || sub == 6 || sub == 7 || sub == 8 || sub == 9 || sub == 14 ==> DocTable(sub).Symmetric()
    ensures sub == 4 || sub == 11 ==> !DocTable(sub).Symmetric()
  {
  }

  /** Operations that depend on one operand at most. */
  lemma {:induction false} Projections(t: Table, w: nat, x: nat, y: nat)
    requires x < Pow2(w) && y < Pow2(w)
    ensures t.t00 == t.t01 && t.t10 == t.t11 ==> Bits(t, w, x, y) == Bitwise.Unary(t.t00, t.t11, w, x)
    ensures t.t00 == t.t10 && t.t01 == t.t11 ==> Bits(t, w, x, y) == Bitwise.Unary(t.t00, t.t11, w, y)
  {
    if w > 0 {
      assert Ones(w) / 2 == Ones(w - 1) && Ones(w) % 2 == 1;
      Projections(t, w - 1, x / 2, y / 2);
    }
  }

  lemma FoldBitsMeans(sub: nat, w: nat, x: nat, y: nat)
    requires IsWord(w)
    ensures FoldBits(sub, w, x, y) % Pow2(w) == Bits(DocTable(sub), w, x % Pow2(w), y % Pow2(w))
  {
    var r := Bits(DocTable(sub), 64, x, y);
    BitsShorter(DocTable(sub), w, 64, x, y);
    BitsMod(DocTable(sub), w, x, y);
    ModSmall(r % Pow2(w), Pow2(w));
  }

  lemma {:induction false} UnaryMeans(gid: Term -> nat, sub: nat, f0: bool, f1: bool, a: Term, env: Env)
    requires Ok(a) && sub < 16 && Rank(sub) < 2
    ensures Denotes(Unary(gid, sub, f0, f1, a), Bitwise.Unary(f0, f1, Width(a), Eval(a, env)), env)
    decreases Rank(sub), 0, 0, 0
  {
    var w := Width(a);
    EvalExtreme(w, env);
    if f0 && !f1 && sub != 6 { NegateMeans(gid, a, env); }
  }

  lemma EvalExtreme(w: nat, env: Env)
    requires IsWord(w)
    ensures Eval(Lit(w, 0), env) == 0 && Eval(Allones(w), env) == Ones(w)
  {
    ModSmall(0, Pow2(w));
    ModSmall(Ones(w), Pow2(w));
  }

  lemma {:induction false} FixedMeans(gid: Term -> nat, sub: nat, z0: bool, z1: bool, o0: bool, o1: bool, lit: Term,
                                      x: Term, env: Env)
    requires Ok(lit) && Ok(x) && Width(lit) == Width(x) && sub < 16 && Rank(sub) < 2
    ensures Denotes(Fixed(gid, sub, z0, z1, o0, o1, lit, x),
            Bits(Table(z0, z1, o0, o1), Width(x), Eval(lit, env), Eval(x, env)), env)
    decreases Rank(sub), 0, 0, 1
  {
    EvalExtreme(Width(x), env);
    EvalBound(x, env);
    BitsUnary(Table(z0, z1, o0, o1), Width(x), Eval(x, env));
    if lit == Lit(Width(x), 0) {
      UnaryMeans(gid, sub, z0, z1, x, env);
    } else if lit == Allones(Width(x)) {
      UnaryMeans(gid, sub, o0, o1, x, env);
    }
  }

  lemma {:induction false} SameMeans(gid: Term -> nat, sub: nat, a: Term, env: Env)
    requires Ok(a) && sub < 16 && Rank(sub) < 2
    ensures var t := CodeTable(sub); Denotes(Unary(gid, sub, t.t00, t.t11, a),
            Bits(t, Width(a), Eval(a, env), Eval(a, env)), env)
    decreases Rank(sub), 0, 0, 1
  {
    var t := CodeTable(sub);
    EvalBound(a, env);
    BitsUnary(t, Width(a), Eval(a, env));
    UnaryMeans(gid, sub, t.t00, t.t11, a, env);
  }

  lemma {:induction false} OneOperandMeans(gid: Term -> nat, sub: nat, a: Term, b: Term, env: Env)
    requires Ok(a) && Ok(b) && Width(a) == Width(b) && sub < 16 && Rank(sub) < 2
    ensures Denotes(OneOperand(gid, sub, a, b), Bits(CodeTable(sub), Width(a), Eval(a, env), Eval(b, env)), env)
    decreases Rank(sub), Size(a) + Size(b), if a.Lit? || b.Lit? then 0 else 1, 0
  {
    var t, w, x, y := CodeTable(sub), Width(a), Eval(a, env), Eval(b, env);
    TableParts(t, w, x, y);
    if t.Symmetric() && a == b {
      SameMeans(gid, sub, a, env);
    }
    FixedMeans(gid, sub, t.t00, t.t01, t.t10, t.t11, a, b, env);
    FixedMeans(gid, sub, t.t00, t.t10, t.t01, t.t11, b, a, env);
    OneOperandCases(gid, sub, a, b);
  }

  ghost predicate Denotes(r: Option<Term>, v: int, env: Env) {
    r.Some? ==> Eval(r.value, env) == v
  }

  lemma OneOperandCases(gid: Term -> nat, sub: nat, a: Term, b: Term)
    requires Ok(a) && Ok(b) && Width(a) == Width(b) && sub < 16 && Rank(sub) < 2
    ensures var t := CodeTable(sub); var r := OneOperand(gid, sub, a, b);
            || (t.Symmetric() && a == b && r == Unary(gid, sub, t.t00, t.t11, a))
            || r == Fixed(gid, sub, t.t00, t.t01, t.t10, t.t11, a, b)
            || r == Fixed(gid, sub, t.t00, t.t10, t.t01, t.t11, b, a)
  {
  }

  /** Only an exclusive or leaves an operand without or with all bits alone. */
  lemma OneOperandLeaves(gid: Term -> nat, sub: nat, a: Term, b: Term)
    requires Ok(a) && Ok(b) && Width(a) == Width(b) && sub < 16 && Rank(sub) < 2
    ensures OneOperand(gid, sub, a, b).None? && sub != 6 ==> !IsExtreme(a) && !IsExtreme(b)
  {
    var t := CodeTable(sub);
    FixedLeaves(gid, sub, t.t00, t.t01, t.t10, t.t11, a, b);
    FixedLeaves(gid, sub, t.t00, t.t10, t.t01, t.t11, b, a);
  }

  lemma FixedLeaves(gid: Term -> nat, sub: nat, z0: bool, z1: bool, o0: bool, o1: bool, lit: Term, x: Term)
    requires Ok(lit) && Ok(x) && Width(lit) == Width(x) && sub < 16 && Rank(sub) < 2
    ensures Fixed(gid, sub, z0, z1, o0, o1, lit, x).None? && sub != 6 ==> !IsExtreme(lit)
  {
    assert IsExtreme(lit) ==> lit == Lit(Width(x), 0) || lit == Allones(Width(x));
    assert Unary(gid, sub, z0, z1, x).None? ==> sub == 6;
    assert Unary(gid, sub, o0, o1, x).None? ==> sub == 6;
  }

  /** What is fixed by the right operand is the table the other way round. */
  lemma TableParts(t: Table, w: nat, x: nat, y: nat)
    ensures Bits(Table(t.t00, t.t01, t.t10, t.t11), w, x, y) == Bits(t, w, x, y)
            == Bits(Table(t.t00, t.t10, t.t01, t.t11), w, y, x)
  {
    assert t == Table(t.t00, t.t01, t.t10, t.t11) && t.Swap() == Table(t.t00, t.t10, t.t01, t.t11);
    BitsSwap(t, w, x, y);
  }

  lemma {:induction false} ReassociateMeans(gid: Term -> nat, sub: nat, a: Term, b: Term, env: Env)
    requires Ok(a) && Ok(b) && Width(a) == Width(b) && IsAssociative(sub) && !b.Lit?
    ensures Eval(Reassociate(gid, sub, a, b), env) == BitsOfTerms(sub, a, b, env)
    decreases Rank(sub), Size(a) + Size(b), if a.Lit? || b.Lit? then 0 else 1, 0
  {
    var t, w, r := DocTable(sub), Width(a), Reassociate(gid, sub, a, b);
    AssociativeSymmetric(sub);
    if a.Lit? && HasLit(sub, b) {
      AssociativeMeans(gid, sub, a, b.a, env);
      AssociativeMeans(gid, sub, MkBit2(gid, sub, a, b.a), b.b, env);
      assert r == MkBit2(gid, sub, MkBit2(gid, sub, a, b.a), b.b);
      BitsAssociative(t, w, Eval(a, env), Eval(b.a, env), Eval(b.b, env));
    } else if HasLit(sub, a) && HasLit(sub, b) {
      AssociativeMeans(gid, sub, a.a, b.a, env);
      AssociativeMeans(gid, sub, a.b, b.b, env);
      AssociativeMeans(gid, sub, MkBit2(gid, sub, a.a, b.a), MkBit2(gid, sub, a.b, b.b), env);
      assert r == MkBit2(gid, sub, MkBit2(gid, sub, a.a, b.a), MkBit2(gid, sub, a.b, b.b));
      BitsMerge(t, w, Eval(a.a, env), Eval(a.b, env), Eval(b.a, env), Eval(b.b, env));
    } else if HasLit(sub, b) {
      AssociativeMeans(gid, sub, a, b.b, env);
      AssociativeMeans(gid, sub, b.a, MkBit2(gid, sub, a, b.b), env);
      assert r == MkBit2(gid, sub, b.a, MkBit2(gid, sub, a, b.b));
      BitsExchange(t, w, Eval(a, env), Eval(b.a, env), Eval(b.b, env));
    } else if HasLit(sub, a) {
      AssociativeMeans(gid, sub, a.b, b, env);
      AssociativeMeans(gid, sub, a.a, MkBit2(gid, sub, a.b, b), env);
      assert r == MkBit2(gid, sub, a.a, MkBit2(gid, sub, a.b, b));
      BitsAssociative(t, w, Eval(a.a, env), Eval(a.b, env), Eval(b, env));
    }
  }

  lemma {:induction false} AssociativeMeans(gid: Term -> nat, sub: nat, a: Term, b: Term, env: Env)
    requires Ok(a) && Ok(b) && Width(a) == Width(b) && IsAssociative(sub)
    ensures Eval(MkBit2(gid, sub, a, b), env) == BitsOfTerms(sub, a, b, env)
    decreases Rank(sub), Size(a) + Size(b), if a.Lit? || b.Lit? then 0 else 1, 3
  {
    MkBit2Means(gid, sub, a, b, env);
    AssociativeSymmetric(sub);
  }

  lemma BitsExchange(t: Table, w: nat, x: nat, l: nat, y: nat)
    requires Associative(t) && t.Symmetric()
    ensures Bits(t, w, x, Bits(t, w, l, y)) == Bits(t, w, l, Bits(t, w, x, y))
  {
    BitsAssociative(t, w, x, l, y);
    BitsSwap(t, w, x, l);
    BitsAssociative(t, w, l, x, y);
  }

  lemma BitsMerge(t: Table, w: nat, l: nat, x: nat, m: nat, y: nat)
    requires Associative(t) && t.Symmetric()
    ensures Bits(t, w, Bits(t, w, l, x), Bits(t, w, m, y)) == Bits(t, w, Bits(t, w, l, m), Bits(t, w, x, y))
  {
    BitsAssociative(t, w, l, x, Bits(t, w, m, y));
    BitsExchange(t, w, x, m, y);
    BitsAssociative(t, w, l, m, Bits(t, w, x, y));
  }

  /** The normalizer meets the documented table exactly if it does not confuse the operands, or they have the same
      value. */
  lemma MkBit2IsTable(gid: Term -> nat, sub: nat, a: Term, b: Term, env: Env)
    requires Ok(a) && Ok(b) && Width(a) == Width(b) && sub < 16
    ensures Eval(MkBit2(gid, sub, a, b), env) == BitsOfTerms(sub, a, b, env)
       <==> !Confused(sub, a, b) || Eval(a, env) == Eval(b, env)
  {
    MkBit2Means(gid, sub, a, b, env);
    EvalBound(a, env);
    EvalBound(b, env);
    if Confused(sub, a, b) { BitsAsymmetric(DocTable(sub), Width(a), Eval(a, env), Eval(b, env)); }
  }

  /** The first of x == y and x != y is said to be the second. */
  lemma FirstComparisonIsSecond(gid: Term -> nat, x: Term, y: Term, env: Env)
    requires Ok(x) && Ok(y) && Width(x) == Width(y)
    ensures var eq, ne := Icmp(1, x, y), Icmp(30, x, y);
            && BitsOfTerms(12, eq, ne, env) == Eval(eq, env)
            && Eval(MkBit2(gid, 12, eq, ne), env) == Eval(ne, env) != Eval(eq, env)
  {
    var eq, ne := Icmp(1, x, y), Icmp(30, x, y);
    WordSizes();
    EvalBound(x, env);
    EvalBound(y, env);
    EvalBound(eq, env);
    EvalBound(ne, env);
    Aliases(Width(x), Eval(x, env), Eval(y, env));
    DocTables();
    Projections(DocTable(12), 1, Eval(eq, env), Eval(ne, env));
    Projections(DocTable(12), 1, Eval(ne, env), Eval(eq, env));
    MkBit2Means(gid, 12, eq, ne, env);
  }
}
