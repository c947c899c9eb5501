/** Terms over machine words, and what they mean. */
module Terms {
  import opened Bitwise
  import opened Comparisons

  datatype WrapOp = Add | Sub | Mul

  datatype Term =
    | Lit(w: nat, v: nat)
    | Sym(w: nat, id: nat)
    | Wrap(op: WrapOp, a: Term, b: Term)
    | Bit2(sub: nat, a: Term, b: Term)
    | Icmp(rel: nat, a: Term, b: Term)

  type Env = nat -> nat

  /** Literals are stored in 64 bits. */
  const MAX_WORD: nat := 0x1_0000_0000_0000_0000

  function Width(t: Term): nat {
    match t
    case Lit(w, _) => w
    case Sym(w, _) => w
    case Wrap(_, a, _) => Width(a)
    case Bit2(_, a, _) => Width(a)
    case Icmp(_, _, _) => 1
  }

  function Size(t: Term): (s: nat)
    ensures s > 0
  {
    match t
    case Lit(_, _) => 1
    case Sym(_, _) => 1
    case Wrap(_, a, b) => 1 + Size(a) + Size(b)
    case Bit2(_, a, b) => 1 + Size(a) + Size(b)
    case Icmp(_, a, b) => 1 + Size(a) + Size(b)
  }

  /** The words that can be folded. */
  predicate IsWord(w: nat) {
    w == 1 || w == 8 || w == 16 || w == 32 || w == 64
  }

  lemma {:induction false} Pow2Add(m: nat, n: nat)
    ensures Pow2(m + n) == Pow2(m) * Pow2(n)
  {
    if m > 0 {
      Pow2Add(m - 1, n);
      assert 2 * Pow2(m - 1) * Pow2(n) == 2 * (Pow2(m - 1) * Pow2(n));
    } else {
      assert Pow2(0) == 1;
    }
  }

  lemma WordSizes()
    ensures Pow2(1) == 2 && Pow2(8) == 0x100 && Pow2(16) == 0x1_0000 && Pow2(32) == 0x1_0000_0000
            && Pow2(64) == MAX_WORD
  {
    assert Pow2(1) == 2 && Pow2(2) == 4 && Pow2(4) == 16;
    Pow2Add(4, 4);
    Pow2Add(8, 8);
    Pow2Add(16, 16);
    Pow2Add(32, 32);
  }

  lemma WordBound(w: nat)
    requires IsWord(w)
    ensures 2 <= Pow2(w) <= MAX_WORD
    ensures w > 1 ==> Pow2(w) > 2
    ensures w <= 16 ==> 2 * Pow2(w) <= 0x1_0000_0000
  {
    WordSizes();
  }

  lemma WordDivides(w: nat)
    requires IsWord(w)
    ensures MAX_WORD % Pow2(w) == 0 && (w <= 16 ==> 0x1_0000_0000 % Pow2(w) == 0)
  {
    WordSizes();
  }

  /** Operands have the same width. */
  predicate Ok(t: Term) {
    && IsWord(Width(t))
    && match t
       case Lit(_, v) => v < MAX_WORD
       case Sym(_, _) => true
       case Wrap(_, a, b) => Ok(a) && Ok(b) && Width(a) == Width(b) > 1
       case Bit2(sub, a, b) => Ok(a) && Ok(b) && Width(a) == Width(b) && sub < 16
       case Icmp(rel, a, b) => Ok(a) && Ok(b) && Width(a) == Width(b) && rel < 32
  }

  function WrapVal(op: WrapOp, w: nat, x: int, y: int): (r: nat)
    ensures r < Pow2(w)
  {
    match op
    case Add => (x + y) % Pow2(w)
    case Sub => (x - y) % Pow2(w)
    case Mul => (x * y) % Pow2(w)
  }

  /** The documented table of a binary bit operation: a subtag has a bit for both, the first only, the second only,
      and neither operand set, from highest to lowest. */
  function DocTable(sub: nat): Table {
    Table(Masked(sub, 1), Masked(sub, 2), Masked(sub, 4), Masked(sub, 8))
  }

  predicate Masked(sub: nat, mask: nat)
    requires mask > 0
  {
    (sub / mask) % 2 == 1
  }

  function Eval(t: Term, env: Env): nat {
    match t
    case Lit(w, v) => v % Pow2(w)
    case Sym(w, id) => env(id) % Pow2(w)
    case Wrap(op, a, b) => WrapVal(op, Width(a), Eval(a, env), Eval(b, env))
    case Bit2(sub, a, b) => Bits(DocTable(sub), Width(a), Eval(a, env), Eval(b, env))
    case Icmp(rel, a, b) => if Width(a) > 0 && FoldIcmp(rel, Width(a), Eval(a, env), Eval(b, env)) then 1 else 0
  }

  lemma EvalBound(t: Term, env: Env)
    ensures Eval(t, env) < Pow2(Width(t))
  {
    match t
    case Bit2(sub, a, b) => BitsBound(DocTable(sub), Width(a), Eval(a, env), Eval(b, env));
    case Icmp(_, _, _) => assert Pow2(1) == 2;
    case _ =>
  }

  /** Swaps a literal to the left, or else the younger definition to the right. */
  function Commute(gid: Term -> nat, a: Term, b: Term): (r: (Term, Term))
    ensures r == (a, b) || r == (b, a)
    ensures !(a.Lit? && b.Lit?) ==> !r.1.Lit?
  {
    if b.Lit? || (gid(a) > gid(b) && !a.Lit?) then (b, a) else (a, b)
  }
}
