/** Normalization of addition, subtraction and multiplication that wrap around. */
module Wraps {
  import opened Bitwise
  import opened Terms

  function Rank(op: WrapOp): nat {
    match op
    case Sub => 2
    case Add => 1
    case Mul => 0
  }

  /** Folds literals. Sums and differences of short words are computed as 32-bit integers and not cut back. */
  function Fold(op: WrapOp, w: nat, x: nat, y: nat): (r: nat)
    requires IsWord(w)
    ensures r < MAX_WORD
  {
    WordBound(w);
    var u, v := x % Pow2(w), y % Pow2(w);
    match op
    case Add => if w <= 16 then u + v else (u + v) % Pow2(w)
    case Sub => if w <= 16 then (u - v) % 0x1_0000_0000 else (u - v) % Pow2(w)
    case Mul => (u * v) % Pow2(w)
  }

  /** The operator applied to a literal first operand, if t is that. */
  predicate HasLit(op: WrapOp, t: Term) {
    t.Wrap? && t.op == op && t.a.Lit?
  }

  /** Builds a op b. */
  function MkWrap(gid: Term -> nat, op: WrapOp, a: Term, b: Term): (r: Term)
    requires Ok(a) && Ok(b) && Width(a) == Width(b) > 1
    ensures Ok(r) && Width(r) == Width(a) && Size(r) <= 1 + Size(a) + Size(b)
    decreases Rank(op), Size(a) + Size(b), if a.Lit? || b.Lit? then 0 else 1, 2
  {
    if a.Lit? && b.Lit? then Lit(Width(a), Fold(op, Width(a), a.v, b.v))
    else if op == Sub then Simplify(gid, op, a, b)
    else var (x, y) := Commute(gid, a, b); Simplify(gid, op, x, y)
  }

  function Simplify(gid: Term -> nat, op: WrapOp, a: Term, b: Term): (r: Term)
    requires Ok(a) && Ok(b) && Width(a) == Width(b) > 1 && !(a.Lit? && b.Lit?) && (op == Sub || !b.Lit?)
    ensures Ok(r) && Width(r) == Width(a) && Size(r) <= 1 + Size(a) + Size(b)
    decreases Rank(op), Size(a) + Size(b), if a.Lit? || b.Lit? then 0 else 1, 1
  {
    WordBound(Width(a));
    var w := Width(a);
    if a == Lit(w, 0) && op == Add then b
    else if a == Lit(w, 0) && op == Mul then a
    else if a == Lit(w, 1) && op == Mul then b
    else if b == Lit(w, 0) && op == Sub then a
    else if b.Lit? && op == Sub then MkWrap(gid, Add, a, Lit(w, (MAX_WORD - b.v) % Pow2(w)))
    else if a == b && op == Add then MkWrap(gid, Mul, Lit(w, 2), a)
    else if a == b && op == Sub then Lit(w, 0)
    else if op == Sub then Wrap(op, a, b)
    else Reassociate(gid, op, a, b)
  }

  /** Moves literals together and to the left. */
  function Reassociate(gid: Term -> nat, op: WrapOp, a: Term, b: Term): (r: Term)
    requires Ok(a) && Ok(b) && Width(a) == Width(b) > 1 && op != Sub && !b.Lit?
    ensures Ok(r) && Width(r) == Width(a) && Size(r) <= 1 + Size(a) + Size(b)
    decreases Rank(op), Size(a) + Size(b), if a.Lit? || b.Lit? then 0 else 1, 0
  {
    if a.Lit? && HasLit(op, b) then MkWrap(gid, op, MkWrap(gid, op, a, b.a), b.b)
    else if HasLit(op, a) && HasLit(op, b) then MkWrap(gid, op, MkWrap(gid, op, a.a, b.a), MkWrap(gid, op, a.b, b.b))
    else if HasLit(op, b) then MkWrap(gid, op, b.a, MkWrap(gid, op, a, b.b))
    else if HasLit(op, a) then MkWrap(gid, op, a.a, MkWrap(gid, op, a.b, b))
    else Wrap(op, a, b)
  }

  lemma WrapComm(op: WrapOp, w: nat, x: int, y: int)
    requires op != Sub
    ensures WrapVal(op, w, x, y) == WrapVal(op, w, y, x)
  {
    assert x * y == y * x;
  }

  lemma WrapAssoc(op: WrapOp, w: nat, x: int, y: int, z: int)
    requires op != Sub
    ensures WrapVal(op, w, WrapVal(op, w, x, y), z) == WrapVal(op, w, x, WrapVal(op, w, y, z))
  {
    AssocMod(x, y, z, Pow2(w));
  }

  lemma AssocMod(x: int, y: int, z: int, m: nat)
    requires m > 0
    ensures ((x + y) % m + z) % m == (x + (y + z) % m) % m
    ensures ((x * y) % m * z) % m == (x * ((y * z) % m)) % m
  {
    ModAdd(x + y, z, m);
    ModAdd(y + z, x, m);
    ModMul(x * y, z, m);
    ModMul(y * z, x, m);
    assert (x * y) * z == x * (y * z);
  }

  /** x op (l op y) == l op (x op y) */
  lemma WrapSwap(op: WrapOp, w: nat, x: int, l: int, y: int)
    requires op != Sub
    ensures WrapVal(op, w, x, WrapVal(op, w, l, y)) == WrapVal(op, w, l, WrapVal(op, w, x, y))
  {
    WrapAssoc(op, w, x, l, y);
    WrapComm(op, w, x, l);
    WrapAssoc(op, w, l, x, y);
  }

  /** (l op x) op (m op y) == (l op m) op (x op y) */
  lemma WrapMerge(op: WrapOp, w: nat, l: int, x: int, m: int, y: int)
    requires op != Sub
    ensures WrapVal(op, w, WrapVal(op, w, l, x), WrapVal(op, w, m, y))
            == WrapVal(op, w, WrapVal(op, w, l, m), WrapVal(op, w, x, y))
  {
    WrapAssoc(op, w, l, x, WrapVal(op, w, m, y));
    WrapSwap(op, w, x, m, y);
    WrapAssoc(op, w, l, m, WrapVal(op, w, x, y));
  }

  /** A 32-bit difference and the difference agree modulo any divisor of 2^32. */
  lemma DiffMod(u: nat, v: nat, n: nat, m: nat)
    requires 0 < m <= n && n % m == 0 && u < n && v < n
    ensures ((u - v) % n) % m == (u - v) % m
  {
    var k := n / m;
    assert n == k * m;
    if u < v {
      ModUnique(u - v, n);
      ModPlus(u - v, k, m);
    } else {
      ModSmall(u - v, n);
    }
  }

  lemma ModUnique(x: int, n: nat)
    requires 0 <= x + n && x < 0 < n
    ensures x % n == n + x
  {
    DivUnique(x, -1, n + x, n);
  }

  /** Folding is right modulo the word, for short words, too. */
  lemma FoldMeans(op: WrapOp, w: nat, x: nat, y: nat)
    requires IsWord(w)
    ensures Fold(op, w, x, y) % Pow2(w) == WrapVal(op, w, x % Pow2(w), y % Pow2(w))
  {
    WordBound(w);
    var m := Pow2(w);
    var u, v := x % m, y % m;
    WordDivides(w);
    if w <= 16 {
      if op == Sub { DiffMod(u, v, 0x1_0000_0000, m); }
      ModSmall((u * v) % m, m);
    } else {
      ModSmall((u + v) % m, m);
      ModSmall((u - v) % m, m);
      ModSmall((u * v) % m, m);
    }
  }

  /** a - l == a + -l */
  lemma SubMod(x: int, l: int, n: int, m: nat)
    requires m > 0 && n % m == 0
    ensures (x + (n - l) % m % m) % m == (x - l % m) % m
  {
    ModSmall((n - l) % m, m);
    ModAdd(n - l, x, m);
    var k, j := n / m, l / m;
    assert n == k * m && l == j * m + l % m;
    assert x + (n - l) == (k - j) * m + (x - l % m) by { assert (k - j) * m == k * m - j * m; }
    ModPlus(x - l % m, k - j, m);
  }

  lemma SubIsAdd(w: nat, x: int, l: nat)
    requires IsWord(w)
    ensures WrapVal(Add, w, x, (MAX_WORD - l) % Pow2(w) % Pow2(w)) == WrapVal(Sub, w, x, l % Pow2(w))
  {
    WordDivides(w);
    SubMod(x, l, MAX_WORD, Pow2(w));
  }

  lemma NeutralMod(x: nat, m: nat)
    requires x < m && m > 1
    ensures (0 % m + x) % m == x && ((0 % m) * x) % m == 0 && ((1 % m) * x) % m == x
    ensures (x - 0 % m) % m == x && (x - x) % m == 0
    ensures m > 2 ==> ((2 % m) * x) % m == (x + x) % m
  {
    ModSmall(0, m);
    ModSmall(1, m);
    ModSmall(x, m);
    if m > 2 { ModSmall(2, m); }
    assert 0 * x == 0 && 1 * x == x && 2 * x == x + x;
  }

  lemma Neutral(w: nat, x: nat)
    requires IsWord(w) && w > 1 && x < Pow2(w)
    ensures WrapVal(Add, w, 0 % Pow2(w), x) == x && WrapVal(Mul, w, 0 % Pow2(w), x) == 0 % Pow2(w)
    ensures WrapVal(Mul, w, 1 % Pow2(w), x) == x && WrapVal(Mul, w, 2 % Pow2(w), x) == WrapVal(Add, w, x, x)
    ensures WrapVal(Sub, w, x, 0 % Pow2(w)) == x && WrapVal(Sub, w, x, x) == 0 % Pow2(w)
  {
    WordBound(w);
    NeutralMod(x, Pow2(w));
  }

  /** Normalization keeps the value modulo the word. */
  lemma {:induction false} MkWrapMeans(gid: Term -> nat, op: WrapOp, a: Term, b: Term, env: Env)
    requires Ok(a) && Ok(b) && Width(a) == Width(b) > 1
    ensures Eval(MkWrap(gid, op, a, b), env) == WrapVal(op, Width(a), Eval(a, env), Eval(b, env))
    decreases Rank(op), Size(a) + Size(b), if a.Lit? || b.Lit? then 0 else 1, 2
  {
    if a.Lit? && b.Lit? {
      FoldMeans(op, Width(a), a.v, b.v);
    } else if op == Sub {
      SimplifyMeans(gid, op, a, b, env);
    } else {
      var p := Commute(gid, a, b);
      SimplifyMeans(gid, op, p.0, p.1, env);
      WrapComm(op, Width(a), Eval(a, env), Eval(b, env));
    }
  }

  lemma {:induction false} SimplifyMeans(gid: Term -> nat, op: WrapOp, a: Term, b: Term, env: Env)
    requires Ok(a) && Ok(b) && Width(a) == Width(b) > 1 && !(a.Lit? && b.Lit?) && (op == Sub || !b.Lit?)
    ensures Eval(Simplify(gid, op, a, b), env) == WrapVal(op, Width(a), Eval(a, env), Eval(b, env))
    decreases Rank(op), Size(a) + Size(b), if a.Lit? || b.Lit? then 0 else 1, 1
  {
    var w := Width(a);
    WordBound(w);
    EvalBound(a, env);
    EvalBound(b, env);
    if a == Lit(w, 0) && op != Sub {
      Neutral(w, Eval(b, env));
    } else if a == Lit(w, 1) && op == Mul {
      Neutral(w, Eval(b, env));
    } else if b == Lit(w, 0) && op == Sub {
      Neutral(w, Eval(a, env));
    } else if b.Lit? && op == Sub {
      MkWrapMeans(gid, Add, a, Lit(w, (MAX_WORD - b.v) % Pow2(w)), env);
      SubIsAdd(w, Eval(a, env), b.v);
    } else if a == b && op == Add {
      MkWrapMeans(gid, Mul, Lit(w, 2), a, env);
      Neutral(w, Eval(a, env));
    } else if a == b && op == Sub {
      Neutral(w, Eval(a, env));
    } else if op != Sub {
      ReassociateMeans(gid, op, a, b, env);
    }
  }

  lemma {:induction false} ReassociateMeans(gid: Term -> nat, op: WrapOp, a: Term, b: Term, env: Env)
    requires Ok(a) && Ok(b) && Width(a) == Width(b) > 1 && op != Sub && !b.Lit?
    ensures Eval(Reassociate(gid, op, a, b), env) == WrapVal(op, Width(a), Eval(a, env), Eval(b, env))
    decreases Rank(op), Size(a) + Size(b), if a.Lit? || b.Lit? then 0 else 1, 0
  {
    var w := Width(a);
    if a.Lit? && HasLit(op, b) {
      MkWrapMeans(gid, op, a, b.a, env);
      MkWrapMeans(gid, op, MkWrap(gid, op, a, b.a), b.b, env);
      WrapAssoc(op, w, Eval(a, env), Eval(b.a, env), Eval(b.b, env));
    } else if HasLit(op, a) && HasLit(op, b) {
      MkWrapMeans(gid, op, a.a, b.a, env);
      MkWrapMeans(gid, op, a.b, b.b, env);
      MkWrapMeans(gid, op, MkWrap(gid, op, a.a, b.a), MkWrap(gid, op, a.b, b.b), env);
      WrapMerge(op, w, Eval(a.a, env), Eval(a.b, env), Eval(b.a, env), Eval(b.b, env));
    } else if HasLit(op, b) {
      MkWrapMeans(gid, op, a, b.b, env);
      MkWrapMeans(gid, op, b.a, MkWrap(gid, op, a, b.b), env);
      WrapSwap(op, w, Eval(a, env), Eval(b.a, env), Eval(b.b, env));
    } else if HasLit(op, a) {
      MkWrapMeans(gid, op, a.b, b, env);
      MkWrapMeans(gid, op, a.a, MkWrap(gid, op, a.b, b), env);
      WrapAssoc(op, w, Eval(a.a, env), Eval(a.b, env), Eval(b, env));
    }
  }

  /** No literal among the leaves of t's maximal tree of op. */
  predicate LitFree(op: WrapOp, t: Term) {
    if t.Wrap? && t.op == op then LitFree(op, t.a) && LitFree(op, t.b) else !t.Lit?
  }

  /** Literals of sums and products stand on the left of the root of their maximal tree. */
  predicate Normal(t: Term) {
    match t
    case Wrap(op, a, b) =>
      && Normal(a) && Normal(b)
      && (op != Sub ==> (a.Lit? || LitFree(op, a)) && LitFree(op, b))
    case Bit2(_, a, b) => Normal(a) && Normal(b)
    case Icmp(_, a, b) => Normal(a) && Normal(b)
    case _ => true
  }

  /** The number of literals among the leaves of t's maximal tree of op. */
  function LitCount(op: WrapOp, t: Term): nat {
    if t.Wrap? && t.op == op then LitCount(op, t.a) + LitCount(op, t.b) else if t.Lit? then 1 else 0
  }

  /** In normal form a sum or product has at most one literal, and that is the left operand of its root. */
  lemma NormalShape(t: Term)
    requires Normal(t) && t.Wrap? && t.op != Sub
    ensures LitCount(t.op, t) == if t.a.Lit? then 1 else 0
  {
    LitFreeCount(t.op, t.b);
    if !t.a.Lit? { LitFreeCount(t.op, t.a); }
  }

  lemma {:induction false} LitFreeCount(op: WrapOp, t: Term)
    requires LitFree(op, t)
    ensures LitCount(op, t) == 0
  {
    if t.Wrap? && t.op == op {
      LitFreeCount(op, t.a);
      LitFreeCount(op, t.b);
    }
  }

  /** Building from normal forms gives a normal form. */
  lemma {:induction false} MkWrapNormal(gid: Term -> nat, op: WrapOp, a: Term, b: Term)
    requires Ok(a) && Ok(b) && Width(a) == Width(b) > 1 && Normal(a) && Normal(b)
    ensures Normal(MkWrap(gid, op, a, b))
    decreases Rank(op), Size(a) + Size(b), if a.Lit? || b.Lit? then 0 else 1, 2
  {
    if a.Lit? && b.Lit? {
    } else if op == Sub {
      SimplifyNormal(gid, op, a, b);
    } else {
      var p := Commute(gid, a, b);
      SimplifyNormal(gid, op, p.0, p.1);
    }
  }

  lemma {:induction false} SimplifyNormal(gid: Term -> nat, op: WrapOp, a: Term, b: Term)
    requires Ok(a) && Ok(b) && Width(a) == Width(b) > 1 && !(a.Lit? && b.Lit?) && (op == Sub || !b.Lit?)
    requires Normal(a) && Normal(b)
    ensures Normal(Simplify(gid, op, a, b))
    decreases Rank(op), Size(a) + Size(b), if a.Lit? || b.Lit? then 0 else 1, 1
  {
    var w := Width(a);
    WordBound(w);
    if (a == Lit(w, 0) && op != Sub) || (a == Lit(w, 1) && op == Mul) || (b == Lit(w, 0) && op == Sub) {
    } else if b.Lit? && op == Sub {
      MkWrapNormal(gid, Add, a, Lit(w, (MAX_WORD - b.v) % Pow2(w)));
    } else if a == b && op == Add {
      MkWrapNormal(gid, Mul, Lit(w, 2), a);
    } else if op != Sub {
      ReassociateNormal(gid, op, a, b);
    }
  }

  lemma {:induction false} ReassociateNormal(gid: Term -> nat, op: WrapOp, a: Term, b: Term)
    requires Ok(a) && Ok(b) && Width(a) == Width(b) > 1 && op != Sub && !b.Lit?
    requires Normal(a) && Normal(b)
    ensures Normal(Reassociate(gid, op, a, b))
    decreases Rank(op), Size(a) + Size(b), if a.Lit? || b.Lit? then 0 else 1, 0
  {
    if a.Lit? && HasLit(op, b) {
      MkWrapNormal(gid, op, a, b.a);
      MkWrapNormal(gid, op, MkWrap(gid, op, a, b.a), b.b);
    } else if HasLit(op, a) && HasLit(op, b) {
      MkWrapNormal(gid, op, a.a, b.a);
      MkWrapNormal(gid, op, a.b, b.b);
      MkWrapNormal(gid, op, MkWrap(gid, op, a.a, b.a), MkWrap(gid, op, a.b, b.b));
    } else if HasLit(op, b) {
      MkWrapNormal(gid, op, a, b.b);
      MkWrapNormal(gid, op, b.a, MkWrap(gid, op, a, b.b));
    } else if HasLit(op, a) {
      MkWrapNormal(gid, op, a.b, b);
      MkWrapNormal(gid, op, a.a, MkWrap(gid, op, a.b, b));
    }
  }

  /** Every literal fits its word. */
  predicate InRange(t: Term) {
    match t
    case Lit(w, v) => v < Pow2(w)
    case Sym(_, _) => true
    case Wrap(_, a, b) => InRange(a) && InRange(b)
    case Bit2(_, a, b) => InRange(a) && InRange(b)
    case Icmp(_, a, b) => InRange(a) && InRange(b)
  }

  lemma ShortDiff(x: nat, y: nat, m: nat)
    requires x < m && y < m && 2 * m <= 0x1_0000_0000
    ensures (x - y) % 0x1_0000_0000 < m <==> x >= y
  {
    if x < y { ModUnique(x - y, 0x1_0000_0000); } else { ModSmall(x - y, 0x1_0000_0000); }
  }

  /** Folding can leave the word exactly if the word is short, and a sum overflows or a difference is negative. */
  lemma FoldInRange(op: WrapOp, w: nat, x: nat, y: nat)
    requires IsWord(w) && x < Pow2(w) && y < Pow2(w)
    ensures Fold(op, w, x, y) < Pow2(w)
      <==> w > 16 || op == Mul || (op == Add && x + y < Pow2(w)) || (op == Sub && x >= y)
  {
    WordBound(w);
    ModSmall(x, Pow2(w));
    ModSmall(y, Pow2(w));
    if w <= 16 && op == Sub { ShortDiff(x, y, Pow2(w)); }
  }

  /** 255 + 1 is folded to the literal 256 of eight bits. */
  lemma ShortSumLeavesRange(gid: Term -> nat)
    ensures InRange(Lit(8, 255)) && InRange(Lit(8, 1)) && !InRange(MkWrap(gid, Add, Lit(8, 255), Lit(8, 1)))
  {
    WordSizes();
  }

  /** For words of 32 and 64 bits literals stay in range. */
  lemma {:induction false} MkWrapInRange(gid: Term -> nat, op: WrapOp, a: Term, b: Term)
    requires Ok(a) && Ok(b) && Width(a) == Width(b) > 16 && InRange(a) && InRange(b)
    ensures InRange(MkWrap(gid, op, a, b))
    decreases Rank(op), Size(a) + Size(b), if a.Lit? || b.Lit? then 0 else 1, 2
  {
    if a.Lit? && b.Lit? {
      FoldInRange(op, Width(a), a.v, b.v);
    } else if op == Sub {
      SimplifyInRange(gid, op, a, b);
    } else {
      var p := Commute(gid, a, b);
      SimplifyInRange(gid, op, p.0, p.1);
    }
  }

  lemma {:induction false} SimplifyInRange(gid: Term -> nat, op: WrapOp, a: Term, b: Term)
    requires Ok(a) && Ok(b) && Width(a) == Width(b) > 16 && !(a.Lit? && b.Lit?) && (op == Sub || !b.Lit?)
    requires InRange(a) && InRange(b)
    ensures InRange(Simplify(gid, op, a, b))
    decreases Rank(op), Size(a) + Size(b), if a.Lit? || b.Lit? then 0 else 1, 1
  {
    var w := Width(a);
    WordBound(w);
    if (a == Lit(w, 0) && op != Sub) || (a == Lit(w, 1) && op == Mul) || (b == Lit(w, 0) && op == Sub) {
    } else if b.Lit? && op == Sub {
      MkWrapInRange(gid, Add, a, Lit(w, (MAX_WORD - b.v) % Pow2(w)));
    } else if a == b && op == Add {
      MkWrapInRange(gid, Mul, Lit(w, 2), a);
    } else if op != Sub {
      ReassociateInRange(gid, op, a, b);
    }
  }

  lemma {:induction false} ReassociateInRange(gid: Term -> nat, op: WrapOp, a: Term, b: Term)
    requires Ok(a) && Ok(b) && Width(a) == Width(b) > 16 && op != Sub && !b.Lit?
    requires InRange(a) && InRange(b)
    ensures InRange(Reassociate(gid, op, a, b))
    decreases Rank(op), Size(a) + Size(b), if a.Lit? || b.Lit? then 0 else 1, 0
  {
    if a.Lit? && HasLit(op, b) {
      MkWrapInRange(gid, op, a, b.a);
      MkWrapInRange(gid, op, MkWrap(gid, op, a, b.a), b.b);
    } else if HasLit(op, a) && HasLit(op, b) {
      MkWrapInRange(gid, op, a.a, b.a);
      MkWrapInRange(gid, op, a.b, b.b);
      MkWrapInRange(gid, op, MkWrap(gid, op, a.a, b.a), MkWrap(gid, op, a.b, b.b));
    } else if HasLit(op, b) {
      MkWrapInRange(gid, op, a, b.b);
      MkWrapInRange(gid, op, b.a, MkWrap(gid, op, a, b.b));
    } else if HasLit(op, a) {
      MkWrapInRange(gid, op, a.b, b);
      MkWrapInRange(gid, op, a.a, MkWrap(gid, op, a.b, b));
    }
  }
}
