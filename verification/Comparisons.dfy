/** Integer comparisons: sets of five relations between two words. */
module Comparisons {
  import opened Bitwise

  /** Plus and minus, minus and plus, greater, less (both with the same sign), equal. */
  datatype Relation = X | Y | G | L | E

  /** The bit of a relation within a subtag. */
  function Index(r: Relation): nat {
    match r
    case X => 4
    case Y => 3
    case G => 2
    case L => 1
    case E => 0
  }

  predicate HasBit(sub: nat, k: nat) {
    (sub / Pow2(k)) % 2 == 1
  }

  /** The sign bit. */
  predicate Minus(w: nat, u: nat)
    requires w > 0
  {
    (u / Pow2(w - 1)) % 2 == 1
  }

  function Signed(w: nat, u: nat): int
    requires w > 0
  {
    if Minus(w, u) then u - Pow2(w) else u
  }

  function RelationOf(w: nat, u: nat, v: nat): Relation
    requires w > 0
  {
    if !Minus(w, u) && Minus(w, v) then X
    else if Minus(w, u) && !Minus(w, v) then Y
    else if u > v then G
    else if u < v then L
    else E
  }

  /** How two literals are compared. */
  function FoldIcmp(sub: nat, w: nat, u: nat, v: nat): bool
    requires w > 0
  {
    var pm := !Minus(w, u) && Minus(w, v);
    var mp := Minus(w, u) && !Minus(w, v);
    || (HasBit(sub, 4) && pm)
    || (HasBit(sub, 3) && mp)
    || (HasBit(sub, 2) && u > v && !mp)
    || (HasBit(sub, 1) && u < v && !pm)
    || (HasBit(sub, 0) && u == v)
  }

  lemma SignSplits(w: nat, u: nat)
    requires w > 0 && u < Pow2(w)
    ensures Minus(w, u) <==> u >= Pow2(w - 1)
  {
    var p := Pow2(w - 1);
    if u >= p {
      assert u == p + (u - p);
      DivByHalf(u, p, 1);
    } else {
      DivByHalf(u, p, 0);
    }
  }

  lemma DivByHalf(u: nat, p: nat, q: nat)
    requires p > 0 && q * p <= u < q * p + p
    ensures u / p == q
  {
    var q', r := u / p, u % p;
    assert u == q' * p + r;
    Times(q', q, p);
    Times(q, q', p);
  }

  /** Every pair of words is in exactly one of the five relations, and a comparison holds if its subtag has the
      bit of that relation. */
  lemma FoldIcmpMeans(sub: nat, w: nat, u: nat, v: nat)
    requires w > 0 && u < Pow2(w) && v < Pow2(w)
    ensures FoldIcmp(sub, w, u, v) <==> HasBit(sub, Index(RelationOf(w, u, v)))
  {
    SignSplits(w, u);
    SignSplits(w, v);
  }

  /** The subtags with an alias are the comparisons their names promise. */
  lemma Aliases(w: nat, u: nat, v: nat)
    requires w > 0 && u < Pow2(w) && v < Pow2(w)
    ensures FoldIcmp(1, w, u, v) <==> u == v
    ensures FoldIcmp(30, w, u, v) <==> u != v
    ensures FoldIcmp(18, w, u, v) <==> u < v
    ensures FoldIcmp(19, w, u, v) <==> u <= v
    ensures FoldIcmp(12, w, u, v) <==> u > v
    ensures FoldIcmp(13, w, u, v) <==> u >= v
    ensures FoldIcmp(10, w, u, v) <==> Signed(w, u) < Signed(w, v)
    ensures FoldIcmp(11, w, u, v) <==> Signed(w, u) <= Signed(w, v)
    ensures FoldIcmp(20, w, u, v) <==> Signed(w, u) > Signed(w, v)
    ensures FoldIcmp(21, w, u, v) <==> Signed(w, u) >= Signed(w, v)
  {
    SignSplits(w, u);
    SignSplits(w, v);
    assert Pow2(w) == 2 * Pow2(w - 1);
    BitsOf(1, false, false, false, false, true);
    BitsOf(30, true, true, true, true, false);
    BitsOf(18, true, false, false, true, false);
    BitsOf(19, true, false, false, true, true);
    BitsOf(12, false, true, true, false, false);
    BitsOf(13, false, true, true, false, true);
    BitsOf(10, false, true, false, true, false);
    BitsOf(11, false, true, false, true, true);
    BitsOf(20, true, false, true, false, false);
    BitsOf(21, true, false, true, false, true);
  }

  lemma BitsOf(sub: nat, x: bool, y: bool, g: bool, l: bool, e: bool)
    requires sub == 16 * Bit(x) + 8 * Bit(y) + 4 * Bit(g) + 2 * Bit(l) + Bit(e)
    ensures HasBit(sub, 4) == x && HasBit(sub, 3) == y && HasBit(sub, 2) == g && HasBit(sub, 1) == l
            && HasBit(sub, 0) == e
  {
    assert Pow2(0) == 1 && Pow2(1) == 2 && Pow2(2) == 4 && Pow2(3) == 8 && Pow2(4) == 16;
  }

  /** The subtag of one comparison that stands for the table applied to two: its bits are pushed through the
      table one by one, in a byte. */
  method MergeSubs(t: Table, a: nat, b: nat) returns (res: nat)
    requires a < 32 && b < 32
    ensures res == Bits(t, 5, a, b)
  {
    res := 0;
    var aSub, bSub := a, b;
    for i := 0 to 5
      invariant Pushed(t, i, a, b, res, aSub, bSub)
    {
      PushStep(t, i, a, b, res, aSub, bSub);
      if t.At(aSub % 2 == 1, bSub % 2 == 1) {
        res := res + 128;
      }
      res, aSub, bSub := res / 2, aSub / 2, bSub / 2;
    }
    PushEnd(t, a, b, res, aSub, bSub);
    res := res / 4;
  }

  /** i bits have been pushed; they are the highest but one of the byte. */
  ghost predicate Pushed(t: Table, i: nat, a: nat, b: nat, res: nat, aSub: nat, bSub: nat) {
    i <= 5 && aSub == a / Pow2(i) && bSub == b / Pow2(i) && res == Bits(t, i, a, b) * Pow2(7 - i)
  }

  lemma PushStep(t: Table, i: nat, a: nat, b: nat, res: nat, aSub: nat, bSub: nat)
    requires i < 5 && Pushed(t, i, a, b, res, aSub, bSub)
    ensures Pushed(t, i + 1, a, b, (res + 128 * Bit(t.At(aSub % 2 == 1, bSub % 2 == 1))) / 2, aSub / 2, bSub / 2)
  {
    MergeStep(t, i, a, b);
    DivTwice(a, Pow2(i));
    DivTwice(b, Pow2(i));
  }

  lemma PushEnd(t: Table, a: nat, b: nat, res: nat, aSub: nat, bSub: nat)
    requires Pushed(t, 5, a, b, res, aSub, bSub)
    ensures res / 4 == Bits(t, 5, a, b)
  {
    assert Pow2(2) == 4;
  }

  lemma MergeStep(t: Table, i: nat, a: nat, b: nat)
    requires i < 5
    ensures var bit := Bit(t.At((a / Pow2(i)) % 2 == 1, (b / Pow2(i)) % 2 == 1));
            var next := Bits(t, i + 1, a, b) * Pow2(6 - i);
            Bits(t, i, a, b) * Pow2(7 - i) + 128 * bit == 2 * next && next < 128
  {
    BitsTop(t, i, a, b);
    BitsBound(t, i + 1, a, b);
    Powers();
    var bit := Bit(t.At((a / Pow2(i)) % 2 == 1, (b / Pow2(i)) % 2 == 1));
    ShiftIn(i, Bits(t, i, a, b), bit, Bits(t, i + 1, a, b));
  }

  lemma ShiftIn(i: nat, low: nat, bit: nat, all: nat)
    requires i < 5 && bit <= 1 && all == low + Pow2(i) * bit && all < Pow2(i + 1)
    ensures low * Pow2(7 - i) + 128 * bit == 2 * (all * Pow2(6 - i)) && all * Pow2(6 - i) < 128
  {
    Powers();
    if i == 0 {
    } else if i == 1 {
    } else if i == 2 {
    } else if i == 3 {
    } else {
      assert i == 4;
    }
  }

  lemma Powers()
    ensures Pow2(0) == 1 && Pow2(1) == 2 && Pow2(2) == 4 && Pow2(3) == 8 && Pow2(4) == 16 && Pow2(5) == 32
            && Pow2(6) == 64 && Pow2(7) == 128
  {
    assert Pow2(0) == 1 && Pow2(1) == 2 && Pow2(2) == 4 && Pow2(3) == 8;
    assert Pow2(4) == 16 && Pow2(5) == 32 && Pow2(6) == 64 && Pow2(7) == 128;
  }

  lemma DivTwice(a: nat, p: nat)
    requires p > 0
    ensures (a / p) / 2 == a / (2 * p)
  {
    var n := 2 * p;
    DivMod(a, n);
    var q, r := a / n, a % n;
    var h := if r >= p then 1 else 0;
    DoubleDiv(a, p, n, q, r, h);
    DivByHalf(a, p, 2 * q + h);
  }

  lemma DoubleDiv(a: nat, p: nat, n: nat, q: nat, r: nat, h: nat)
    requires n == 2 * p && a == q * n + r && r < n && h == if r >= p then 1 else 0
    ensures (2 * q + h) * p <= a < (2 * q + h) * p + p
  {
    assert q * n == (2 * q) * p by { assert q * (2 * p) == (2 * q) * p; }
    assert (2 * q + h) * p == (2 * q) * p + h * p;
  }

  lemma {:induction false} BitsTop(t: Table, i: nat, a: nat, b: nat)
    ensures Bits(t, i + 1, a, b)
            == Bits(t, i, a, b) + Pow2(i) * Bit(t.At((a / Pow2(i)) % 2 == 1, (b / Pow2(i)) % 2 == 1))
  {
    if i > 0 {
      BitsTop(t, i - 1, a / 2, b / 2);
      HalfDiv(a, Pow2(i - 1));
      HalfDiv(b, Pow2(i - 1));
    } else {
      assert Pow2(0) == 1 && Bits(t, 0, a / 2, b / 2) == 0;
    }
  }

  lemma HalfDiv(a: nat, p: nat)
    requires p > 0
    ensures (a / 2) / p == a / (2 * p)
  {
    var n := 2 * p;
    DivMod(a, n);
    var q, r := a / n, a % n;
    HalfShape(a, p, n, q, r);
    DivByHalf(a / 2, p, q);
  }

  lemma DivMod(a: nat, n: nat)
    requires n > 0
    ensures a / n >= 0 && a == (a / n) * n + a % n && 0 <= a % n < n
  {
  }

  lemma HalfShape(a: nat, p: nat, n: nat, q: nat, r: nat)
    requires n == 2 * p && a == q * n + r && r < n
    ensures q * p <= a / 2 < q * p + p
  {
    assert q * n == 2 * (q * p) by { assert q * (2 * p) == 2 * (q * p); }
    HalfParts(a, q * p, r);
  }

  lemma {:induction false} BitsAt(t: Table, w: nat, a: nat, b: nat, k: nat)
    requires k < w
    ensures HasBit(Bits(t, w, a, b), k) == t.At(HasBit(a, k), HasBit(b, k))
  {
    BitsStep(t, w, a, b);
    if k > 0 {
      BitsAt(t, w - 1, a / 2, b / 2, k - 1);
      HalfDiv(a, Pow2(k - 1));
      HalfDiv(b, Pow2(k - 1));
      HalfDiv(Bits(t, w, a, b), Pow2(k - 1));
    } else {
      assert Pow2(0) == 1;
    }
  }

  /** Merging two comparisons of the same words gives the comparison that holds when the table says so. */
  lemma MergeMeans(t: Table, a: nat, b: nat, w: nat, u: nat, v: nat)
    requires w > 0 && u < Pow2(w) && v < Pow2(w)
    ensures FoldIcmp(Bits(t, 5, a, b), w, u, v) == t.At(FoldIcmp(a, w, u, v), FoldIcmp(b, w, u, v))
  {
    var k := Index(RelationOf(w, u, v));
    BitsAt(t, 5, a, b, k);
    FoldIcmpMeans(a, w, u, v);
    FoldIcmpMeans(b, w, u, v);
    FoldIcmpMeans(Bits(t, 5, a, b), w, u, v);
  }
}
