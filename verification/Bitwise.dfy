/** Words of a given width: truth tables applied bit by bit, and arithmetic modulo a power of two. */
module Bitwise {
  function Pow2(n: nat): (r: nat)
    ensures r > 0
  {
    if n == 0 then 1 else 2 * Pow2(n - 1)
  }

  /** The result for every combination of two bits; the first index belongs to the first operand. */
  datatype Table = Table(t00: bool, t01: bool, t10: bool, t11: bool) {
    function At(x: bool, y: bool): bool {
      if x then (if y then t11 else t10) else (if y then t01 else t00)
    }

    function Swap(): Table {
      Table(t00, t10, t01, t11)
    }

    predicate Symmetric() {
      t01 == t10
    }
  }

  function Bit(b: bool): nat {
    if b then 1 else 0
  }

  /** The table applied to the lowest w bits. */
  function Bits(t: Table, w: nat, x: nat, y: nat): nat {
    if w == 0 then 0 else Bit(t.At(x % 2 == 1, y % 2 == 1)) + 2 * Bits(t, w - 1, x / 2, y / 2)
  }

  function Ones(w: nat): nat {
    Pow2(w) - 1
  }

  lemma {:induction false} BitsBound(t: Table, w: nat, x: nat, y: nat)
    ensures Bits(t, w, x, y) < Pow2(w)
  {
    if w > 0 { BitsBound(t, w - 1, x / 2, y / 2); }
  }

  lemma {:induction false} BitsSwap(t: Table, w: nat, x: nat, y: nat)
    ensures Bits(t, w, x, y) == Bits(t.Swap(), w, y, x)
  {
    if w > 0 { BitsSwap(t, w - 1, x / 2, y / 2); }
  }

  /** A table that is not symmetric tells the operands apart. */
  lemma {:induction false} BitsAsymmetric(t: Table, w: nat, x: nat, y: nat)
    requires !t.Symmetric() && x < Pow2(w) && y < Pow2(w)
    ensures Bits(t, w, x, y) == Bits(t, w, y, x) <==> x == y
  {
    if w > 0 {
      BitsAsymmetric(t, w - 1, x / 2, y / 2);
    }
  }

  /** What is left of a table when one operand is fixed to all zeros or all ones, or when both are the same. */
  lemma {:induction false} BitsUnary(t: Table, w: nat, x: nat)
    requires x < Pow2(w)
    ensures Bits(t, w, 0, x) == Unary(t.t00, t.t01, w, x)
    ensures Bits(t, w, Ones(w), x) == Unary(t.t10, t.t11, w, x)
    ensures Bits(t, w, x, 0) == Unary(t.t00, t.t10, w, x)
    ensures Bits(t, w, x, Ones(w)) == Unary(t.t01, t.t11, w, x)
    ensures Bits(t, w, x, x) == Unary(t.t00, t.t11, w, x)
  {
    if w > 0 {
      assert Ones(w) / 2 == Ones(w - 1) && Ones(w) % 2 == 1;
      BitsUnary(t, w - 1, x / 2);
    }
  }

  /** The four functions of one bit, on words. */
  function Unary(f0: bool, f1: bool, w: nat, x: nat): int {
    if f0 then (if f1 then Ones(w) else Ones(w) - x) else (if f1 then x else 0)
  }

  predicate Associative(t: Table) {
    forall a, b, c :: AssociativeAt(t, a, b, c)
  }

  predicate AssociativeAt(t: Table, a: bool, b: bool, c: bool) {
    t.At(t.At(a, b), c) == t.At(a, t.At(b, c))
  }

  lemma {:induction false} BitsAssociative(t: Table, w: nat, x: nat, y: nat, z: nat)
    requires Associative(t)
    ensures Bits(t, w, Bits(t, w, x, y), z) == Bits(t, w, x, Bits(t, w, y, z))
  {
    if w > 0 {
      BitsAssociative(t, w - 1, x / 2, y / 2, z / 2);
      BitsStep(t, w, x, y);
      BitsStep(t, w, y, z);
      var a, b, c := x % 2 == 1, y % 2 == 1, z % 2 == 1;
      assert AssociativeAt(t, a, b, c);
      BitsUnfold(t, w, Bits(t, w, x, y), z, t.At(a, b), c, Bits(t, w - 1, x / 2, y / 2), z / 2);
      BitsUnfold(t, w, x, Bits(t, w, y, z), a, t.At(b, c), x / 2, Bits(t, w - 1, y / 2, z / 2));
    }
  }

  lemma BitsUnfold(t: Table, w: nat, x: nat, y: nat, a: bool, b: bool, x': nat, y': nat)
    requires w > 0 && x / 2 == x' && y / 2 == y' && a == (x % 2 == 1) && b == (y % 2 == 1)
    ensures Bits(t, w, x, y) == Bit(t.At(a, b)) + 2 * Bits(t, w - 1, x', y')
  {
  }

  lemma BitsStep(t: Table, w: nat, x: nat, y: nat)
    requires w > 0
    ensures Bits(t, w, x, y) / 2 == Bits(t, w - 1, x / 2, y / 2)
    ensures Bits(t, w, x, y) % 2 == Bit(t.At(x % 2 == 1, y % 2 == 1))
  {
  }

  /** Only the lowest w bits matter. */
  lemma {:induction false} BitsMod(t: Table, w: nat, x: nat, y: nat)
    ensures Bits(t, w, x % Pow2(w), y % Pow2(w)) == Bits(t, w, x, y)
  {
    if w > 0 {
      HalfMod(x, Pow2(w - 1));
      HalfMod(y, Pow2(w - 1));
      BitsMod(t, w - 1, x / 2, y / 2);
    }
  }

  lemma HalfMod(x: nat, m: nat)
    requires m > 0
    ensures (x % (2 * m)) / 2 == (x / 2) % m && (x % (2 * m)) % 2 == x % 2
  {
    var q, r := x / (2 * m), x % (2 * m);
    assert x == 2 * (q * m) + r by { assert q * (2 * m) == 2 * (q * m); }
    HalfParts(x, q * m, r);
    ModPlus(r / 2, q, m);
    assert (r / 2) % m == r / 2;
  }

  lemma HalfParts(x: nat, p: int, r: nat)
    requires x == 2 * p + r
    ensures x / 2 == p + r / 2 && x % 2 == r % 2
  {
  }

  /** The bits of a shorter word are the lowest bits of a longer one. */
  lemma {:induction false} BitsShorter(t: Table, w: nat, w': nat, x: nat, y: nat)
    requires w <= w'
    ensures Bits(t, w', x, y) % Pow2(w) == Bits(t, w, x, y)
  {
    if w > 0 {
      BitsShorter(t, w - 1, w' - 1, x / 2, y / 2);
      var b := Bits(t, w', x, y);
      HalfMod(b, Pow2(w - 1));
      BitsStep(t, w', x, y);
    }
  }

  lemma {:induction false} ModPlus(x: int, k: int, m: nat)
    requires m > 0
    ensures (k * m + x) % m == x % m
    decreases if k < 0 then -k else k
  {
    if k > 0 {
      ModPlus(x, k - 1, m);
      ModOnce((k - 1) * m + x, m);
      assert (k - 1) * m + x + m == k * m + x;
    } else if k < 0 {
      ModPlus(x, k + 1, m);
      ModOnce(k * m + x, m);
      assert k * m + x + m == (k + 1) * m + x;
    }
  }

  lemma ModSmall(x: int, n: nat)
    requires 0 <= x < n
    ensures x % n == x
  {
  }

  lemma ModOnce(x: int, m: nat)
    requires m > 0
    ensures (x + m) % m == x % m
  {
    var q, r := x / m, x % m;
    assert x == q * m + r && x + m == (q + 1) * m + r;
    DivUnique(x + m, q + 1, r, m);
  }

  lemma DivUnique(x: int, q: int, r: int, m: nat)
    requires m > 0 && x == q * m + r && 0 <= r < m
    ensures x % m == r && x / m == q
  {
    var q', r' := x / m, x % m;
    Times(q', q, m);
    Times(q, q', m);
  }

  lemma Times(p: int, q: int, m: nat)
    requires m > 0
    ensures p > q ==> p * m >= q * m + m
  {
    if p > q {
      assert (p - q) * m >= 1 * m by { assert p - q >= 1; }
      assert (p - q) * m == p * m - q * m;
    }
  }

  lemma ModAdd(x: int, y: int, m: nat)
    requires m > 0
    ensures (x % m + y) % m == (x + y) % m && (y + x % m) % m == (y + x) % m
  {
    assert x == (x / m) * m + x % m;
    ModPlus(x % m + y, x / m, m);
  }

  lemma ModMul(x: int, y: int, m: nat)
    requires m > 0
    ensures ((x % m) * y) % m == (x * y) % m && (y * (x % m)) % m == (y * x) % m
  {
    assert x == (x / m) * m + x % m;
    assert x * y == ((x / m) * m) * y + (x % m) * y;
    assert ((x / m) * m) * y == (x / m * y) * m;
    ModPlus((x % m) * y, x / m * y, m);
    assert y * (x % m) == (x % m) * y && y * x == x * y;
  }
}
