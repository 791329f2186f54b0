/** Binary digits of unsigned words, as the hop masks of `hopscotch.c` use them.
    A mask is a natural number; bit `j` says whether a logical bin owns the cell
    `j` places to its right. */
module HopBits {
  import opened Arithmetic

  predicate Bit(m: nat, j: nat)
  {
    if j == 0 then m % 2 == 1 else Bit(m / 2, j - 1)
  }

  function Pow2(k: nat): (p: nat)
    ensures p >= 1
  {
    if k == 0 then 1 else 2 * Pow2(k - 1)
  }

  lemma GroupWidths()
    ensures Pow2(1) == 2 && Pow2(4) == 16 && Pow2(8) == 256
  {
    assert Pow2(4) == 2 * Pow2(3) == 4 * Pow2(2) == 8 * Pow2(1) == 16;
    assert Pow2(8) == 2 * Pow2(7) == 4 * Pow2(6) == 8 * Pow2(5) == 16 * Pow2(4);
  }

  predicate IsPow2(n: nat)
  {
    n == 1 || (n > 0 && n % 2 == 0 && IsPow2(n / 2))
  }

  lemma {:induction false} Pow2IsPow2(k: nat)
    ensures IsPow2(Pow2(k))
  {
    if k > 0 { Pow2IsPow2(k - 1); }
  }

  function Log2(n: nat): (k: nat)
    requires IsPow2(n)
    ensures n == Pow2(k)
  {
    if n == 1 then 0 else 1 + Log2(n / 2)
  }

  /** `a ^ b` */
  function Xor(a: nat, b: nat): nat
    decreases a + b
  {
    if a == 0 && b == 0 then 0 else (a % 2 + b % 2) % 2 + 2 * Xor(a / 2, b / 2)
  }

  /** `a | b` */
  function Or(a: nat, b: nat): nat
    decreases a + b
  {
    if a == 0 && b == 0 then 0
    else (if a % 2 == 1 || b % 2 == 1 then 1 else 0) + 2 * Or(a / 2, b / 2)
  }

  /** `a & b` */
  function And(a: nat, b: nat): nat
    decreases a
  {
    if a == 0 then 0
    else (if a % 2 == 1 && b % 2 == 1 then 1 else 0) + 2 * And(a / 2, b / 2)
  }

  /** `bitmask_of_width`: the word with `n` low-order ones. */
  function LowOnes(n: nat): nat
  {
    if n == 0 then 0 else 1 + 2 * LowOnes(n - 1)
  }

  /** `ffs(m) - 1` */
  function LowestBit(m: nat): (j: nat)
    requires m != 0
    ensures Bit(m, j)
    ensures forall i: nat :: i < j ==> !Bit(m, i)
  {
    if m % 2 == 1 then 0 else 1 + LowestBit(m / 2)
  }

  function PopCount(m: nat): nat
  {
    if m == 0 then 0 else m % 2 + PopCount(m / 2)
  }

  lemma {:induction false} BitOfZero(j: nat)
    ensures !Bit(0, j)
  {
    if j > 0 { BitOfZero(j - 1); }
  }

  lemma LowBit(low: nat, high: nat)
    requires low < 2
    ensures (low + 2 * high) / 2 == high && (low + 2 * high) % 2 == low
  {
  }

  lemma {:induction false} XorStep(a: nat, b: nat)
    ensures Xor(a, b) / 2 == Xor(a / 2, b / 2)
    ensures Xor(a, b) % 2 == 1 <==> a % 2 != b % 2
  {
    LowBit((a % 2 + b % 2) % 2, Xor(a / 2, b / 2));
  }

  lemma {:induction false} BitOfXor(a: nat, b: nat, j: nat)
    ensures Bit(Xor(a, b), j) <==> Bit(a, j) != Bit(b, j)
    decreases j
  {
    hide Xor;
    XorStep(a, b);
    if j > 0 { BitOfXor(a / 2, b / 2, j - 1); }
  }

  lemma {:induction false} OrStep(a: nat, b: nat)
    ensures Or(a, b) / 2 == Or(a / 2, b / 2)
    ensures Or(a, b) % 2 == 1 <==> a % 2 == 1 || b % 2 == 1
  {
    LowBit(if a % 2 == 1 || b % 2 == 1 then 1 else 0, Or(a / 2, b / 2));
  }

  lemma {:induction false} BitOfOr(a: nat, b: nat, j: nat)
    ensures Bit(Or(a, b), j) <==> Bit(a, j) || Bit(b, j)
    decreases j
  {
    hide Or;
    OrStep(a, b);
    if j > 0 { BitOfOr(a / 2, b / 2, j - 1); }
  }

  lemma {:induction false} AndStep(a: nat, b: nat)
    ensures And(a, b) / 2 == And(a / 2, b / 2)
    ensures And(a, b) % 2 == 1 <==> a % 2 == 1 && b % 2 == 1
  {
    LowBit(if a % 2 == 1 && b % 2 == 1 then 1 else 0, And(a / 2, b / 2));
  }

  lemma {:induction false} BitOfAnd(a: nat, b: nat, j: nat)
    ensures Bit(And(a, b), j) <==> Bit(a, j) && Bit(b, j)
    decreases j
  {
    hide And;
    AndStep(a, b);
    if j > 0 { BitOfAnd(a / 2, b / 2, j - 1); }
  }

  lemma {:induction false} BitOfPow2(k: nat, j: nat)
    ensures Bit(Pow2(k), j) <==> j == k
  {
    if k == 0 {
      if j > 0 { BitOfZero(j - 1); }
    } else if j > 0 {
      BitOfPow2(k - 1, j - 1);
    }
  }

  lemma {:induction false} BitOfLowOnes(n: nat, j: nat)
    ensures Bit(LowOnes(n), j) <==> j < n
  {
    if n == 0 {
      BitOfZero(j);
    } else if j > 0 {
      assert LowOnes(n) / 2 == LowOnes(n - 1);
      BitOfLowOnes(n - 1, j - 1);
    }
  }

  /** Shifting right by `s` renumbers the bits. */
  function Shr(m: nat, s: nat): nat
  {
    if s == 0 then m else Shr(m / 2, s - 1)
  }

  lemma {:induction false} BitOfShr(m: nat, s: nat, j: nat)
    ensures Bit(Shr(m, s), j) <==> Bit(m, j + s)
  {
    if s > 0 { BitOfShr(m / 2, s - 1, j); }
  }

  lemma GroupShifts(m: nat)
    ensures Shr(m, 1) == m / 2 && Shr(m, 4) == m / 16 && Shr(m, 8) == m / 256
  {
    GroupWidths();
    ShrIsDiv(m, 4);
    ShrIsDiv(m, 8);
  }

  /** `m & (2^w - 1)` is nonzero exactly if one of the low `w` bits is set. */
  lemma {:induction false} LowBitSeen(m: nat, w: nat, j: nat)
    requires j < w && Bit(m, j)
    ensures m % Pow2(w) != 0
  {
    ModDouble(m, Pow2(w - 1));
    if j > 0 { LowBitSeen(m / 2, w - 1, j - 1); }
  }

  lemma {:induction false} LowBitExists(m: nat, w: nat)
    requires m % Pow2(w) != 0
    ensures m != 0 && LowestBit(m) < w
  {
    if w > 0 {
      ModDouble(m, Pow2(w - 1));
      if m % 2 == 0 { LowBitExists(m / 2, w - 1); }
    }
  }

  lemma {:induction false} ShrIsDiv(m: nat, w: nat)
    ensures Shr(m, w) == m / Pow2(w)
  {
    if w > 0 {
      ShrIsDiv(m / 2, w - 1);
      DivDouble(m, Pow2(w - 1));
    }
  }

  /** Masking with `size - 1` for a power-of-two size is reduction modulo the size. */
  lemma {:induction false} AndMaskIsMod(h: nat, n: nat)
    ensures And(h, Pow2(n) - 1) == h % Pow2(n)
    decreases n
  {
    if n == 0 {
      AndZero(h);
    } else {
      hide And;
      var p := Pow2(n - 1);
      AndStep(h, Pow2(n) - 1);
      assert (Pow2(n) - 1) / 2 == p - 1 && (Pow2(n) - 1) % 2 == 1;
      AndMaskIsMod(h / 2, n - 1);
      ModDouble(h, p);
    }
  }

  lemma {:induction false} AndZero(a: nat)
    ensures And(a, 0) == 0
  {
    if a != 0 { AndZero(a / 2); }
  }

  lemma DivDouble(h: nat, p: nat)
    requires p > 0
    ensures h / (2 * p) == (h / 2) / p
  {
    var q, r := (h / 2) / p, (h / 2) % p;
    assert h / 2 == q * p + r;
    assert h == q * (2 * p) + (h % 2 + 2 * r);
    ModUnique(h, 2 * p, q, h % 2 + 2 * r);
  }

  lemma ModDouble(h: nat, p: nat)
    requires p > 0
    ensures h % (2 * p) == h % 2 + 2 * ((h / 2) % p)
  {
    var q, r := (h / 2) / p, (h / 2) % p;
    assert h / 2 == q * p + r;
    var s := h % 2 + 2 * r;
    assert h == h % 2 + 2 * (h / 2) == q * (2 * p) + s;
    assert 0 <= s < 2 * p;
    ModUnique(h, 2 * p, q, s);
  }

  lemma {:induction false} Pow2Grows(a: nat, b: nat)
    requires a <= b
    ensures Pow2(a) <= Pow2(b)
  {
    if a < b { Pow2Grows(a, b - 1); }
  }

  lemma {:induction false} Pow2Sum(i: nat, j: nat)
    ensures Pow2(i + j) == Pow2(i) * Pow2(j)
  {
    if i > 0 {
      Pow2Sum(i - 1, j);
      Assoc(2, Pow2(i - 1), Pow2(j));
    }
  }

  lemma HalfPow2(n: nat)
    requires IsPow2(n) && n > 1
    ensures IsPow2(n / 2) && 2 * (n / 2) == n
  {
  }
}
