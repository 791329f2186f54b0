/** The two hash functions of `hopscotch.c` for keys that are compared by address, and what follows
    for the sizes at which a table takes its keys. */
module HopscotchHash {
  import opened Arithmetic
  import opened HopBits
  import opened HopscotchInvariant
  import opened HopscotchFit
  import opened HopscotchSteps

  /** `h ^ (h >> s)` */
  function XorShift(h: nat, s: nat): nat {
    Xor(h, Shr(h, s))
  }

  /** `h * c` in 32 bits. */
  function Times32(h: nat, c: nat): nat {
    h * c % Pow2(32)
  }

  /** The 32 bits of an address above the lowtag. */
  function AddressBits(key: int): nat {
    key / 16 % Pow2(32)
  }

  function Mix(h: nat): nat {
    XorShift(Times32(XorShift(Times32(XorShift(h, 16), 0x85ebca6b), 13), 0xc2b2ae35), 16)
  }

  /** hopscotch_hmix */
  function MixHash(key: int): nat {
    Mix(AddressBits(key))
  }

  /** The hash function of a table without one of its own: `(x >> card) ^ (x >> 4)` of a 64-bit word. */
  function PlainHash(card: nat, key: int): nat {
    var x: nat := key % Pow2(64);
    Xor(Shr(x, card), Shr(x, 4)) % Pow2(32)
  }

  function RuntimeHashing(card: nat, mixAlways: bool): Hashing {
    Hashing(x => PlainHash(card, x), MixHash, mixAlways)
  }

  // ---- The mixing hash loses nothing ----

  lemma {:induction false} XorSelfInverse(a: nat, b: nat)
    ensures Xor(Xor(a, b), b) == a
    decreases a + b
  {
    if a == 0 && b == 0 {
    } else {
      XorSelfInverse(a / 2, b / 2);
      XorStep(a, b);
      XorStep(Xor(a, b), b);
    }
  }

  lemma {:induction false} ShrOfXor(a: nat, b: nat, s: nat)
    ensures Shr(Xor(a, b), s) == Xor(Shr(a, s), Shr(b, s))
    decreases s
  {
    if s > 0 {
      XorStep(a, b);
      ShrOfXor(a / 2, b / 2, s - 1);
    }
  }

  lemma {:induction false} XorBound(a: nat, b: nat, k: nat)
    requires a < Pow2(k) && b < Pow2(k)
    ensures Xor(a, b) < Pow2(k)
    decreases k
  {
    if k > 0 {
      XorBound(a / 2, b / 2, k - 1);
      XorStep(a, b);
    }
  }

  lemma {:induction false} ShrSmaller(h: nat, s: nat)
    ensures Shr(h, s) <= h && (s > 0 && h > 0 ==> Shr(h, s) < h)
    decreases s
  {
    if s > 0 { ShrSmaller(h / 2, s - 1); }
  }

  /** A word can be recovered from its exclusive-or with itself shifted. */
  lemma {:induction false} XorShiftInjective(a: nat, b: nat, s: nat)
    requires s > 0 && XorShift(a, s) == XorShift(b, s)
    ensures a == b
    decreases a + b
  {
    hide Xor, Shr;
    ShrSmaller(a, s);
    ShrSmaller(b, s);
    ShrOfXor(a, Shr(a, s), s);
    ShrOfXor(b, Shr(b, s), s);
    if a + b > 0 { XorShiftInjective(Shr(a, s), Shr(b, s), s); }
    XorSelfInverse(a, Shr(a, s));
    XorSelfInverse(b, Shr(b, s));
  }

  lemma XorShiftBound(h: nat, s: nat)
    requires h < Pow2(32)
    ensures XorShift(h, s) < Pow2(32)
  {
    hide Pow2, Xor, Shr;
    ShrSmaller(h, s);
    XorBound(h, Shr(h, s), 32);
  }

  /** An odd factor can be cancelled modulo a power of two. */
  lemma {:induction false} OddCancels(d: nat, c: nat, k: nat)
    requires c % 2 == 1 && d * c % Pow2(k) == 0
    ensures d % Pow2(k) == 0
    decreases k
  {
    if k > 0 {
      var p := Pow2(k - 1);
      ModDouble(d * c, p);
      OddProduct(d, c);
      OddCancels(d / 2, c, k - 1);
      ModDouble(d, p);
    }
  }

  lemma OddProduct(d: nat, c: nat)
    requires c % 2 == 1 && d * c % 2 == 0
    ensures d % 2 == 0 && d * c / 2 == d / 2 * c
  {
    var e, r, f := d / 2, d % 2, c / 2;
    assert d * c == 2 * (e * c) + r * c by { assert d == 2 * e + r; }
    assert r == 1 ==> d * c == 2 * (e * c + f) + 1;
  }

  lemma TimesInjective(a: nat, b: nat, c: nat)
    requires a < Pow2(32) && b < Pow2(32) && c % 2 == 1 && Times32(a, c) == Times32(b, c)
    ensures a == b
    decreases a > b
  {
    hide Pow2;
    if a > b {
      TimesInjective(b, a, c);
      return;
    }
    var p, d := Pow2(32), b - a;
    assert d * c == b * c - a * c;
    DifferenceMod(b * c, a * c, p);
    OddCancels(d, c, 32);
    SmallMod(d, p);
  }

  lemma DifferenceMod(x: nat, y: nat, p: nat)
    requires p > 0 && y <= x && x % p == y % p
    ensures (x - y) % p == 0
  {
    assert x == x / p * p + x % p && y == y / p * p + y % p;
    assert x - y == (x / p - y / p) * p;
    ModUnique(x - y, p, x / p - y / p, 0);
  }

  lemma TimesBound(h: nat, c: nat)
    ensures Times32(h, c) < Pow2(32)
  {
  }

  /** One shift and one odd factor. */
  lemma RoundInjective(a: nat, b: nat, s: nat, c: nat)
    requires a < Pow2(32) && b < Pow2(32) && s > 0 && c % 2 == 1
    requires Times32(XorShift(a, s), c) == Times32(XorShift(b, s), c)
    ensures a == b
  {
    hide Pow2, XorShift, Times32;
    XorShiftBound(a, s);
    XorShiftBound(b, s);
    TimesInjective(XorShift(a, s), XorShift(b, s), c);
    XorShiftInjective(a, b, s);
  }

  /** The mixing is a permutation of the 32-bit words. */
  lemma MixInjective(a: nat, b: nat)
    requires a < Pow2(32) && b < Pow2(32)
    ensures Mix(a) < Pow2(32) && (Mix(a) == Mix(b) ==> a == b)
  {
    hide Pow2, XorShift, Times32;
    var a1, b1 := Times32(XorShift(a, 16), 0x85ebca6b), Times32(XorShift(b, 16), 0x85ebca6b);
    var a2, b2 := Times32(XorShift(a1, 13), 0xc2b2ae35), Times32(XorShift(b1, 13), 0xc2b2ae35);
    forall h: nat, c: nat ensures Times32(h, c) < Pow2(32) { TimesBound(h, c); }
    XorShiftBound(a2, 16);
    if Mix(a) == Mix(b) {
      XorShiftInjective(a2, b2, 16);
      RoundInjective(a1, b1, 13, 0xc2b2ae35);
      RoundInjective(a, b, 16, 0x85ebca6b);
    }
  }

  /** hopscotch_hmix tells two keys apart exactly if they differ in the 32 bits above the lowtag. */
  lemma MixHashIff(x: int, y: int)
    ensures MixHash(x) < Pow2(32)
    ensures MixHash(x) == MixHash(y) <==> AddressBits(x) == AddressBits(y)
  {
    hide Pow2, Mix;
    assert AddressBits(x) < Pow2(32) && AddressBits(y) < Pow2(32);
    MixInjective(AddressBits(x), AddressBits(y));
  }

  ghost predicate AddressesDiffer(ks: set<int>) {
    forall x, y :: x in ks && y in ks && AddressBits(x) == AddressBits(y) ==> x == y
  }

  /** In a run on keys that differ in those bits, such as objects within 64 gigabytes, with the
      runtime's own hash functions no addition is refused. */
  lemma DifferentAddressesHaveRoom(card: nat, mixAlways: bool, m: map<int, int>, ops: seq<Op>, fuel: nat)
    requires fuel >= 32 + 2 * (|m| + |ops|)
    requires forall n :: 0 < n <= |ops| ==> AddressesDiffer(Denote(m, ops[..n]).Keys)
    ensures RoomThroughout(RuntimeHashing(card, mixAlways), m, ops, fuel)
  {
    hide Pow2, Denote, AddressBits, MixHash, RoomThroughout;
    forall x, y ensures MixHash(x) < Pow2(32) && (MixHash(x) == MixHash(y) ==> AddressBits(x) == AddressBits(y)) {
      MixHashIff(x, y);
    }
    DifferentHashesHaveRoom(RuntimeHashing(card, mixAlways), m, ops, fuel);
  }

  // ---- Keys that no table holds ----

  lemma {:induction false} XorCongruent(a: nat, b: nat, c: nat, d: nat, k: nat)
    requires a % Pow2(k) == c % Pow2(k) && b % Pow2(k) == d % Pow2(k)
    ensures Xor(a, b) % Pow2(k) == Xor(c, d) % Pow2(k)
    decreases k
  {
    if k > 0 {
      hide Xor;
      var p := Pow2(k - 1);
      ModDouble(a, p);
      ModDouble(b, p);
      ModDouble(c, p);
      ModDouble(d, p);
      XorCongruent(a / 2, b / 2, c / 2, d / 2, k - 1);
      XorStep(a, b);
      XorStep(c, d);
      ModDouble(Xor(a, b), p);
      ModDouble(Xor(c, d), p);
    }
  }

  /** Reducing modulo a larger power of two first changes nothing. */
  lemma ModMod(x: nat, i: nat, k: nat)
    requires k <= i
    ensures x % Pow2(i) % Pow2(k) == x % Pow2(k)
  {
    Pow2Sum(i - k, k);
    ModProduct(x, Pow2(i - k), Pow2(k));
  }

  lemma ModProduct(x: nat, q: nat, p: nat)
    requires q * p > 0 && p > 0
    ensures x % (q * p) % p == x % p
  {
    var n := q * p;
    var y, z := x % n, x / n;
    assert x == z * n + y;
    Assoc(z, q, p);
    AddMultiple(y, z * q, p);
  }

  /** Moving a word up by a multiple of 2^36 leaves its low bits after a shift alone. */
  lemma ShiftedFar(x: nat, i: nat, s: nat, k: nat)
    requires s + k <= 36
    ensures Shr(x + i * Pow2(36), s) % Pow2(k) == Shr(x, s) % Pow2(k)
  {
    hide Pow2, Shr;
    ShrIsDiv(x, s);
    ShrIsDiv(x + i * Pow2(36), s);
    Pow2Sum(36 - s - k, k);
    Pow2Sum(36 - s - k + k, s);
    var r, t, u := Pow2(36 - s - k), Pow2(k), Pow2(s);
    assert Pow2(36) == r * t * u;
    ShiftedMultiple(x, i, r, t, u);
  }

  lemma ShiftedMultiple(x: nat, i: nat, r: nat, t: nat, s: nat)
    requires t > 0 && s > 0
    ensures (x + i * (r * t * s)) / s % t == x / s % t
  {
    var q := r * t;
    assert i * (q * s) == (i * q) * s by { Assoc(i, q, s); }
    AddMultiple(x, i * q, s);
    assert i * q == (i * r) * t by { Assoc(i, r, t); }
    AddMultiple(x / s, i * r, t);
  }

  /** `2^36 * i` above a base address: such keys agree in the bits that either hash function uses. */
  function FarKey(base: nat, i: nat): int {
    base + i * Pow2(36)
  }

  lemma ShiftedAddress(x: nat)
    ensures AddressBits(x) == Shr(x, 4) % Pow2(32)
  {
    hide Pow2, Shr;
    GroupShifts(x);
  }

  lemma FarKeysMix(base: nat, i: nat)
    ensures AddressBits(FarKey(base, i)) == AddressBits(base)
  {
    hide Pow2, Shr, AddressBits;
    FarAbove(base, i);
    ShiftedAddress(base);
    ShiftedAddress(FarKey(base, i));
    ShiftedFar(base, i, 4, 32);
  }

  lemma PlainLow(card: nat, x: nat, k: nat)
    requires x < Pow2(64) && k <= 32
    ensures PlainHash(card, x) % Pow2(k) == Xor(Shr(x, card), Shr(x, 4)) % Pow2(k)
  {
    hide Pow2, Xor, Shr;
    SmallMod(x, Pow2(64));
    ModMod(Xor(Shr(x, card), Shr(x, 4)), 32, k);
  }

  lemma FarAbove(base: nat, i: nat)
    ensures base <= FarKey(base, i)
  {
    hide Pow2;
    MulMono(0, i, Pow2(36));
  }

  lemma MulMono(i: nat, j: nat, p: nat)
    requires i <= j
    ensures i * p <= j * p && (i < j && p > 0 ==> i * p < j * p)
  {
    assert (j - i) * p == j * p - i * p;
  }

  /** The plain hash of a far key agrees in its low 14 bits. */
  lemma FarKeysPlain(card: nat, base: nat, i: nat, k: nat)
    requires FarKey(base, i) < Pow2(64) && card <= 22 && k <= 14
    ensures PlainHash(card, FarKey(base, i)) % Pow2(k) == PlainHash(card, base) % Pow2(k)
  {
    hide Pow2, Xor, Shr;
    var x := FarKey(base, i);
    FarAbove(base, i);
    PlainLow(card, x, k);
    PlainLow(card, base, k);
    ShiftedFar(base, i, card, k);
    ShiftedFar(base, i, 4, k);
    hide FarKey, PlainHash;
    XorCongruent(Shr(x, card), Shr(x, 4), Shr(base, card), Shr(base, 4), k);
  }

  /** In a table of any size they have the same bin. */
  lemma FarKeysMeet(card: nat, mixAlways: bool, n: nat, base: nat, i: nat)
    requires IsPow2(n) && FarKey(base, i) < Pow2(64) && card <= 22
    ensures RuntimeHashing(card, mixAlways).ShapeFor(n).Ok()
    ensures var sh := RuntimeHashing(card, mixAlways).ShapeFor(n); sh.Bin(FarKey(base, i)) == sh.Bin(base)
  {
    hide And, PlainHash, AddressBits, Mix, Pow2, FarKey;
    var sh, x := RuntimeHashing(card, mixAlways).ShapeFor(n), FarKey(base, i);
    BinBelowSize(sh, x);
    BinBelowSize(sh, base);
    if mixAlways || n > 16384 {
      FarKeysMix(base, i);
    } else {
      SmallLog(n);
      FarKeysPlain(card, base, i, Log2(n));
    }
  }

  lemma SmallLog(n: nat)
    requires IsPow2(n) && n <= 16384
    ensures Log2(n) <= 14
  {
    if Log2(n) > 14 {
      Pow2Grows(15, Log2(n));
      Pow2Fifteen();
    }
  }

  /** The first `n` of the far keys. */
  ghost function FarKeys(base: nat, n: nat): set<int> {
    set i: nat | i < n :: FarKey(base, i)
  }

  lemma {:induction false} FarKeysCount(base: nat, n: nat)
    ensures |FarKeys(base, n)| == n
  {
    hide Pow2;
    if n == 0 {
      assert FarKeys(base, n) == {};
    } else {
      FarKeysCount(base, n - 1);
      assert FarKeys(base, n) == FarKeys(base, n - 1) + {FarKey(base, n - 1)};
      forall i: nat | i < n - 1 ensures FarKey(base, i) != FarKey(base, n - 1) {
        MulMono(i, n - 1, Pow2(36));
      }
    }
  }

  /** With the runtime's hash functions and 33 keys that are 2^36 apart, doubling does not end. */
  lemma FarKeysNeverEnd(card: nat, mixAlways: bool, base: nat, n: nat, key: int)
    requires IsPow2(n) && FarKey(base, 32) < Pow2(64) && card <= 22
    ensures var hs, ks := RuntimeHashing(card, mixAlways), FarKeys(base, 33);
            && !(exists j: nat :: j >= 1 && FitsAfter(hs, n, j, ks))
            && !(exists j: nat :: j >= 1 && TakenAfter(hs, n, j, ks, key))
  {
    var hs, ks := RuntimeHashing(card, mixAlways), FarKeys(base, 33);
    FarKeysCount(base, 33);
    forall j: nat ensures !FitsAfter(hs, n, j, ks) && !TakenAfter(hs, n, j, ks, key) {
      DoubledIsPow2(n, j);
      FarKeysNeverFit(card, mixAlways, base, Doubled(n, j));
      if TakenAfter(hs, n, j, ks, key) { TakenFits(hs, n, j, ks, key); }
    }
  }

  lemma FarKeysNeverFit(card: nat, mixAlways: bool, base: nat, n: nat)
    requires IsPow2(n) && FarKey(base, 32) < Pow2(64) && card <= 22
    ensures var hs := RuntimeHashing(card, mixAlways);
            hs.ShapeFor(n).Ok() && !Fits(hs.ShapeFor(n), FarKeys(base, 33))
  {
    var hs, ks := RuntimeHashing(card, mixAlways), FarKeys(base, 33);
    var sh := hs.ShapeFor(n);
    FarKeysCount(base, 33);
    forall x | x in ks ensures sh.Bin(x) == sh.Bin(base) {
      var i: nat :| i < 33 && x == FarKey(base, i);
      FarBelow(base, i);
      FarKeysMeet(card, mixAlways, n, base, i);
    }
    CrowdNeverFits(hs, n, ks, ks);
  }

  lemma FarBelow(base: nat, i: nat)
    requires i <= 32
    ensures FarKey(base, i) <= FarKey(base, 32)
  {
    hide Pow2;
    MulMono(i, 32, Pow2(36));
  }
}
