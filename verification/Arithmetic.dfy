/** Facts about quotients and remainders that the other modules share. */
module Arithmetic {

  lemma ModUnique(x: int, d: int, q: int, r: int)
    requires d > 0 && x == q * d + r && 0 <= r < d
    ensures x % d == r && x / d == q
  {
    SameQuotient(d, q, r, x / d, x % d);
  }

  lemma SameQuotient(d: int, q: int, r: int, q': int, r': int)
    requires d > 0 && 0 <= r < d && 0 <= r' < d
    requires q * d + r == q' * d + r'
    ensures q == q' && r == r'
  {
    MulAtLeast(q - q', d);
    MulAtLeast(q' - q, d);
    Distribute(q, q', d);
    Distribute(q', q, d);
  }

  lemma MulAtLeast(k: int, d: int)
    requires d > 0
    ensures k >= 1 ==> k * d >= d
  {
  }

  lemma Assoc(a: int, b: int, c: int)
    ensures a * (b * c) == (a * b) * c
  {
  }

  lemma Distribute(a: int, b: int, d: int)
    ensures (a + b) * d == a * d + b * d && (a - b) * d == a * d - b * d
  {
  }

  lemma MultipleMod(x: int, n: int)
    requires n > 0
    ensures x * n % n == 0 && x * n / n == x
  {
    ModUnique(x * n, n, x, 0);
  }

  lemma SumMultiple(a: int, b: int, n: int)
    requires n > 0 && a % n == 0 && b % n == 0
    ensures (a + b) % n == 0 && (a - b) % n == 0
  {
    var x, y := a / n, b / n;
    assert a == x * n && b == y * n;
    Distribute(x, y, n);
    MultipleMod(x + y, n);
    MultipleMod(x - y, n);
  }

  /** Adding a multiple of the divisor. */
  lemma AddMultiple(y: int, q: int, p: int)
    requires p > 0
    ensures (q * p + y) % p == y % p && (q * p + y) / p == q + y / p
  {
    assert y == y / p * p + y % p;
    Distribute(q, y / p, p);
    ModUnique(q * p + y, p, q + y / p, y % p);
  }

  /** Strictly between two consecutive multiples there is none. */
  lemma NoMultipleBetween(a: int, b: int, n: int)
    requires n > 0 && a % n == 0 && a < b < a + n
    ensures b % n == b - a
  {
    ModUnique(b, n, a / n, b - a);
  }

  lemma DivMono(a: int, b: int, n: int)
    requires n > 0 && a <= b
    ensures a / n <= b / n
  {
    var x, y := a / n, b / n;
    assert a == x * n + a % n && b == y * n + b % n;
    MulAtLeast(x - y, n);
    Distribute(x, y, n);
  }

  lemma DivPlusOne(a: int, n: int)
    requires n > 0
    ensures (a + n) / n == a / n + 1
  {
    assert a == (a / n) * n + a % n;
    ModUnique(a + n, n, a / n + 1, a % n);
  }
}
