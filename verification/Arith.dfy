/** Least and greatest of two numbers, and the floor-division facts used by the timing models.
    Each lemma isolates a single non-linear step. */
module Arith {
  function Min(a: int, b: int): int {
    if a <= b then a else b
  }

  function Max(a: int, b: int): int {
    if a >= b then a else b
  }

  lemma MulLe(a: int, b: int, k: int)
    requires a <= b && 0 <= k
    ensures a * k <= b * k
  {}

  lemma MulDist(a: int, b: int, k: int)
    ensures (a + b) * k == a * k + b * k
  {}

  lemma MulAssoc(a: int, b: int, c: int)
    ensures (a * b) * c == a * (b * c)
  {}

  /** The quotient is the only multiple of b within b below a. */
  lemma MulUnique(a: int, b: int, p: int, q: int)
    requires b > 0 && p * b <= a < p * b + b && q * b <= a < q * b + b
    ensures p == q
  {
    MulDist(p, 1, b);
    MulDist(q, 1, b);
    if p < q {
      MulLe(p + 1, q, b);
    } else if q < p {
      MulLe(q + 1, p, b);
    }
  }

  lemma DivBounds(a: int, b: int)
    requires b > 0
    ensures (a / b) * b <= a < (a / b) * b + b
    ensures a % b == a - (a / b) * b
  {}

  lemma DivUnique(a: int, b: int, q: int)
    requires b > 0 && q * b <= a < q * b + b
    ensures a / b == q && a % b == a - q * b
  {
    DivBounds(a, b);
    MulUnique(a, b, a / b, q);
  }

  /** The adjunction of floor division: n * b fits in a exactly when n is at most a / b. */
  lemma DivGe(a: int, b: int, n: int)
    requires b > 0
    ensures n <= a / b <==> n * b <= a
  {
    var q := a / b;
    DivBounds(a, b);
    if n <= q {
      MulLe(n, q, b);
    } else {
      MulDist(q, 1, b);
      MulLe(q + 1, n, b);
    }
  }

  lemma DivMono(a: int, a': int, b: int)
    requires b > 0 && a <= a'
    ensures a / b <= a' / b
  {
    DivBounds(a, b);
    DivGe(a', b, a / b);
  }

  lemma DivShift(a: int, b: int, k: int)
    requires b > 0
    ensures (a + k * b) / b == a / b + k
    ensures (a + k * b) % b == a % b
  {
    DivBounds(a, b);
    MulDist(a / b, k, b);
    DivUnique(a + k * b, b, a / b + k);
  }

  /** Reducing an operand first does not change a remainder. */
  lemma ModAbsorb(a: int, b: int, m: int)
    requires m > 0
    ensures (a % m + b) % m == (a + b) % m
    ensures (b - a % m) % m == (b - a) % m
  {
    DivBounds(a, m);
    DivShift(a % m + b, m, a / m);
    DivShift(b - a, m, a / m);
  }

  lemma MulPositive(a: int, b: int)
    requires a > 0 && b > 0
    ensures a * b > 0
  {}

  /** Cancelling a common factor of dividend and divisor. */
  lemma DivCancel(a: int, b: int, k: int)
    requires b > 0 && k > 0
    ensures k * b > 0
    ensures (k * a) / (k * b) == a / b
  {
    var q, r := a / b, a % b;
    MulPositive(k, b);
    DivBounds(a, b);
    MulScale(q, b, r, k);
    MulLe(0, r, k);
    MulLe(r + 1, b, k);
    MulDist(r, 1, k);
    DivUnique(k * a, k * b, q);
  }

  lemma MulScale(q: int, b: int, r: int, k: int)
    ensures k * (q * b + r) == q * (k * b) + r * k
  {
    assert k * (q * b + r) == k * (q * b) + k * r;
    assert k * (q * b) == q * (k * b);
  }

  /** Dividing twice is dividing by the product. */
  lemma DivDiv(a: int, b: int, c: int)
    requires b > 0 && c > 0
    ensures c * b > 0
    ensures a / b / c == a / (c * b)
  {
    var x := a / b;
    var q, s := x / c, x % c;
    MulPositive(c, b);
    DivBounds(a, b);
    DivBounds(x, c);
    ProductDigits(q, s, a % b, b, c);
    DivUnique(a, c * b, q);
  }

  /** A number with digits s < c and r < b above a quotient q. */
  lemma ProductDigits(q: int, s: int, r: int, b: int, c: int)
    requires 0 <= s < c && 0 <= r < b
    ensures (q * c + s) * b + r == q * (c * b) + (s * b + r)
    ensures 0 <= s * b + r < c * b
  {
    MulDist(q * c, s, b);
    MulAssoc(q, c, b);
    MulLe(0, s, b);
    MulLe(s + 1, c, b);
    MulDist(s, 1, b);
  }

  /** A remainder by a product, digit by digit. */
  lemma ModSplit(x: int, b: int, c: int)
    requires b > 0 && c > 0
    ensures c * b > 0
    ensures x % (c * b) == (x / b % c) * b + x % b
  {
    var y := x / b;
    var q, s := y / c, y % c;
    MulPositive(c, b);
    DivBounds(x, b);
    DivBounds(y, c);
    ProductDigits(q, s, x % b, b, c);
    DivUnique(x, c * b, q);
  }

  /** Reducing by a multiple of m first does not change the remainder by m. */
  lemma ModOfMod(x: int, m: int, k: int)
    requires m > 0 && k > 0
    ensures k * m > 0
    ensures x % (k * m) % m == x % m
  {
    MulPositive(k, m);
    var n := k * m;
    var q := x / n;
    DivBounds(x, n);
    MulAssoc(q, k, m);
    DivShift(x % n, m, q * k);
  }

  /** Adding d advances a quotient by d / b or one more; by exactly d / b when b divides d. */
  lemma DivDiff(a: int, d: int, b: int)
    requires b > 0
    ensures d / b <= (a + d) / b - a / b <= d / b + 1
    ensures d % b == 0 ==> (a + d) / b - a / b == d / b
  {
    var s := a % b + d % b;
    DivBounds(a, b);
    DivBounds(d, b);
    MulDist(a / b, d / b, b);
    MulDist(a / b + d / b, 1, b);
    DivUnique(a + d, b, if s < b then a / b + d / b else a / b + d / b + 1);
  }
}
