/** Division facts shared by several modules. */
module Arithmetic {

  /** Quotient and remainder are determined by the equation they solve. */
  lemma DivMod(n: nat, m: nat, q: int, r: nat)
    requires r < m && n == q * m + r
    ensures n / m == q && n % m == r
  {
    var c := n / m;
    assert c < q ==> (c + 1) * m <= q * m;
    assert c > q ==> c * m >= (q + 1) * m;
  }

  /** Greatest common divisor, by Euclid. */
  function Gcd(a: nat, b: nat): (g: nat)
    ensures a > 0 || b > 0 ==> g > 0
    decreases b
  {
    if b == 0 then a else Gcd(b, a % b)
  }

  /** It divides both numbers, and is a combination of them. */
  lemma {:induction false} Bezout(a: nat, b: nat) returns (n: nat, m: nat, x: int, y: int)
    ensures a == n * Gcd(a, b) && b == m * Gcd(a, b) && x * a + y * b == Gcd(a, b)
    decreases b
  {
    if b == 0 {
      n, m, x, y := 1, 0, 1, 0;
    } else {
      var q, r := a / b, a % b;
      var g := Gcd(b, r);
      var n', m', x', y' := Bezout(b, r);
      n, m, x, y := q * n' + m', n', y', x' - q * y';
      EuclidStep(a, b, q, r, g, n', m', x', y');
    }
  }

  lemma EuclidStep(a: nat, b: nat, q: nat, r: nat, g: nat, n: nat, m: nat, x: int, y: int)
    requires a == q * b + r && b == n * g && r == m * g && x * b + y * r == g
    ensures a == (q * n + m) * g && y * a + (x - q * y) * b == g
  {
    assert q * b == q * n * g;
    assert y * a == y * q * b + y * r;
    assert (x - q * y) * b == x * b - q * y * b;
    assert y * q * b == q * y * b;
  }

  /** With n and m free of common factors, every number is n * b - m * a for some a from 0 to n - 1. */
  lemma Combine(n: nat, m: nat, x: int, y: int, j: int) returns (a: nat, b: int)
    requires n > 0 && x * n + y * m == 1
    ensures a < n && n * b - m * a == j
  {
    var z := -(y * j);
    a := z % n;
    var q := z / n;
    b := x * j - m * q;
    assert z == q * n + a;
    CombineStep(n, m, x, y, j, a, q);
  }

  lemma CombineStep(n: int, m: int, x: int, y: int, j: int, a: int, q: int)
    requires x * n + y * m == 1 && -(y * j) == q * n + a
    ensures n * (x * j - m * q) - m * a == j
  {
    assert n * (x * j - m * q) == (x * n) * j - (q * n) * m;
    assert (q * n) * m == (-(y * j) - a) * m;
    assert (-(y * j) - a) * m == -((y * m) * j) - m * a;
    assert (x * n) * j + (y * m) * j == (x * n + y * m) * j;
  }
}
