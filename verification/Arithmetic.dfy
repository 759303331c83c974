/** Division, remainder and products of variables. */
module Arithmetic {

  function Min(x: int, y: int): int { if x < y then x else y }

  lemma AtLeastOneFactor(n: nat, x: int)
    ensures x >= 1 ==> n * x >= n
  {
  }

  lemma NonNegative(a: nat, b: nat)
    ensures a * b >= 0
  {
  }

  lemma MulMonotone(c: nat, a: nat, b: nat)
    ensures a <= b ==> c * a <= c * b
  {
  }

  lemma Distribute(n: int, a: int, b: int)
    ensures n * (a + b) == n * a + n * b
  {
  }

  /** Quotient and remainder are unique. */
  lemma DivModUnique(n: nat, q: int, r: nat)
    requires r < n
    ensures (n * q + r) / n == q && (n * q + r) % n == r
  {
    var a, b := (n * q + r) / n, (n * q + r) % n;
    assert n * q + r == n * a + b;
    assert n * (q - a) == b - r;
    AtLeastOneFactor(n, q - a);
    AtLeastOneFactor(n, a - q);
  }
}
