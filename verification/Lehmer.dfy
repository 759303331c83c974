/** The Lehmer generator of random.c. */
module Lehmer {

  const M: nat := 2147483647
  const A: nat := 16807

  /** The seeds the generator runs through. */
  predicate GoodSeed(s: nat) {
    1 <= s < M
  }

  /** rand_next on the 32-bit seed, with the 64-bit product and the narrowing cast. */
  function NextSeed(seed: nat): nat
    requires seed < 0x1_0000_0000
  {
    var product := seed * A % 0x1_0000_0000_0000_0000;
    var folded := (product / 0x8000_0000 + product % 0x8000_0000) % 0x1_0000_0000;
    if folded > M then folded - M else folded
  }

  class Random {
    var seed: nat

    /** rand_init */
    constructor (s: nat)
      requires s < 0x1_0000_0000
      ensures GoodSeed(seed) && 1 <= seed < 2147483647
      ensures seed == if s % 0x8000_0000 in {0, 2147483647} then 1 else s % 0x8000_0000
    {
      var masked := s % 0x8000_0000;
      seed := if masked == 0 || masked == M then 1 else masked;
    }

    /** rand_next: one multiplication by 16807 modulo 2^31 - 1, without a division. */
    method Next() returns (r: nat)
      requires GoodSeed(seed)
      modifies this
      ensures r == seed == 16807 * old(seed) % 2147483647
      ensures GoodSeed(seed)
    {
      NextIsProductModM(seed);
      var product := seed * A % 0x1_0000_0000_0000_0000;
      seed := (product / 0x8000_0000 + product % 0x8000_0000) % 0x1_0000_0000;
      if seed > M {
        seed := seed - M;
      }
      r := seed;
    }
  }

  lemma Remainder(x: int, q: int, r: int)
    requires x == M * q + r && 0 <= r < M
    ensures x % M == r && x / M == q
  {
  }

  /** 1407677000 is the inverse of 16807: multiplying by it undoes a step. */
  const INVERSE: nat := 1407677000

  lemma StepIsUndone(seed: nat)
    requires seed < M
    ensures INVERSE * (A * seed % M) % M == seed
  {
    var q, r := A * seed / M, A * seed % M;
    assert A * seed == M * q + r;
    assert INVERSE * A == 11017 * M + 1;
    assert INVERSE * r == M * (11017 * seed - INVERSE * q) + seed;
    Remainder(INVERSE * r, 11017 * seed - INVERSE * q, seed);
  }

  /** Shift and mask split the product into hi * 2^31 + lo, which is hi + lo modulo 2^31 - 1. */
  lemma Fold(product: nat)
    requires product < M * A && product % M != 0
    ensures var folded := product / 0x8000_0000 + product % 0x8000_0000;
            folded < 0x1_0000_0000 && (if folded > M then folded - M else folded) == product % M
  {
  }

  /** The folding of the product by shift and mask is reduction modulo 2^31 - 1. */
  lemma NextIsProductModM(seed: nat)
    requires GoodSeed(seed)
    ensures NextSeed(seed) == A * seed % M && GoodSeed(NextSeed(seed))
  {
    StepIsUndone(seed);
    Fold(A * seed);
    FoldsProduct(seed, A * seed);
  }

  /** Neither the 64-bit product nor the narrowing cast loses anything. */
  lemma FoldsProduct(seed: nat, product: nat)
    requires GoodSeed(seed) && product == A * seed
    ensures var folded := product / 0x8000_0000 + product % 0x8000_0000;
            NextSeed(seed) == if folded > M then folded - M else folded
  {
    assert product % 0x1_0000_0000_0000_0000 == product;
    var folded := product / 0x8000_0000 + product % 0x8000_0000;
    assert folded % 0x1_0000_0000 == folded;
  }

  /** The two seeds rand_init avoids never change. */
  lemma BadSeedsAreStuck()
    ensures NextSeed(0) == 0 && NextSeed(M) == M
  {
  }

  // ----- Runs of the generator -----

  function PreviousSeed(seed: nat): nat {
    INVERSE * seed % M
  }

  /** rand_next is a bijection on the good seeds. */
  lemma NextIsBijection(seed: nat)
    requires GoodSeed(seed)
    ensures GoodSeed(NextSeed(seed)) && PreviousSeed(NextSeed(seed)) == seed
    ensures GoodSeed(PreviousSeed(seed)) && NextSeed(PreviousSeed(seed)) == seed
  {
    NextIsProductModM(seed);
    StepIsUndone(seed);
    StepIsRedone(seed);
    NextIsProductModM(PreviousSeed(seed));
  }

  lemma StepIsRedone(seed: nat)
    requires GoodSeed(seed)
    ensures A * (INVERSE * seed % M) % M == seed && GoodSeed(INVERSE * seed % M)
  {
    var q, r := INVERSE * seed / M, INVERSE * seed % M;
    assert INVERSE * seed == M * q + r;
    assert A * INVERSE == 11017 * M + 1;
    assert A * r == M * (11017 * seed - A * q) + seed;
    Remainder(A * r, 11017 * seed - A * q, seed);
  }

  /** The seed after k calls. */
  function After(seed: nat, k: nat): (r: nat)
    requires GoodSeed(seed)
    ensures GoodSeed(r)
  {
    if k == 0 then seed
    else
      NextIsProductModM(After(seed, k - 1));
      NextSeed(After(seed, k - 1))
  }

  function Power(b: nat, k: nat): nat {
    if k == 0 then 1 else b * Power(b, k - 1)
  }

  lemma MulRemainder(a: nat, x: nat)
    ensures a * (x % M) % M == a * x % M
  {
    var q, r := x / M, x % M;
    var p := a * r / M;
    assert x == M * q + r;
    assert a * x == a * (M * q) + a * r;
    assert a * (M * q) == M * (a * q);
    Remainder(a * x, a * q + p, a * r % M);
  }

  lemma StepOfPower(p: nat, seed: nat)
    ensures A * (p * seed % M) % M == (A * p) * seed % M
  {
    MulRemainder(A, p * seed);
    assert A * (p * seed) == (A * p) * seed;
  }

  /** After k calls the seed is 16807^k times the first one, modulo 2^31 - 1. */
  lemma {:induction false} AfterIsPower(seed: nat, k: nat)
    requires GoodSeed(seed)
    ensures After(seed, k) == Power(A, k) * seed % M
  {
    hide NextSeed;
    if k == 0 {
      Remainder(seed, 0, seed);
    } else {
      AfterIsPower(seed, k - 1);
      NextIsProductModM(After(seed, k - 1));
      StepOfPower(Power(A, k - 1), seed);
    }
  }
}
