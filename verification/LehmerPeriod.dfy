/** The generator of random.c runs through all good seeds before it repeats one. */
module LehmerPeriod {
  import opened Arithmetic
  import opened Lehmer
  import opened LehmerPowers
  import opened Pigeonhole

  /** Number of good seeds. */
  const PERIOD: nat := 2147483646

  // ----- Divisibility -----

  predicate Divides(d: nat, n: nat)
    requires d > 0
  {
    n % d == 0
  }

  lemma DividesTimes(d: nat, k: nat)
    requires d > 0
    ensures Divides(d, d * k)
  {
    assert d * k + 0 == d * k;
    DivModUnique(d, k, 0);
  }

  /** The least t >= from with q dividing t * b. */
  ghost function LeastMultiplier(q: nat, b: nat, from: nat): (t: nat)
    requires q > 0 && 0 < from <= q
    ensures from <= t <= q && Divides(q, t * b)
    ensures forall u: nat :: from <= u < t ==> !Divides(q, u * b)
    decreases q - from
  {
    DividesTimes(q, b);
    if Divides(q, from * b) then from else LeastMultiplier(q, b, from + 1)
  }

  ghost predicate IsPrime(q: nat) {
    q > 1 && forall t: nat :: 1 < t < q ==> !Divides(t, q)
  }

  lemma MultipleDivides(q: nat, x: nat, k: nat)
    requires q > 0 && Divides(q, x)
    ensures Divides(q, k * x)
  {
    assert k * x == q * (k * (x / q)) by {
      assert x == q * (x / q);
      assert k * (q * (x / q)) == q * (k * (x / q));
    }
    DividesTimes(q, k * (x / q));
  }

  lemma ExpandQuotient(a: nat, t: nat, b: nat)
    requires t > 0
    ensures a * b == (a / t) * (t * b) + (a % t) * b
  {
  }

  /** t * b is a multiple of q only for the multiples of the least such t. */
  lemma MultiplesOfLeast(q: nat, b: nat, a: nat)
    requires q > 0 && Divides(q, a * b)
    ensures Divides(LeastMultiplier(q, b, 1), a)
  {
    hide Divides;
    var t := LeastMultiplier(q, b, 1);
    var r := a % t;
    ExpandQuotient(a, t, b);
    MultipleDivides(q, t * b, a / t);
    DifferenceDivides(q, a * b, (a / t) * (t * b), r * b);
    assert r == 0;
    RemainderZero(t, a);
  }

  lemma RemainderZero(t: nat, a: nat)
    requires t > 0
    ensures Divides(t, a) <==> a % t == 0
  {
  }

  lemma DifferenceDivides(q: nat, x: nat, y: nat, z: nat)
    requires q > 0 && x == y + z && Divides(q, x) && Divides(q, y)
    ensures Divides(q, z)
  {
    assert x == q * (x / q) && y == q * (y / q);
    assert z == q * (x / q - y / q);
    DivModUnique(q, x / q - y / q, 0);
  }

  /** A prime that divides a product divides one of its factors. */
  lemma PrimeDividesFactor(q: nat, a: nat, b: nat)
    requires IsPrime(q) && Divides(q, a * b)
    ensures Divides(q, a) || Divides(q, b)
  {
    var t := LeastMultiplier(q, b, 1);
    MultiplesOfLeast(q, b, a);
    assert q * b == b * q;
    DividesTimes(q, b);
    MultiplesOfLeast(q, b, q);
    if t == 1 {
      assert 1 * b == b;
    } else {
      assert t == q;
    }
  }

  // ----- The primes of 2^31 - 2 -----

  lemma DividesExplicitly(t: nat, q: nat, u: nat)
    requires 1 < t < q && q == t * u
    ensures 1 < u < q
  {
  }

  predicate FreeOfSmallPrimes(q: nat) {
    q % 2 != 0 && q % 3 != 0 && q % 5 != 0 && q % 7 != 0 && q % 11 != 0 && q % 13 != 0 && q % 17 != 0
  }

  lemma SmallFactor(q: nat, m: nat, w: nat)
    requires 2 <= m <= 18 && q == m * w
    ensures !FreeOfSmallPrimes(q)
  {
    assert m * w == w * m;
    if m % 2 == 0 { MultipleDivides(2, m, w); }
    else if m % 3 == 0 { MultipleDivides(3, m, w); }
    else if m % 5 == 0 { MultipleDivides(5, m, w); }
    else if m == 7 { MultipleDivides(7, m, w); }
    else if m == 11 { MultipleDivides(11, m, w); }
    else if m == 13 { MultipleDivides(13, m, w); }
    else { MultipleDivides(17, m, w); }
  }

  lemma PrimeBelow361(q: nat)
    requires 1 < q < 361 && FreeOfSmallPrimes(q)
    ensures IsPrime(q)
  {
    hide FreeOfSmallPrimes;
    forall t: nat | 1 < t < q ensures !Divides(t, q) {
      if Divides(t, q) {
        var u := q / t;
        assert q == t * u;
        DividesExplicitly(t, q, u);
        MulMonotone(u, 19, t);
        if t < 19 {
          SmallFactor(q, t, u);
        } else {
          assert q == u * t;
          SmallFactor(q, u, t);
        }
      }
    }
  }

  lemma PrimesOfPeriod()
    ensures IsPrime(2) && IsPrime(3) && IsPrime(7) && IsPrime(11)
    ensures IsPrime(31) && IsPrime(151) && IsPrime(331)
  {
    PrimeBelow361(31);
    PrimeBelow361(151);
    PrimeBelow361(331);
  }

  /** If the prime q divides r * s but not s, it can be taken out of r. */
  lemma TakeOut(q: nat, r: nat, s: nat, rest: nat) returns (r': nat)
    requires IsPrime(q) && r * s == q * rest && !Divides(q, s)
    ensures r == q * r' && r' * s == rest
  {
    DividesTimes(q, rest);
    PrimeDividesFactor(q, r, s);
    r' := r / q;
    assert r == q * r';
    assert q * (r' * s) == q * rest;
    SameFactor(q, r' * s, rest);
  }

  lemma SameFactor(q: nat, x: nat, y: nat)
    requires q > 0 && q * x == q * y
    ensures x == y
  {
  }

  /** A divisor of the period whose cofactor has none of its primes is the whole period. */
  lemma WholePeriod(r: nat, s: nat)
    requires r * s == PERIOD
    requires !Divides(2, s) && !Divides(3, s) && !Divides(7, s) && !Divides(11, s)
    requires !Divides(31, s) && !Divides(151, s) && !Divides(331, s)
    ensures r == PERIOD
  {
    PrimesOfPeriod();
    hide IsPrime, Divides;
    var r1 := TakeOut(2, r, s, 1_073_741_823);
    var r2 := TakeOut(3, r1, s, 357_913_941);
    var r3 := TakeOut(3, r2, s, 119_304_647);
    var r4 := TakeOut(7, r3, s, 17_043_521);
    var r5 := TakeOut(11, r4, s, 1_549_411);
    var r6 := TakeOut(31, r5, s, 49_981);
    var r7 := TakeOut(151, r6, s, 331);
    var r8 := TakeOut(331, r7, s, 1);
    MulMonotone(s, 2, r8);
    assert r8 == 1;
  }

  // ----- The order of 16807 -----

  /** The least k >= from at which the residue is 1 again. */
  ghost function LeastReturn(from: nat): (k: nat)
    requires 0 < from <= PERIOD
    ensures from <= k <= PERIOD && Residue(k) == 1
    ensures forall j: nat :: from <= j < k ==> Residue(j) != 1
    decreases PERIOD - from
  {
    hide Residue;
    To2147483646();
    if Residue(from) == 1 then from else LeastReturn(from + 1)
  }

  lemma ResidueOfSum(a: nat, b: nat)
    ensures Residue(a + b) == Residue(a) * Residue(b) % M
  {
    Multiply(a, Residue(a), b, Residue(b));
  }

  lemma ResidueSmall(k: nat)
    ensures Residue(k) < M
  {
  }

  lemma {:induction false} ResidueOfMultiple(r: nat, k: nat)
    requires Residue(r) == 1
    ensures Residue(r * k) == 1
  {
    if k == 0 {
      assert r * k == 0;
      assert Power(A, 0) == 1;
    } else {
      hide Residue;
      ResidueOfMultiple(r, k - 1);
      assert r * k == r * (k - 1) + r;
      ResidueOfSum(r * (k - 1), r);
    }
  }

  lemma RemainderReturns(r: nat, k: nat)
    requires r > 0 && Residue(r) == 1 && Residue(k) == 1
    ensures Residue(k % r) == 1
  {
    hide Residue;
    var q, rest := k / r, k % r;
    assert k == r * q + rest;
    ResidueOfMultiple(r, q);
    ResidueOfSum(r * q, rest);
    ResidueSmall(rest);
  }

  /** The residue is 1 only at the multiples of the least return. */
  lemma ReturnsAreMultiples(k: nat)
    requires Residue(k) == 1
    ensures Divides(LeastReturn(1), k)
  {
    var r := LeastReturn(1);
    hide Residue, LeastReturn;
    RemainderReturns(r, k);
  }

  lemma NotADivisor(q: nat, rest: nat)
    requires q > 0 && q * rest == PERIOD && Residue(rest) != 1
    ensures var s := PERIOD / LeastReturn(1); LeastReturn(1) * s == PERIOD ==> !Divides(q, s)
  {
    hide Residue, LeastReturn;
    var r := LeastReturn(1);
    var s := PERIOD / r;
    if r * s == PERIOD && Divides(q, s) {
      var u := s / q;
      assert s == q * u;
      assert q * (r * u) == r * (q * u);
      SameFactor(q, r * u, rest);
      assert Residue(r) == 1 by { var k := LeastReturn(1); }
      ResidueOfMultiple(r, u);
    }
  }

  /** 16807 is a primitive root: its powers return to 1 after 2^31 - 2 steps and not before. */
  lemma OrderIsPeriod()
    ensures LeastReturn(1) == PERIOD
  {
    hide Residue, LeastReturn;
    var r := LeastReturn(1);
    To2147483646();
    ReturnsAreMultiples(PERIOD);
    var s := PERIOD / r;
    RemainderZero(r, PERIOD);
    assert r * s == PERIOD;
    To1073741823();
    NotADivisor(2, 1_073_741_823);
    To715827882();
    NotADivisor(3, 715_827_882);
    To306783378();
    NotADivisor(7, 306_783_378);
    To195225786();
    NotADivisor(11, 195_225_786);
    To69273666();
    NotADivisor(31, 69_273_666);
    To14221746();
    NotADivisor(151, 14_221_746);
    To6487866();
    NotADivisor(331, 6_487_866);
    WholePeriod(r, s);
  }

  // ----- The seeds visited -----

  /** From seed 1 the generator walks through the residues. */
  lemma WalkFromOne(k: nat)
    ensures GoodSeed(1) && After(1, k) == Residue(k)
  {
    AfterIsPower(1, k);
  }

  lemma {:induction false} AfterSum(seed: nat, a: nat, b: nat)
    requires GoodSeed(seed)
    ensures After(seed, a + b) == After(After(seed, a), b)
  {
    if b > 0 {
      AfterSum(seed, a, b - 1);
    }
  }

  /** rand_next is injective, so two runs that meet were equal before. */
  lemma {:induction false} AfterIsInjective(s: nat, t: nat, k: nat)
    requires GoodSeed(s) && GoodSeed(t) && After(s, k) == After(t, k)
    ensures s == t
  {
    if k > 0 {
      hide NextSeed;
      NextIsBijection(After(s, k - 1));
      NextIsBijection(After(t, k - 1));
      AfterIsInjective(s, t, k - 1);
    }
  }

  lemma NotBackYet(k: nat)
    requires 0 < k < PERIOD
    ensures Residue(k) != 1
  {
    OrderIsPeriod();
  }

  /** From seed 1 no seed comes twice within one period. */
  lemma NoEarlyRepetition(i: nat, j: nat)
    requires i < j < PERIOD
    ensures GoodSeed(1) && After(1, i) != After(1, j)
  {
    hide After, Residue, NextSeed;
    NotBackYet(j - i);
    WalkFromOne(j - i);
    AfterSum(1, j - i, i);
    if After(1, i) == After(1, j) {
      AfterIsInjective(1, After(1, j - i), i);
    }
  }

  /** From seed 1 every good seed is reached within one period. */
  lemma EverySeedIsReachedFromOne(v: nat) returns (k: nat)
    requires GoodSeed(v)
    ensures k < PERIOD && GoodSeed(1) && After(1, k) == v
  {
    var walk := seq(PERIOD, i requires 0 <= i < PERIOD => After(1, i));
    var all := seq(PERIOD, i requires 0 <= i < PERIOD => i + 1);
    if v !in walk {
      var t := walk + [v];
      forall i, j | 0 <= i < j < |t| ensures t[i] != t[j] {
        if j < PERIOD {
          NoEarlyRepetition(i, j);
        }
      }
      forall x | x in t ensures x in all {
        assert GoodSeed(x);
        assert all[x - 1] == x;
      }
      DistinctElementsFit(t, all);
      assert false;
    }
    k :| 0 <= k < |walk| && walk[k] == v;
  }

  lemma PeriodReturns(seed: nat)
    requires GoodSeed(seed)
    ensures After(seed, PERIOD) == seed
  {
    hide After, Residue;
    var k := EverySeedIsReachedFromOne(seed);
    AfterSum(1, k, PERIOD);
    AfterSum(1, PERIOD, k);
    WalkFromOne(PERIOD);
    To2147483646();
  }

  /** From every good seed the generator reaches every good seed within one period, and comes
      back to its start after the whole period and not before. */
  lemma FullPeriod(seed: nat, v: nat, k: nat)
    requires GoodSeed(seed) && GoodSeed(v)
    ensures exists n: nat :: n < PERIOD && After(seed, n) == v
    ensures After(seed, PERIOD) == seed
    ensures 0 < k < PERIOD ==> After(seed, k) != seed
  {
    hide After, Residue, NextSeed;
    PeriodReturns(seed);
    var a := EverySeedIsReachedFromOne(seed);
    var b := EverySeedIsReachedFromOne(v);
    var n := if a <= b then b - a else b + PERIOD - a;
    AfterSum(1, a, n);
    if a > b {
      AfterSum(1, PERIOD, b);
      PeriodReturns(1);
    }
    assert After(seed, n) == v;
    if 0 < k < PERIOD && After(seed, k) == seed {
      AfterSum(1, a, k);
      AfterSum(1, k, a);
      AfterIsInjective(1, After(1, k), a);
      NoEarlyRepetition(0, k);
      AfterZero(1);
    }
  }

  lemma AfterZero(seed: nat)
    requires GoodSeed(seed)
    ensures After(seed, 0) == seed
  {
  }
}
