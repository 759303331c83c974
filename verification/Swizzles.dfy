/** The key generator of speedtest1.c: bit reversal below a power of two. */
module Swizzles {
  import opened Arithmetic

  const WORD: nat := 0x1_0000_0000

  function Pow2(k: nat): (p: nat)
    ensures p >= 1
  {
    if k == 0 then 1 else 2 * Pow2(k - 1)
  }

  /** Number of bits of n. */
  function BitLen(n: nat): nat {
    if n == 0 then 0 else 1 + BitLen(n / 2)
  }

  function Bit(x: nat, i: nat): nat {
    if i == 0 then x % 2 else Bit(x / 2, i - 1)
  }

  /** Bit i is the last one of x divided by 2^i. */
  lemma {:induction false} BitIsDigit(x: nat, i: nat)
    ensures Bit(x, i) == x / Pow2(i) % 2
  {
    if i > 0 {
      BitIsDigit(x / 2, i - 1);
      HalvesDivide(x, Pow2(i - 1));
    }
  }

  lemma HalvesDivide(x: nat, p: nat)
    requires p > 0
    ensures x / 2 / p == x / (2 * p)
  {
    var q, r := x / 2 / p, x / 2 % p;
    assert x / 2 == p * q + r;
    assert x == (2 * p) * q + (2 * r + x % 2);
    DivModUnique(2 * p, q, 2 * r + x % 2);
  }

  /** The weight p of a bit that is set. */
  function Weight(b: nat, p: nat): nat {
    if b == 0 then 0 else p
  }

  /** The low n bits of x in reverse order. */
  function Reverse(x: nat, n: nat): (r: nat)
    ensures r < Pow2(n)
  {
    if n == 0 then 0 else Weight(x % 2, Pow2(n - 1)) + Reverse(x / 2, n - 1)
  }

  lemma {:induction false} BitLenBounds(n: nat)
    ensures n < Pow2(BitLen(n))
    ensures n > 0 ==> Pow2(BitLen(n) - 1) <= n
  {
    if n > 0 {
      BitLenBounds(n / 2);
    }
  }

  lemma {:induction false} Pow2Grows(j: nat, k: nat)
    requires j <= k
    ensures Pow2(j) <= Pow2(k)
  {
    if j < k {
      Pow2Grows(j, k - 1);
    }
  }

  lemma BitLenOfWord(n: nat)
    requires n < WORD
    ensures BitLen(n) <= 32
  {
    BitLenBounds(n);
    Pow2Of32();
    if BitLen(n) > 32 {
      Pow2Grows(32, BitLen(n) - 1);
    }
  }

  lemma Pow2Of32()
    ensures Pow2(32) == WORD && Pow2(31) == 0x8000_0000 && Pow2(0) == 1
  {
    assert Pow2(8) == 256;
    assert Pow2(16) == 65536;
    assert Pow2(24) == 0x100_0000;
  }

  /** The result when `out` holds the bits moved so far and n bits of x are left. */
  function Combined(out: nat, x: nat, n: nat): nat {
    out * Pow2(n) + Reverse(x, n)
  }

  /** swizzle on unsigned ints: the shift drops bits beyond 32. */
  method Swizzle(input: nat, limit: nat) returns (out: nat)
    requires input < WORD && limit < WORD
    ensures out == Reverse(input, BitLen(limit))
  {
    hide Reverse, Pow2, Combined, BitLen;
    out := 0;
    var x, m := input, limit;
    BitLenOfWord(limit);
    CombinedEnds(0, input, BitLen(limit));
    BitLenHalves(limit);
    assert Pow2(0) == 1 by { Pow2Of32(); }
    while m != 0
      invariant 0 <= x < WORD && 0 <= m < WORD && 0 <= out
      invariant BitLen(m) <= BitLen(limit) && out < Pow2(BitLen(limit) - BitLen(m))
      invariant Combined(out, x, BitLen(m)) == Reverse(input, BitLen(limit))
      decreases m
    {
      ghost var done := BitLen(limit) - BitLen(m);
      BitLenHalves(m);
      NoBitLost(out, done);
      StepOfReverse(out, x, BitLen(m));
      out := (2 * out % WORD) + x % 2;
      x := x / 2;
      m := m / 2;
    }
    BitLenHalves(m);
    CombinedEnds(out, x, 0);
  }

  lemma BitLenHalves(m: nat)
    ensures BitLen(m) == if m == 0 then 0 else BitLen(m / 2) + 1
  {
  }

  /** Before the first and after the last bit. */
  lemma CombinedEnds(out: nat, x: nat, n: nat)
    ensures Combined(0, x, n) == Reverse(x, n)
    ensures Combined(out, x, 0) == out
  {
  }

  lemma NoBitLost(out: nat, done: nat)
    requires out < Pow2(done) && done <= 31
    ensures 2 * out % WORD == 2 * out && 2 * out + 1 < Pow2(done + 1)
  {
    Pow2Of32();
    Pow2Grows(done, 31);
  }

  lemma StepOfReverse(out: nat, x: nat, n: nat)
    requires n > 0
    ensures Combined(2 * out + x % 2, x / 2, n - 1) == Combined(out, x, n)
  {
    var p := Pow2(n - 1);
    assert (2 * out + x % 2) * p == out * (2 * p) + Weight(x % 2, p);
  }

  // ----- Bit reversal -----

  /** One more bit at the top of the input is one more bit at the bottom of the result. */
  lemma {:induction false} ReverseTakesBit(x: nat, n: nat)
    ensures Reverse(x, n + 1) == 2 * Reverse(x, n) + Bit(x, n)
  {
    if n > 0 {
      ReverseTakesBit(x / 2, n - 1);
    } else {
      assert Reverse(x / 2, 0) == 0;
    }
  }

  lemma {:induction false} BitRange(x: nat, i: nat)
    ensures 0 <= Bit(x, i) <= 1
  {
    if i > 0 {
      BitRange(x / 2, i - 1);
    }
  }

  /** Bit i of the result is bit n - 1 - i of the input. */
  lemma {:induction false} ReverseBits(x: nat, n: nat, i: nat)
    requires i < n
    ensures Bit(Reverse(x, n), i) == Bit(x, n - 1 - i)
  {
    hide Reverse;
    ReverseTakesBit(x, n - 1);
    BitRange(x, n - 1);
    if i > 0 {
      ReverseBits(x, n - 1, i - 1);
    }
  }

  lemma ReverseOfDouble(y: nat, b: nat, n: nat)
    requires b < 2
    ensures Reverse(2 * y + b, n + 1) == Weight(b, Pow2(n)) + Reverse(y, n)
  {
    assert (2 * y + b) % 2 == b && (2 * y + b) / 2 == y;
  }

  /** The low n bits of x. */
  function LowPart(x: nat, n: nat): nat {
    x % Pow2(n)
  }

  lemma HalfModulo(x: nat, n: nat)
    ensures LowPart(x, n + 1) == 2 * LowPart(x / 2, n) + x % 2
  {
    var p, h := Pow2(n), x / 2;
    var q, r := h / p, h % p;
    assert h == p * q + r;
    assert x == (2 * p) * q + (2 * r + x % 2);
    DivModUnique(2 * p, q, 2 * r + x % 2);
  }

  lemma LowPartEnds(x: nat)
    ensures LowPart(x, 0) == 0 && LowPart(x, 1) == x % 2
  {
  }

  lemma {:induction false} LowBits(x: nat, n: nat)
    ensures LowPart(x, n + 1) == Weight(Bit(x, n), Pow2(n)) + LowPart(x, n)
  {
    hide LowPart;
    LowPartEnds(x);
    BitRange(x, n);
    if n > 0 {
      LowBits(x / 2, n - 1);
      HalfModulo(x, n);
      HalfModulo(x, n - 1);
    }
  }

  lemma ReverseTwiceStep(x: nat, m: nat)
    requires Reverse(Reverse(x, m), m) == LowPart(x, m)
    ensures Reverse(Reverse(x, m + 1), m + 1) == LowPart(x, m + 1)
  {
    hide Reverse, Bit, LowPart, Weight;
    ReverseTakesBit(x, m);
    BitRange(x, m);
    ReverseOfDouble(Reverse(x, m), Bit(x, m), m);
    LowBits(x, m);
  }

  /** Reversing twice keeps the low n bits. */
  lemma {:induction false} ReverseTwice(x: nat, n: nat)
    ensures Reverse(Reverse(x, n), n) == LowPart(x, n)
  {
    if n == 0 {
      LowPartEnds(x);
    } else {
      hide Reverse, LowPart;
      ReverseTwice(x, n - 1);
      ReverseTwiceStep(x, n - 1);
    }
  }

  /** swizzle is its own inverse exactly on the numbers that fit the bits of the limit. */
  lemma SwizzleIsInvolutionIff(x: nat, limit: nat)
    ensures Reverse(Reverse(x, BitLen(limit)), BitLen(limit)) == x <==> x < Pow2(BitLen(limit))
  {
    var p := Pow2(BitLen(limit));
    ReverseTwice(x, BitLen(limit));
    if x < p {
      DivModUnique(p, 0, x);
    }
  }

  /** Two numbers share a key exactly when they agree in the bits of the limit. */
  lemma KeysCollideIff(x: nat, y: nat, limit: nat)
    ensures Reverse(x, BitLen(limit)) == Reverse(y, BitLen(limit)) <==>
              x % Pow2(BitLen(limit)) == y % Pow2(BitLen(limit))
  {
    var n := BitLen(limit);
    ReverseTwice(x, n);
    ReverseTwice(y, n);
    ReverseIgnoresHighBits(x, n);
    ReverseIgnoresHighBits(y, n);
  }

  lemma {:induction false} ReverseIgnoresHighBits(x: nat, n: nat)
    ensures Reverse(LowPart(x, n), n) == Reverse(x, n)
  {
    if n > 0 {
      hide LowPart, Reverse;
      ReverseIgnoresHighBits(x / 2, n - 1);
      ReverseIgnoresStep(x, n - 1);
    }
  }

  lemma ReverseIgnoresStep(x: nat, m: nat)
    requires Reverse(LowPart(x / 2, m), m) == Reverse(x / 2, m)
    ensures Reverse(LowPart(x, m + 1), m + 1) == Reverse(x, m + 1)
  {
    hide LowPart, Reverse, Weight;
    HalfModulo(x, m);
    ReverseOfDouble(LowPart(x / 2, m), x % 2, m);
    ReverseOfDouble(x / 2, x % 2, m);
  }

  // ----- roundup_allones -----

  ghost predicate IsAllOnes(m: nat) {
    exists k: nat :: k >= 1 && m == Pow2(k) - 1
  }

  /** The least number 2^k - 1 with k >= 1 that is not below the limit; the loop ends for every
      unsigned limit. */
  method RoundupAllones(limit: nat) returns (m: nat)
    requires limit < WORD
    ensures limit <= m < WORD && IsAllOnes(m)
    ensures forall a: nat :: IsAllOnes(a) && limit <= a ==> m <= a
    ensures m == Pow2(BitLen(m)) - 1
  {
    hide Pow2, BitLen, IsAllOnes;
    m := 1;
    ghost var k: nat := 1;
    AllOnesStep(0);
    Pow2Of32();
    while m < limit
      invariant 1 <= k <= 32 && m == Pow2(k) - 1 < WORD
      invariant k > 1 ==> Pow2(k - 1) - 1 < limit
      decreases WORD - m
    {
      AllOnesBelowWord(k);
      AllOnesStep(k);
      Pow2Grows(k + 1, 32);
      m := 2 * m % WORD + 1;
      k := k + 1;
    }
    BitLenOfAllOnes(k);
    LeastAllOnes(k, limit);
  }

  lemma AllOnesStep(k: nat)
    ensures Pow2(k + 1) - 1 == 2 * (Pow2(k) - 1) + 1
  {
  }

  lemma LeastAllOnes(k: nat, limit: nat)
    requires k >= 1 && limit <= Pow2(k) - 1 && (k > 1 ==> Pow2(k - 1) - 1 < limit)
    ensures IsAllOnes(Pow2(k) - 1)
    ensures forall a: nat :: IsAllOnes(a) && limit <= a ==> Pow2(k) - 1 <= a
  {
    hide Pow2;
    forall a: nat | IsAllOnes(a) && limit <= a ensures Pow2(k) - 1 <= a {
      var j: nat :| j >= 1 && a == Pow2(j) - 1;
      if j < k {
        Pow2Grows(j, k - 1);
      } else {
        Pow2Grows(k, j);
      }
    }
  }

  lemma AllOnesBelowWord(k: nat)
    requires Pow2(k) < WORD
    ensures k < 32
  {
    Pow2Of32();
    if k >= 32 {
      Pow2Grows(32, k);
    }
  }

  lemma {:induction false} BitLenOfAllOnes(k: nat)
    ensures BitLen(Pow2(k) - 1) == k
  {
    if k > 0 {
      BitLenOfAllOnes(k - 1);
      assert (Pow2(k) - 1) / 2 == Pow2(k - 1) - 1;
    }
  }

  /** With maxb = roundup_allones(sz), the keys of 1..sz are distinct and between 1 and maxb. */
  lemma KeysAreDistinct(sz: nat, maxb: nat, i: nat, j: nat)
    requires sz <= maxb && maxb == Pow2(BitLen(maxb)) - 1
    requires 1 <= i <= sz && 1 <= j <= sz
    ensures 1 <= Reverse(i, BitLen(maxb)) <= maxb
    ensures Reverse(i, BitLen(maxb)) == Reverse(j, BitLen(maxb)) ==> i == j
  {
    SwizzleIsInvolutionIff(i, maxb);
    SwizzleIsInvolutionIff(j, maxb);
    SwizzleIsInvolutionIff(0, maxb);
    ReverseOfZero(BitLen(maxb));
  }

  lemma {:induction false} ReverseOfZero(n: nat)
    ensures Reverse(0, n) == 0
  {
    if n > 0 {
      ReverseOfZero(n - 1);
    }
  }

  // ----- The range the comment on swizzle promises -----

  lemma {:induction false} ReverseOfAllOnes(k: nat)
    ensures Reverse(Pow2(k) - 1, k) == Pow2(k) - 1
    ensures Bit(Pow2(k) - 1, k) == 0
  {
    if k > 0 {
      ReverseOfAllOnes(k - 1);
      assert (Pow2(k) - 1) / 2 == Pow2(k - 1) - 1 && (Pow2(k) - 1) % 2 == 1;
    }
  }

  lemma KeyInRange(x: nat, limit: nat)
    requires 1 <= x <= limit && limit >= Pow2(BitLen(limit)) - 2
    ensures 1 <= Reverse(x, BitLen(limit)) <= limit
  {
    hide Reverse, Pow2, BitLen;
    var n := BitLen(limit);
    BitLenBounds(limit);
    SwizzleIsInvolutionIff(x, limit);
    ReverseOfZero(n);
    ReverseOfAllOnes(n);
  }

  /** The number below the top bit of the limit gets a key with all bits but the lowest. */
  lemma AllOnesLeaveRange(limit: nat)
    requires 0 < limit < Pow2(BitLen(limit)) - 2
    ensures var x := Pow2(BitLen(limit) - 1) - 1; 1 <= x <= limit < Reverse(x, BitLen(limit))
  {
    hide Reverse, Bit, Pow2, BitLen;
    var n := BitLen(limit);
    BitLenHalves(limit);
    BitLenBounds(limit);
    AllOnesStep(n - 1);
    ReverseOfAllOnes(n - 1);
    ReverseTakesBit(Pow2(n - 1) - 1, n - 1);
  }

  /** swizzle maps 1..limit into 1..limit exactly when the limit is 2^k - 1 or 2^k - 2. */
  lemma SwizzleStaysInRangeIff(limit: nat)
    requires limit > 0
    ensures (forall x: nat :: 1 <= x <= limit ==> 1 <= Reverse(x, BitLen(limit)) <= limit) <==>
              limit >= Pow2(BitLen(limit)) - 2
  {
    var n := BitLen(limit);
    hide Pow2, Reverse, BitLen;
    if limit >= Pow2(n) - 2 {
      forall x: nat | 1 <= x <= limit ensures 1 <= Reverse(x, n) <= limit {
        KeyInRange(x, limit);
      }
    } else {
      AllOnesLeaveRange(limit);
    }
  }
}
