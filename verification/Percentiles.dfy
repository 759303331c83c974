/** The percentile scan of histogram.c against the order statistics of the samples. */
module Percentiles {
  import opened Histograms

  /** The three ways out of `percentile`. */
  datatype PercentileResult =
    | Interpolated(bucket: nat, value: real)
    | DividedByZero(bucket: nat)
    | FellThrough(value: real)

  function Clamp(r: real, min: real, max: real): real {
    var r' := if r < min then min else r;
    if r' > max then max else r'
  }

  /** The point between left and right that divides them like part : whole. */
  function Blend(left: real, right: real, part: real, whole: real): real
    requires whole != 0.0
  {
    left + (right - left) * (part / whole)
  }

  /** The running sum percentile p is reached at. */
  function Threshold(num: real, p: real): real {
    num * (p / 100.0)
  }

  /** The point of bucket b at which the running sum reaches the threshold. */
  function Interpolate(h: Summary, threshold: real, b: nat, sum: real): PercentileResult
    requires |h.buckets| == NUM_BUCKETS && b < NUM_BUCKETS
  {
    var leftSum := sum - h.buckets[b];
    if sum - leftSum == 0.0 then DividedByZero(b)
    else
      Interpolated(b, Clamp(Blend(Left(b), Limit(b), threshold - leftSum, sum - leftSum), h.min, h.max))
  }

  function ScanFrom(h: Summary, threshold: real, b: nat, sum: real): PercentileResult
    requires |h.buckets| == NUM_BUCKETS && b <= NUM_BUCKETS
    decreases NUM_BUCKETS - b
  {
    if b == NUM_BUCKETS then FellThrough(h.max)
    else if sum + h.buckets[b] >= threshold then Interpolate(h, threshold, b, sum + h.buckets[b])
    else ScanFrom(h, threshold, b + 1, sum + h.buckets[b])
  }

  function PercentileOf(h: Summary, p: real): PercentileResult
    requires |h.buckets| == NUM_BUCKETS
  {
    ScanFrom(h, Threshold(h.num, p), 0, 0.0)
  }

  method Percentile(hist: Histogram, p: real) returns (r: PercentileResult)
    requires hist.buckets.Length == NUM_BUCKETS
    ensures r == PercentileOf(hist.Fields(), p)
  {
    hide Interpolate, Threshold;
    ghost var h := hist.Fields();
    var threshold := Threshold(hist.num, p);
    var sum := 0.0;
    for b := 0 to NUM_BUCKETS
      invariant ScanFrom(h, threshold, b, sum) == PercentileOf(h, p)
    {
      assert hist.buckets[b] == h.buckets[b];
      sum := sum + hist.buckets[b];
      if sum >= threshold {
        r := ScaleInBucket(hist, threshold, b, sum);
        return;
      }
    }
    return FellThrough(hist.max);
  }

  /** The linear scaling within the bucket that reaches the threshold. */
  method ScaleInBucket(hist: Histogram, threshold: real, b: nat, sum: real) returns (r: PercentileResult)
    requires hist.buckets.Length == NUM_BUCKETS && b < NUM_BUCKETS
    ensures r == Interpolate(hist.Fields(), threshold, b, sum)
  {
    hide Limit, Left, Blend;
    var leftPoint, rightPoint := Left(b), Limit(b);
    var leftSum, rightSum := sum - hist.buckets[b], sum;
    if rightSum - leftSum == 0.0 {
      return DividedByZero(b);
    }
    var v := Blend(leftPoint, rightPoint, threshold - leftSum, rightSum - leftSum);
    if v < hist.min {
      v := hist.min;
    }
    if v > hist.max {
      v := hist.max;
    }
    return Interpolated(b, v);
  }

  /** Samples in the buckets before b. */
  function Before(s: seq<real>, b: nat): nat {
    if b == 0 then 0 else Count(s, BucketAtMost(b - 1))
  }

  lemma {:induction false} CumulativeStep(s: seq<real>, b: nat)
    ensures Before(s, b + 1) == Before(s, b) + Count(s, IsBucket(b))
  {
    hide BucketOf;
    if s != [] {
      CumulativeStep(s[..|s| - 1], b);
    }
  }

  lemma {:induction false} AllBucketsHoldAll(s: seq<real>)
    ensures Before(s, NUM_BUCKETS) == |s|
  {
    if s != [] {
      AllBucketsHoldAll(s[..|s| - 1]);
      BucketInRange(s[|s| - 1]);
    }
  }

  lemma {:induction false} CumulativeGrows(s: seq<real>, b: nat, c: nat)
    requires b <= c
    ensures Before(s, b) <= Before(s, c)
    decreases c
  {
    hide Before, Count;
    if b < c {
      CumulativeStep(s, c - 1);
      CumulativeGrows(s, b, c - 1);
    }
  }

  /** Sum of the first b bucket fields. */
  ghost function BucketSum(buckets: seq<real>, b: nat): real
    requires b <= |buckets|
  {
    if b == 0 then 0.0 else BucketSum(buckets, b - 1) + buckets[b - 1]
  }

  lemma {:induction false} BucketSumIsCumulative(s: seq<real>, b: nat)
    requires b <= NUM_BUCKETS
    ensures BucketSum(SummaryOf(s).buckets, b) == Before(s, b) as real
  {
    hide SummaryOf, Count;
    if b == 0 {
      NothingBefore(s);
    } else {
      BucketSumIsCumulative(s, b - 1);
      CumulativeStep(s, b - 1);
      BucketField(s, b - 1);
    }
  }

  /** The buckets add up to num_. */
  lemma BucketsSumToNum(s: seq<real>)
    ensures BucketSum(SummaryOf(s).buckets, NUM_BUCKETS) == SummaryOf(s).num
  {
    BucketSumIsCumulative(s, NUM_BUCKETS);
    AllBucketsHoldAll(s);
    hide Before, Count, BucketSum;
  }

  /** Bucket c is the first whose cumulative count reaches the threshold; NUM_BUCKETS if none does. */
  ghost predicate Reaches(s: seq<real>, threshold: real, c: nat) {
    && c <= NUM_BUCKETS
    && (c < NUM_BUCKETS ==> Before(s, c + 1) as real >= threshold)
    && (c > 0 ==> Before(s, c) as real < threshold)
  }

  ghost function Outcome(s: seq<real>, threshold: real, c: nat): PercentileResult
    requires c <= NUM_BUCKETS
  {
    if c == NUM_BUCKETS then FellThrough(MaxOf(s))
    else Interpolate(SummaryOf(s), threshold, c, Before(s, c + 1) as real)
  }

  lemma BucketField(s: seq<real>, b: nat)
    requires b < NUM_BUCKETS
    ensures SummaryOf(s).buckets[b] == Count(s, IsBucket(b)) as real
  {
  }

  lemma {:induction false} ScanReaches(s: seq<real>, threshold: real, b: nat) returns (c: nat)
    requires b <= NUM_BUCKETS
    requires b > 0 ==> Before(s, b) as real < threshold
    ensures Reaches(s, threshold, c)
    ensures ScanFrom(SummaryOf(s), threshold, b, Before(s, b) as real) == Outcome(s, threshold, c)
    decreases NUM_BUCKETS - b
  {
    hide Before, Interpolate, Count, SummaryOf, MaxOf;
    SummaryExtremes(s);
    if b == NUM_BUCKETS {
      c := b;
    } else {
      CumulativeStep(s, b);
      BucketField(s, b);
      if Before(s, b + 1) as real >= threshold {
        c := b;
      } else {
        c := ScanReaches(s, threshold, b + 1);
      }
    }
  }

  /** Where `percentile` ends up. */
  lemma PercentileReaches(s: seq<real>, p: real) returns (c: nat, threshold: real)
    ensures threshold == Threshold(|s| as real, p)
    ensures Reaches(s, threshold, c)
    ensures PercentileOf(SummaryOf(s), p) == Outcome(s, threshold, c)
  {
    hide Count, Interpolate, Threshold, Sum, SumSquares, MinOf;
    threshold := Threshold(|s| as real, p);
    c := ScanReaches(s, threshold, 0);
  }

  lemma ThresholdIs(n: real, p: real)
    ensures Threshold(n, p) == n * p / 100.0
  {
  }

  lemma ThresholdRange(n: nat, p: real)
    ensures n > 0 && p > 0.0 ==> Threshold(n as real, p) > 0.0
    ensures n == 0 || p <= 0.0 ==> Threshold(n as real, p) <= 0.0
    ensures n > 0 && p > 100.0 ==> Threshold(n as real, p) > n as real
    ensures p <= 100.0 ==> Threshold(n as real, p) <= n as real
  {
    var t := p / 100.0;
    assert p > 0.0 <==> t > 0.0;
    assert p <= 100.0 <==> t <= 1.0;
    ProductSigns(n as real, t);
  }

  lemma ProductSigns(x: real, t: real)
    requires x >= 0.0
    ensures x > 0.0 && t > 0.0 ==> x * t > 0.0
    ensures x == 0.0 || t <= 0.0 ==> x * t <= 0.0
    ensures x > 0.0 && t > 1.0 ==> x * t > x
    ensures t <= 1.0 ==> x * t <= x
  {
    assert x * t - x == x * (t - 1.0);
  }

  /** Which inputs divide by zero, and which run past the last bucket. */
  lemma PercentileExits(s: seq<real>, p: real)
    ensures PercentileOf(SummaryOf(s), p).DividedByZero? <==> (s == [] || p <= 0.0) && Count(s, IsBucket(0)) == 0
    ensures PercentileOf(SummaryOf(s), p).FellThrough? <==> s != [] && p > 100.0
    ensures PercentileOf(SummaryOf(s), p).DividedByZero? ==> PercentileOf(SummaryOf(s), p).bucket == 0
    ensures PercentileOf(SummaryOf(s), p).FellThrough? ==> PercentileOf(SummaryOf(s), p).value == MaxOf(s)
  {
    var c, threshold := PercentileReaches(s, p);
    ThresholdRange(|s|, p);
    AllBucketsHoldAll(s);
    hide Limit, Left, Before, Blend, Threshold, Count, Sum, SumSquares, MinOf, MaxOf;
    assert Before(s, 0) == 0 by { NothingBefore(s); }
    if c < NUM_BUCKETS {
      CumulativeStep(s, c);
      assert SummaryOf(s).buckets[c] == Count(s, IsBucket(c)) as real;
      CumulativeGrows(s, c + 1, NUM_BUCKETS);
    }
  }

  lemma NothingBefore(s: seq<real>)
    ensures Before(s, 0) == 0
  {
  }

  /** x is the k-th smallest sample. */
  ghost predicate KthSmallest(s: seq<real>, k: nat, x: real) {
    x in s && Count(s, Below(x)) < k <= Count(s, AtMost(x))
  }

  lemma {:induction false} CountMonotone(s: seq<real>, t: Test, u: Test)
    requires forall v :: v in s && Holds(t, v) ==> Holds(u, v)
    ensures Count(s, t) <= Count(s, u)
  {
    if s != [] {
      CountMonotone(s[..|s| - 1], t, u);
    }
  }

  /** At most one value is the k-th smallest. */
  lemma KthSmallestIsUnique(s: seq<real>, k: nat, x: real, y: real)
    requires KthSmallest(s, k, x) && KthSmallest(s, k, y)
    ensures x == y
  {
    if x < y {
      CountMonotone(s, AtMost(x), Below(y));
    } else if y < x {
      CountMonotone(s, AtMost(y), Below(x));
    }
  }

  lemma {:induction false} AllAtMostLargest(s: seq<real>) returns (x: real)
    requires s != []
    ensures x in s && Count(s, AtMost(x)) == |s|
  {
    var r, v := s[..|s| - 1], s[|s| - 1];
    x := v;
    if r != [] {
      var y := AllAtMostLargest(r);
      if v < y {
        x := y;
      }
      CountMonotone(r, AtMost(y), AtMost(x));
      assert y in s;
    }
  }

  /** The largest sample below x. */
  lemma {:induction false} LargestBelow(s: seq<real>, x: real) returns (y: real)
    requires Count(s, Below(x)) > 0
    ensures y in s && y < x
    ensures Count(s, AtMost(y)) >= Count(s, Below(x))
  {
    var r, v := s[..|s| - 1], s[|s| - 1];
    y := v;
    if Count(r, Below(x)) > 0 {
      var z := LargestBelow(r, x);
      assert z in s;
      if !(v < x) || v < z {
        y := z;
      }
      CountMonotone(r, AtMost(z), AtMost(y));
    }
  }

  lemma {:induction false} OwnClassCounts(s: seq<real>, x: real)
    requires x in s
    ensures Count(s, Below(x)) < Count(s, AtMost(x))
  {
    CountMonotone(s[..|s| - 1], Below(x), AtMost(x));
    if x != s[|s| - 1] {
      OwnClassCounts(s[..|s| - 1], x);
    }
  }

  lemma {:induction false} Descend(s: seq<real>, k: nat, from: real) returns (x: real)
    requires from in s && 1 <= k <= Count(s, AtMost(from))
    ensures KthSmallest(s, k, x)
    decreases Count(s, AtMost(from))
  {
    hide Count;
    x := from;
    if k <= Count(s, Below(from)) {
      var y := LargestBelow(s, from);
      OwnClassCounts(s, from);
      CountMonotone(s, AtMost(y), Below(from));
      x := Descend(s, k, y);
    }
  }

  /** Every rank from 1 to the number of samples has its sample. */
  lemma KthSmallestExists(s: seq<real>, k: nat) returns (x: real)
    requires 1 <= k <= |s|
    ensures KthSmallest(s, k, x)
  {
    var largest := AllAtMostLargest(s);
    x := Descend(s, k, largest);
  }

  lemma {:induction false} CountOfPrefix(s: seq<real>, t: Test, m: nat)
    requires m <= |s|
    ensures (forall i :: m <= i < |s| ==> !Holds(t, s[i])) ==> Count(s, t) <= m
    ensures (forall i :: 0 <= i < m ==> Holds(t, s[i])) ==> Count(s, t) >= m
  {
    if m < |s| {
      CountOfPrefix(s[..|s| - 1], t, m);
    } else if m > 0 {
      CountOfPrefix(s[..|s| - 1], t, m - 1);
    }
  }

  /** In an ordered list the k-th smallest entry is the k-th entry. */
  lemma KthOfOrderedList(s: seq<real>, k: nat)
    requires forall i, j :: 0 <= i < j < |s| ==> s[i] <= s[j]
    requires 1 <= k <= |s|
    ensures KthSmallest(s, k, s[k - 1])
  {
    CountOfPrefix(s, Below(s[k - 1]), k - 1);
    CountOfPrefix(s, AtMost(s[k - 1]), k);
  }

  /** The bucket the scan stops in is the bucket of the k-th smallest sample. */
  lemma StopsAtOrderStatistic(s: seq<real>, threshold: real, c: nat, k: nat, x: real)
    requires Reaches(s, threshold, c) && c < NUM_BUCKETS
    requires KthSmallest(s, k, x) && k as real - 1.0 < threshold <= k as real
    ensures c == BucketOf(x)
  {
    hide Count, BucketOf;
    if c < BucketOf(x) {
      forall v | v in s && Holds(BucketAtMost(c), v) ensures Holds(Below(x), v) {
        if x <= v {
          BucketsFollowValues(x, v);
        }
      }
      CountMonotone(s, BucketAtMost(c), Below(x));
    } else if BucketOf(x) < c {
      forall v | v in s && Holds(AtMost(x), v) ensures Holds(BucketAtMost(c - 1), v) {
        BucketsFollowValues(v, x);
      }
      CountMonotone(s, AtMost(x), BucketAtMost(c - 1));
    }
  }

  lemma BlendIs(left: real, right: real, part: real, whole: real)
    requires whole != 0.0
    ensures Blend(left, right, part, whole) * whole == left * whole + (right - left) * part
  {
    var pos := part / whole;
    assert pos * whole == part;
  }

  lemma ProportionalPart(left: real, right: real, part: real, whole: real)
    requires left <= right && 0.0 < part <= whole
    ensures left <= Blend(left, right, part, whole) <= right
  {
    var pos := part / whole;
    assert pos <= 1.0;
    assert (right - left) * pos <= (right - left) * 1.0;
  }

  /** The interpolated point before clamping. */
  ghost function Raw(s: seq<real>, threshold: real, c: nat): real
    requires c < NUM_BUCKETS && Count(s, IsBucket(c)) > 0
  {
    Blend(Left(c), Limit(c), threshold - Before(s, c) as real, Count(s, IsBucket(c)) as real)
  }

  lemma ReachedBucket(s: seq<real>, p: real) returns (c: nat, threshold: real)
    requires s != [] && 0.0 < p <= 100.0
    ensures threshold == Threshold(|s| as real, p)
    ensures Reaches(s, threshold, c) && c < NUM_BUCKETS && Count(s, IsBucket(c)) > 0
    ensures PercentileOf(SummaryOf(s), p) == Interpolated(c, Clamp(Raw(s, threshold, c), MinOf(s), MaxOf(s)))
    ensures Left(c) <= Raw(s, threshold, c) <= Limit(c)
  {
    hide Before, Limit, Left, Reaches, Blend, Threshold, Count, PercentileOf, MinOf, MaxOf, SummaryOf;
    c, threshold := PercentileReaches(s, p);
    ThresholdRange(|s|, p);
    ReachesSomewhere(s, threshold, c);
    CumulativeStep(s, c);
    BucketField(s, c);
    SummaryExtremes(s);
    LeftBelowLimit(c);
    ProportionalPart(Left(c), Limit(c), threshold - Before(s, c) as real, Count(s, IsBucket(c)) as real);
  }

  lemma SummaryExtremes(s: seq<real>)
    ensures SummaryOf(s).min == MinOf(s) && SummaryOf(s).max == MaxOf(s)
  {
  }

  lemma ReachesSomewhere(s: seq<real>, threshold: real, c: nat)
    requires Reaches(s, threshold, c)
    requires 0.0 < threshold <= |s| as real
    ensures c < NUM_BUCKETS
    ensures Before(s, c) as real < threshold <= Before(s, c + 1) as real
  {
    AllBucketsHoldAll(s);
  }

  lemma LeftBelowLimit(b: nat)
    requires b < NUM_BUCKETS
    ensures 0.0 <= Left(b) < Limit(b)
  {
    if b > 0 {
      LimitStep(b - 1);
    }
  }

  /** For any samples percentile p is computed in the bucket of the ceil(n * p / 100)-th smallest
      sample and lies between min_ and max_.  For samples between 0 and the last limit these are
      the extreme samples, and value and sample lie in the same closed bucket. */
  lemma PercentileBracketsOrderStatistic(s: seq<real>, p: real, k: nat, x: real)
    requires s != [] && 0.0 < p <= 100.0
    requires k as real - 1.0 < |s| as real * p / 100.0 <= k as real
    requires KthSmallest(s, k, x)
    ensures var r := PercentileOf(SummaryOf(s), p);
            && r.Interpolated? && r.bucket == BucketOf(x) && MinOf(s) <= r.value <= MaxOf(s)
            && ((forall v :: v in s ==> 0.0 <= v <= LAST_LIMIT) ==>
                  && Left(r.bucket) <= r.value <= Limit(r.bucket)
                  && Left(r.bucket) <= x <= Limit(r.bucket)
                  && MinOf(s) in s && MaxOf(s) in s)
  {
    ThresholdIs(|s| as real, p);
    var c, threshold := ReachedBucket(s, p);
    StopsAtOrderStatistic(s, threshold, c, k, x);
    ExtremesBound(s, x);
    if forall v :: v in s ==> 0.0 <= v <= LAST_LIMIT {
      ExtremesAreSamples(s);
      assert InBucket(x, c);
      assert Limit(NUM_BUCKETS - 1) == LAST_LIMIT;
    }
    hide Limit, Count, BucketOf, Raw;
  }

  /** The rank ceil(n * p / 100) and its sample exist, so the bracket above is never void. */
  lemma OrderStatisticExists(s: seq<real>, p: real) returns (k: nat, x: real)
    requires s != [] && 0.0 < p <= 100.0
    ensures 1 <= k <= |s| && k as real - 1.0 < |s| as real * p / 100.0 <= k as real
    ensures KthSmallest(s, k, x)
  {
    ThresholdIs(|s| as real, p);
    ThresholdRange(|s|, p);
    hide Threshold;
    var t := Threshold(|s| as real, p);
    var floor := t.Floor;
    k := if floor as real == t then floor else floor + 1;
    x := KthSmallestExists(s, k);
  }

  /** The value of every interpolation: with m samples in the lower buckets and n in its own, it
      divides the bucket like the rest of the rank divides n, cut to the extremes. */
  lemma InterpolationIsLinear(s: seq<real>, p: real) returns (m: nat, n: nat, raw: real)
    requires PercentileOf(SummaryOf(s), p).Interpolated?
    ensures var b := PercentileOf(SummaryOf(s), p).bucket;
            && b < NUM_BUCKETS
            && m == |set i | 0 <= i < |s| && BucketOf(s[i]) < b|
            && n == |set i | 0 <= i < |s| && BucketOf(s[i]) == b|
            && n > 0 && (b > 0 ==> m as real < |s| as real * p / 100.0) && |s| as real * p / 100.0 <= (m + n) as real
            && var left := if b == 0 then 0.0 else Limit(b - 1);
               raw * n as real == left * n as real + (Limit(b) - left) * (|s| as real * p / 100.0 - m as real)
    ensures PercentileOf(SummaryOf(s), p).value
            == if raw < MinOf(s) then MinOf(s) else if raw > MaxOf(s) then MaxOf(s) else raw
  {
    hide Limit, Blend, Threshold, Count, MinOf, MaxOf, SummaryOf, BucketOf, Before, PercentileOf;
    ThresholdIs(|s| as real, p);
    var c, threshold := InterpolationReaches(s, p);
    m, n, raw := Before(s, c), Count(s, IsBucket(c)), Raw(s, threshold, c);
    BlendIs(Left(c), Limit(c), threshold - m as real, n as real);
    LowerBuckets(s, c);
    OwnBucket(s, c);
  }

  lemma InterpolationReaches(s: seq<real>, p: real) returns (c: nat, threshold: real)
    requires PercentileOf(SummaryOf(s), p).Interpolated?
    ensures threshold == Threshold(|s| as real, p)
    ensures c < NUM_BUCKETS && Count(s, IsBucket(c)) > 0 && MinOf(s) <= MaxOf(s)
    ensures (c > 0 ==> Before(s, c) as real < threshold) && threshold <= (Before(s, c) + Count(s, IsBucket(c))) as real
    ensures PercentileOf(SummaryOf(s), p) == Interpolated(c, Clamp(Raw(s, threshold, c), MinOf(s), MaxOf(s)))
  {
    hide Limit, Left, Blend, Threshold, Count, PercentileOf, MinOf, MaxOf, SummaryOf, Before;
    c, threshold := PercentileReaches(s, p);
    SummaryExtremes(s);
    CumulativeStep(s, c);
    BucketField(s, c);
    if s != [] {
      ExtremesBound(s, s[0]);
    }
  }

  lemma OwnBucket(s: seq<real>, b: nat)
    ensures Count(s, IsBucket(b)) == |set i | 0 <= i < |s| && BucketOf(s[i]) == b|
  {
    hide BucketOf, Count;
    CountIsSize(s, IsBucket(b));
    assert (set i | 0 <= i < |s| && Holds(IsBucket(b), s[i])) == set i | 0 <= i < |s| && BucketOf(s[i]) == b;
  }

  lemma LowerBuckets(s: seq<real>, b: nat)
    ensures Before(s, b) == |set i | 0 <= i < |s| && BucketOf(s[i]) < b|
  {
    hide BucketOf, Count;
    if b == 0 {
      assert (set i | 0 <= i < |s| && BucketOf(s[i]) < b) == {};
    } else {
      CountIsSize(s, BucketAtMost(b - 1));
      assert (set i | 0 <= i < |s| && Holds(BucketAtMost(b - 1), s[i])) == set i | 0 <= i < |s| && BucketOf(s[i]) < b;
    }
  }

  /** A larger p never gives a smaller percentile. */
  lemma PercentileIsMonotone(s: seq<real>, p: real, q: real)
    requires s != [] && 0.0 < p <= q <= 100.0
    ensures var r, t := PercentileOf(SummaryOf(s), p), PercentileOf(SummaryOf(s), q);
            r.Interpolated? && t.Interpolated? && r.bucket <= t.bucket && r.value <= t.value
  {
    hide Blend, Limit, Left, Before, Count, BucketOf, Raw, Reaches, PercentileOf, SummaryOf, Threshold, MinOf, MaxOf;
    var c, x := ReachedBucket(s, p);
    var d, y := ReachedBucket(s, q);
    ThresholdGrows(|s| as real, p, q);
    ExtremesBound(s, s[0]);
    RawGrows(s, x, c, y, d);
  }

  lemma ThresholdGrows(n: real, p: real, q: real)
    requires n >= 0.0 && p <= q
    ensures Threshold(n, p) <= Threshold(n, q)
  {
  }

  lemma RawGrows(s: seq<real>, x: real, c: nat, y: real, d: nat)
    requires x <= y && c < NUM_BUCKETS && d < NUM_BUCKETS && Reaches(s, x, c) && Reaches(s, y, d)
    requires Count(s, IsBucket(c)) > 0 && Count(s, IsBucket(d)) > 0
    requires Raw(s, x, c) <= Limit(c) && Left(d) <= Raw(s, y, d)
    ensures c <= d && Raw(s, x, c) <= Raw(s, y, d)
  {
    hide Blend, Count, Before, Limit;
    if d < c {
      CumulativeGrows(s, d + 1, c);
    } else if c == d {
      LeftBelowLimit(c);
      var whole := Count(s, IsBucket(c)) as real;
      SamePlaceGrows(Left(c), Limit(c), x - Before(s, c) as real, y - Before(s, c) as real, whole);
    } else if c < d - 1 {
      LimitsIncrease(c, d - 1);
    }
  }

  lemma SamePlaceGrows(left: real, right: real, x: real, y: real, whole: real)
    requires left <= right && x <= y && whole > 0.0
    ensures Blend(left, right, x, whole) <= Blend(left, right, y, whole)
  {
  }
}
