/** The latency histogram of histogram.c over exact reals.

    A histogram is tied to the samples it was built from: every field is a function of them
    (`SummaryOf`).  Its percentiles are then compared with the order statistics of the samples. */
module Histograms {
  import opened Arithmetic

  const NUM_BUCKETS: nat := 154

  /** The upper bucket limits, one decade after another; the last one closes the table. */
  const UNITS: seq<real> := [1.0, 2.0, 3.0, 4.0, 5.0, 6.0, 7.0, 8.0, 9.0, 10.0]
  const DECADE: seq<real> :=
    [12.0, 14.0, 16.0, 18.0, 20.0, 25.0, 30.0, 35.0, 40.0, 45.0, 50.0, 60.0, 70.0, 80.0, 90.0, 100.0]
  const LAST_LIMIT: real := 1e200

  function DecadeFactor(e: nat): (p: real)
    ensures p >= 1.0
  {
    if e == 0 then 1.0 else 10.0 * DecadeFactor(e - 1)
  }

  /** bucket_limit[b] */
  function Limit(b: nat): real
    requires b < NUM_BUCKETS
  {
    if b < 10 then UNITS[b]
    else if b == NUM_BUCKETS - 1 then LAST_LIMIT
    else DECADE[(b - 10) % 16] * DecadeFactor((b - 10) / 16)
  }

  lemma DecadeStep(e: nat, p: real)
    requires p >= 1.0 && e < 16
    ensures 0.0 < DECADE[e] * p
    ensures if e < 15 then DECADE[e] * p < DECADE[e + 1] * p else DECADE[e] * p < DECADE[0] * (10.0 * p)
  {
  }

  lemma LastDecade()
    ensures 0.0 < Limit(152) < Limit(153)
  {
  }

  lemma NextPlace(k: nat)
    ensures (k + 1) / 16 == if k % 16 < 15 then k / 16 else k / 16 + 1
    ensures (k + 1) % 16 == if k % 16 < 15 then k % 16 + 1 else 0
  {
  }

  lemma UnitStep(b: nat)
    requires b < 10
    ensures 0.0 < Limit(b) < Limit(b + 1)
  {
  }

  lemma LimitInDecade(b: nat, d: nat, e: nat)
    requires 10 <= b < 153 && (b - 10) / 16 == d && (b - 10) % 16 == e
    ensures Limit(b) == DECADE[e] * DecadeFactor(d)
  {
    hide DecadeFactor;
  }

  lemma PlaceStep(b: nat, d: nat, e: nat)
    requires 10 <= b && b + 2 < NUM_BUCKETS && d == (b - 10) / 16 && e == (b - 10) % 16
    ensures 0.0 < Limit(b) < Limit(b + 1)
  {
    hide DecadeFactor, Limit;
    NextPlace(b - 10);
    DecadeStep(e, DecadeFactor(d));
    DecadeFactorStep(d);
    LimitInDecade(b, d, e);
    LimitInDecade(b + 1, if e < 15 then d else d + 1, if e < 15 then e + 1 else 0);
  }

  lemma DecadeFactorStep(d: nat)
    ensures DecadeFactor(d + 1) == 10.0 * DecadeFactor(d)
  {
  }

  lemma LimitStep(b: nat)
    requires b + 1 < NUM_BUCKETS
    ensures 0.0 < Limit(b) < Limit(b + 1)
  {
    hide Limit;
    if b + 1 == NUM_BUCKETS - 1 {
      LastDecade();
    } else if b >= 10 {
      PlaceStep(b, (b - 10) / 16, (b - 10) % 16);
    } else {
      UnitStep(b);
    }
  }

  lemma Decades(d: nat)
    requires d < 9
    ensures DecadeFactor(d) == [1.0, 10.0, 100.0, 1e3, 1e4, 1e5, 1e6, 1e7, 1e8][d]
  {
    assert DecadeFactor(2) == 100.0 && DecadeFactor(4) == 1e4 && DecadeFactor(6) == 1e6;
  }

  lemma PlaceLimit(d: nat, e: nat)
    requires e < 16 && 10 + 16 * d + e < 153
    ensures Limit(10 + 16 * d + e) == DECADE[e] * DecadeFactor(d)
  {
    hide DecadeFactor, Limit;
    DivModUnique(16, d, e);
    LimitInDecade(10 + 16 * d + e, d, e);
  }

  /** The 154 entries of the table: 1 to 10, nine decades of sixteen entries (the last of them
      without its end), and 1e200. */
  lemma LimitTable(b: nat, d: nat, e: nat)
    requires b < 10 && d < 9 && e < 16 && !(d == 8 && e == 15)
    ensures NUM_BUCKETS == 154
    ensures Limit(b) == b as real + 1.0 && Limit(153) == 1e200
    ensures Limit(10 + 16 * d + e)
            == [12.0, 14.0, 16.0, 18.0, 20.0, 25.0, 30.0, 35.0,
                40.0, 45.0, 50.0, 60.0, 70.0, 80.0, 90.0, 100.0][e]
               * [1.0, 10.0, 100.0, 1e3, 1e4, 1e5, 1e6, 1e7, 1e8][d]
  {
    Decades(d);
    PlaceLimit(d, e);
    hide DecadeFactor;
  }

  lemma {:induction false} LimitsIncrease(b: nat, c: nat)
    requires b < c < NUM_BUCKETS
    ensures 0.0 < Limit(b) < Limit(c)
    decreases c
  {
    LimitStep(c - 1);
    if b < c - 1 {
      LimitsIncrease(b, c - 1);
    }
  }

  function Left(b: nat): real
    requires b < NUM_BUCKETS
  {
    if b == 0 then 0.0 else Limit(b - 1)
  }

  /** The bucket a value belongs to. */
  ghost predicate InBucket(v: real, b: nat) {
    b < NUM_BUCKETS && (b == 0 || Limit(b - 1) <= v) && (b == NUM_BUCKETS - 1 || v < Limit(b))
  }

  function BucketFrom(v: real, b: nat): (r: nat)
    requires b < NUM_BUCKETS
    requires b == 0 || Limit(b - 1) <= v
    ensures InBucket(v, r)
    decreases NUM_BUCKETS - b
  {
    if b < NUM_BUCKETS - 1 && Limit(b) <= v then BucketFrom(v, b + 1) else b
  }

  function BucketOf(v: real): (r: nat)
    ensures InBucket(v, r)
  {
    BucketFrom(v, 0)
  }

  /** Bucket b takes the values from the limit before it up to its own, and every value has one. */
  lemma BucketIff(v: real, b: nat)
    ensures b == BucketOf(v)
            <==> b < 154 && (b == 0 || Limit(b - 1) <= v) && (b == 153 || v < Limit(b))
  {
    hide Limit;
    var c := BucketOf(v);
    if b < c && b < c - 1 {
      LimitsIncrease(b, c - 1);
    } else if c < b < 154 && c < b - 1 {
      LimitsIncrease(c, b - 1);
    }
  }

  lemma BucketsFollowValues(v: real, w: real)
    requires v <= w
    ensures BucketOf(v) <= BucketOf(w)
  {
    var b, c := BucketOf(v), BucketOf(w);
    if c < b && c < b - 1 {
      LimitsIncrease(c, b - 1);
    }
  }

  // ----- What the fields mean -----

  function Sum(s: seq<real>): real {
    if s == [] then 0.0 else Sum(s[..|s| - 1]) + s[|s| - 1]
  }

  function Square(x: real): real {
    x * x
  }

  function SumSquares(s: seq<real>): real {
    if s == [] then 0.0 else SumSquares(s[..|s| - 1]) + Square(s[|s| - 1])
  }

  function MinOf(s: seq<real>): real {
    if s == [] then LAST_LIMIT
    else
      var m := MinOf(s[..|s| - 1]);
      if m > s[|s| - 1] then s[|s| - 1] else m
  }

  function MaxOf(s: seq<real>): real {
    if s == [] then 0.0
    else
      var m := MaxOf(s[..|s| - 1]);
      if m < s[|s| - 1] then s[|s| - 1] else m
  }

  /** The properties of samples that are counted. */
  datatype Test = IsBucket(b: nat) | BucketAtMost(b: nat) | Below(x: real) | AtMost(x: real)

  predicate Holds(t: Test, v: real) {
    match t
    case IsBucket(b) => BucketOf(v) == b
    case BucketAtMost(b) => BucketOf(v) <= b
    case Below(x) => v < x
    case AtMost(x) => v <= x
  }

  function Count(s: seq<real>, t: Test): (n: nat)
    ensures n <= |s|
  {
    if s == [] then 0 else Count(s[..|s| - 1], t) + if Holds(t, s[|s| - 1]) then 1 else 0
  }

  /** Count counts the places whose sample passes the test. */
  lemma {:induction false} CountIsSize(s: seq<real>, t: Test)
    ensures Count(s, t) == |set i | 0 <= i < |s| && Holds(t, s[i])|
  {
    hide Holds;
    var places := set i | 0 <= i < |s| && Holds(t, s[i]);
    if s == [] {
      assert places == {};
    } else {
      var r, last := s[..|s| - 1], |s| - 1;
      CountIsSize(r, t);
      var earlier := set i | 0 <= i < |r| && Holds(t, r[i]);
      assert forall i :: 0 <= i < last ==> r[i] == s[i];
      if Holds(t, s[last]) {
        assert places == earlier + {last};
      } else {
        assert places == earlier;
      }
    }
  }

  datatype Summary = Summary(min: real, max: real, num: real, sum: real, sumSquares: real, buckets: seq<real>)

  function SummaryOf(s: seq<real>): (h: Summary)
    ensures |h.buckets| == NUM_BUCKETS
  {
    Summary(MinOf(s), MaxOf(s), |s| as real, Sum(s), SumSquares(s),
            seq(NUM_BUCKETS, b requires 0 <= b < NUM_BUCKETS => Count(s, IsBucket(b)) as real))
  }

  class Histogram {
    var min: real
    var max: real
    var num: real
    var sum: real
    var sumSquares: real
    const buckets: array<real>

    /** Everything ever added. */
    ghost var samples: seq<real>

    function Fields(): Summary
      reads this, buckets
    {
      Summary(min, max, num, sum, sumSquares, buckets[..])
    }

    ghost predicate Valid()
      reads this, buckets
    {
      Fields() == SummaryOf(samples)
    }

    constructor ()
      ensures Valid() && samples == [] && fresh(buckets)
    {
      buckets := new real[NUM_BUCKETS];
      new;
      Clear();
    }

    /** histogram_clear */
    method Clear()
      requires buckets.Length == NUM_BUCKETS
      modifies this, buckets
      ensures Valid() && samples == []
      ensures min == 1e200 && max == 0.0 && num == 0.0 && sum == 0.0 && sumSquares == 0.0
      ensures forall b :: 0 <= b < 154 ==> buckets[b] == 0.0
    {
      min := Limit(NUM_BUCKETS - 1);
      max := 0.0;
      num := 0.0;
      sum := 0.0;
      sumSquares := 0.0;
      for i := 0 to NUM_BUCKETS
        invariant forall b :: 0 <= b < i ==> buckets[b] == 0.0
        modifies buckets
      {
        buckets[i] := 0.0;
      }
      samples := [];
      assert buckets[..] == SummaryOf([]).buckets;
    }

    /** histogram_add */
    method Add(value: real)
      requires Valid()
      modifies this, buckets
      ensures Valid() && samples == old(samples) + [value]
      ensures num == old(num) + 1.0 && sum == old(sum) + value && sumSquares == old(sumSquares) + value * value
      ensures min == if value < old(min) then value else old(min)
      ensures max == if value > old(max) then value else old(max)
      ensures buckets[..] == old(buckets[..])[BucketOf(value) := old(buckets[BucketOf(value)]) + 1.0]
    {
      hide SummaryOf, Limit, InBucket, BucketOf, Square;
      BucketStart(value);
      var b := 0;
      while b < NUM_BUCKETS - 1 && Limit(b) <= value
        invariant 0 <= b < NUM_BUCKETS
        invariant b == 0 || Limit(b - 1) <= value
        invariant BucketFrom(value, b) == BucketOf(value)
      {
        b := b + 1;
      }
      assert |buckets[..]| == NUM_BUCKETS;
      ghost var before := buckets[..];
      buckets[b] := buckets[b] + 1.0;
      if min > value {
        min := value;
      }
      if max < value {
        max := value;
      }
      num := num + 1.0;
      sum := sum + value;
      sumSquares := sumSquares + value * value;
      assert value * value == Square(value) by { SquareIs(value); }
      samples := samples + [value];
      SummaryGrows(old(samples), value);
      assert buckets[..] == before[b := before[b] + 1.0];
    }

    /** histogram_merge; merging a histogram into itself doubles it. */
    method Merge(other: Histogram)
      requires Valid() && other.Valid() && (other == this || other.buckets != buckets)
      modifies this, buckets
      ensures Valid() && samples == old(samples) + old(other.samples)
    {
      hide SummaryOf;
      ghost var mine, theirs := buckets[..], other.buckets[..];
      assert |mine| == NUM_BUCKETS && |theirs| == NUM_BUCKETS;
      if other.min < min {
        min := other.min;
      }
      if other.max > max {
        max := other.max;
      }
      num := num + other.num;
      sum := sum + other.sum;
      sumSquares := sumSquares + other.sumSquares;
      for b := 0 to NUM_BUCKETS
        invariant forall k :: 0 <= k < b ==> buckets[k] == mine[k] + theirs[k]
        invariant forall k :: b <= k < NUM_BUCKETS ==> buckets[k] == mine[k] && other.buckets[k] == theirs[k]
        modifies buckets
      {
        buckets[b] := buckets[b] + other.buckets[b];
      }
      samples := samples + old(other.samples);
      assert this.samples == old(samples) + old(other.samples);
      SummaryOfConcatenation(old(samples), old(other.samples));
      assert buckets[..] == SummaryOf(samples).buckets;
    }
  }

  lemma BucketStart(v: real)
    ensures BucketFrom(v, 0) == BucketOf(v)
  {
  }

  lemma SquareIs(x: real)
    ensures Square(x) == x * x
  {
  }

  lemma CountGrows(s: seq<real>, v: real, t: Test)
    ensures Count(s + [v], t) == Count(s, t) + if Holds(t, v) then 1 else 0
  {
  }

  lemma BucketsGrow(s: seq<real>, v: real, k: nat)
    requires k < NUM_BUCKETS
    ensures SummaryOf(s + [v]).buckets[k] == SummaryOf(s).buckets[k] + if k == BucketOf(v) then 1.0 else 0.0
  {
    hide Count, BucketOf, Sum, SumSquares, MinOf, MaxOf;
    CountGrows(s, v, IsBucket(k));
  }

  lemma SummaryGrows(s: seq<real>, v: real)
    ensures var h := SummaryOf(s);
            SummaryOf(s + [v]) ==
              Summary(if h.min > v then v else h.min, if h.max < v then v else h.max, h.num + 1.0,
                      h.sum + v, h.sumSquares + Square(v),
                      h.buckets[BucketOf(v) := h.buckets[BucketOf(v)] + 1.0])
  {
    hide Count, BucketOf, InBucket, Limit, Square;
    var h, g := SummaryOf(s), SummaryOf(s + [v]);
    assert (s + [v])[..|s|] == s;
    assert BucketOf(v) < NUM_BUCKETS by { BucketInRange(v); }
    forall k | 0 <= k < NUM_BUCKETS
      ensures g.buckets[k] == h.buckets[BucketOf(v) := h.buckets[BucketOf(v)] + 1.0][k]
    {
      BucketsGrow(s, v, k);
    }
    assert g.buckets == h.buckets[BucketOf(v) := h.buckets[BucketOf(v)] + 1.0];
  }

  lemma BucketInRange(v: real)
    ensures BucketOf(v) < NUM_BUCKETS
  {
  }

  lemma {:induction false} CountOfConcatenation(s: seq<real>, t: seq<real>, p: Test)
    ensures Count(s + t, p) == Count(s, p) + Count(t, p)
    decreases |t|
  {
    if t == [] {
      assert s + t == s;
    } else {
      CountOfConcatenation(s, t[..|t| - 1], p);
      assert (s + t)[..|s + t| - 1] == s + t[..|t| - 1];
    }
  }

  lemma {:induction false} ScalarsOfConcatenation(s: seq<real>, t: seq<real>)
    ensures Sum(s + t) == Sum(s) + Sum(t)
    ensures SumSquares(s + t) == SumSquares(s) + SumSquares(t)
    ensures MinOf(s + t) == if MinOf(t) < MinOf(s) then MinOf(t) else MinOf(s)
    ensures MaxOf(s + t) == if MaxOf(t) > MaxOf(s) then MaxOf(t) else MaxOf(s)
    decreases |t|
  {
    hide Square;
    if t == [] {
      assert s + t == s;
      EmptyExtremes(s);
    } else {
      ScalarsOfConcatenation(s, t[..|t| - 1]);
      assert (s + t)[..|s + t| - 1] == s + t[..|t| - 1];
    }
  }

  /** The start values are neutral. */
  lemma {:induction false} EmptyExtremes(s: seq<real>)
    ensures MinOf(s) <= LAST_LIMIT && MaxOf(s) >= 0.0
  {
    if s != [] {
      EmptyExtremes(s[..|s| - 1]);
    }
  }

  /** Merging the summaries of two sample lists, field by field, summarises their concatenation. */
  lemma SummaryOfConcatenation(s: seq<real>, t: seq<real>)
    ensures var g, h := SummaryOf(s), SummaryOf(t);
            SummaryOf(s + t) ==
              Summary(if h.min < g.min then h.min else g.min, if h.max > g.max then h.max else g.max,
                      g.num + h.num, g.sum + h.sum, g.sumSquares + h.sumSquares,
                      seq(NUM_BUCKETS, b requires 0 <= b < NUM_BUCKETS => g.buckets[b] + h.buckets[b]))
  {
    hide Count, Sum, SumSquares, Square, MinOf, MaxOf;
    ScalarsOfConcatenation(s, t);
    var g, h, m := SummaryOf(s), SummaryOf(t), SummaryOf(s + t);
    forall b | 0 <= b < NUM_BUCKETS ensures m.buckets[b] == g.buckets[b] + h.buckets[b] {
      CountOfConcatenation(s, t, IsBucket(b));
    }
    assert m.buckets == seq(NUM_BUCKETS, b requires 0 <= b < NUM_BUCKETS => g.buckets[b] + h.buckets[b]);
  }

  lemma {:induction false} ExtremesBound(s: seq<real>, v: real)
    requires v in s
    ensures MinOf(s) <= v <= MaxOf(s)
  {
    if v != s[|s| - 1] {
      ExtremesBound(s[..|s| - 1], v);
    }
  }

  /** Every extreme is a sample or its start value. */
  lemma {:induction false} ExtremesOrStart(s: seq<real>)
    ensures MinOf(s) in s || MinOf(s) == 1e200
    ensures MaxOf(s) in s || MaxOf(s) == 0.0
  {
    if s != [] {
      var r := s[..|s| - 1];
      ExtremesOrStart(r);
      assert s[|s| - 1] in s;
      assert MinOf(r) in r ==> MinOf(r) in s;
      assert MaxOf(r) in r ==> MaxOf(r) in s;
    }
  }

  /** min_ is a sample exactly when some sample is at most its start value; same for max_. */
  lemma ExtremesAreSamples(s: seq<real>)
    ensures MinOf(s) in s <==> exists v :: v in s && v <= 1e200
    ensures MaxOf(s) in s <==> exists v :: v in s && v >= 0.0
  {
    hide MinOf, MaxOf;
    EmptyExtremes(s);
    ExtremesOrStart(s);
    if v :| v in s && v <= 1e200 {
      ExtremesBound(s, v);
    }
    if v :| v in s && v >= 0.0 {
      ExtremesBound(s, v);
    }
  }
}
