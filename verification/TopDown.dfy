/** The top-down analysis of top-down-analysis.py over exact reals, and its two checkers. */
module TopDown {

  const L1_LAT: real := 2.0
  const L2_LAT: real := 6.0
  const LL_LAT: real := 50.0

  /** The counters the first nine metrics depend on. */
  datatype Counters = Counters(
    cycles: real, instRetired: real, stallFrontend: real, stallBackend: real,
    l1Refill: real, l2Refill: real, llMissRd: real,
    instSpec: real, ldSpec: real, stSpec: real, dpSpec: real, aseSpec: real,
    brIndirect: real, brReturn: real, brImmed: real, vfpSpec: real)

  datatype Metrics = Metrics(
    retiring: real, frontend: real, backend: real, badSpeculation: real,
    memory: real, core: real, l1: real, l2: real, extMem: real)

  function Max(x: real, y: real): real { if x >= y then x else y }

  function Min(x: real, y: real): real { if x <= y then x else y }

  function Abs(x: real): real { if x < 0.0 then -x else x }

  function SpecTotal(c: Counters): real {
    c.instSpec + c.ldSpec + c.stSpec + c.dpSpec + c.aseSpec + c.brIndirect + c.brReturn + c.brImmed + c.vfpSpec
  }

  function MemStalls(c: Counters): real {
    c.l1Refill * L1_LAT + c.l2Refill * L2_LAT + c.llMissRd * LL_LAT
  }

  /** x / y where y is positive. */
  function Ratio(x: real, y: real): real
    requires y > 0.0
  {
    x / y
  }

  /** A share of a bound. */
  function Part(whole: real, share: real): real {
    whole * share
  }

  /** Memory and core part of the backend stalls from the instruction mix. */
  function MixSplit(c: Counters, backend: real): (real, real)
    requires c.instSpec > 0.0
  {
    var mem, core := Ratio(c.ldSpec + c.stSpec, c.instSpec), Ratio(c.dpSpec, c.instSpec);
    var total := mem + core;
    var mem' := if total > 1.0 then Ratio(mem, total) else mem;
    var core' := if total > 1.0 then Ratio(core, total) else core;
    if c.stallBackend > 0.0 then (Part(backend, mem'), Part(backend, core')) else (0.0, backend)
  }

  /** The second normalisation: the parts are scaled to add up to the backend bound. */
  function Normalize(backend: real, memory: real, core: real): (real, real) {
    if Abs(memory + core - backend) > 0.001 then
      if memory + core > 0.0 then (Ratio(memory * backend, memory + core), Ratio(core * backend, memory + core))
      else (0.0, backend)
    else (memory, core)
  }

  /** The split from the latency model, used without instruction counts. */
  function LatencySplit(c: Counters, backend: real, stalls: real): (real, real) {
    if c.stallBackend > 0.0 then
      var ratio := Ratio(stalls, c.stallBackend);
      if ratio >= 1.0 then (backend, 0.0)
      else if ratio >= 0.5 then (Part(backend, ratio), backend - Part(backend, ratio))
      else (Part(backend, Min(ratio, 0.8)), backend - Part(backend, Min(ratio, 0.8)))
    else (0.0, backend)
  }

  function BackendSplit(c: Counters, backend: real, stalls: real): (real, real) {
    if c.instSpec > 0.0 then
      var (memory, core) := MixSplit(c, backend);
      Normalize(backend, memory, core)
    else LatencySplit(c, backend, stalls)
  }

  /** L1, L2 and external part of the memory bound. */
  function MemorySplit(c: Counters, memory: real, stalls: real): (real, real, real) {
    var l1Stalls, l2Stalls, llStalls := c.l1Refill * L1_LAT, c.l2Refill * L2_LAT, c.llMissRd * LL_LAT;
    var negative := l1Stalls < 0.0 || l2Stalls < 0.0 || llStalls < 0.0;
    var a := if negative then Max(0.0, l1Stalls) else l1Stalls;
    var b := if negative then Max(0.0, l2Stalls) else l2Stalls;
    var l1 := if stalls > 0.0 && memory > 0.0 then Part(memory, Ratio(a, stalls)) else 0.0;
    var l2 := if stalls > 0.0 && memory > 0.0 then Part(memory, Ratio(b, stalls)) else 0.0;
    (l1, l2, Max(0.0, memory - (l1 + l2)))
  }

  /** The first nine results of top_down_analysis; ZeroTotal where it divides by a zero total of
      speculative instructions. */
  datatype Analysis = Invalid | ZeroTotal | Done(m: Metrics)

  /** Negative stall counters are raised to zero. */
  function Clamped(c: Counters): Counters {
    if c.stallFrontend < 0.0 || c.stallBackend < 0.0 then
      c.(stallFrontend := Max(0.0, c.stallFrontend), stallBackend := Max(0.0, c.stallBackend))
    else c
  }

  function Analyse(c: Counters): Analysis {
    if c.cycles <= 0.0 || c.instRetired <= 0.0 then Invalid
    else
      var d := Clamped(c);
      if SpecTotal(d) == 0.0 then ZeroTotal
      else
        var retiring := d.instSpec / SpecTotal(d);
        var frontend, backend := Ratio(d.stallFrontend, d.cycles), Ratio(d.stallBackend, d.cycles);
        var stalls := Max(0.0, MemStalls(d));
        var (memory, core) := BackendSplit(d, backend, stalls);
        var (l1, l2, ext) := MemorySplit(d, memory, stalls);
        Done(Metrics(retiring, frontend, backend, Max(0.0, 1.0 - (retiring + frontend + backend)),
                     memory, core, l1, l2, ext))
  }

  // ----- The checkers -----

  function List(m: Metrics): seq<real> {
    [m.retiring, m.frontend, m.backend, m.badSpeculation, m.memory, m.core, m.l1, m.l2, m.extMem]
  }

  /** The three sums a checker compares, within a tolerance. */
  predicate SumsAgree(m: Metrics, tolerance: real) {
    && Abs(m.retiring + m.frontend + m.backend + m.badSpeculation - 1.0) <= tolerance
    && Abs(m.memory + m.core - m.backend) <= tolerance
    && Abs(m.l1 + m.l2 + m.extMem - m.memory) <= tolerance
  }

  predicate NoneNegative(m: Metrics) {
    forall k :: 0 <= k < 9 ==> List(m)[k] >= -0.001
  }

  lemma EachMetric(m: Metrics)
    ensures NoneNegative(m) <==>
      && m.retiring >= -0.001 && m.frontend >= -0.001 && m.backend >= -0.001 && m.badSpeculation >= -0.001
      && m.memory >= -0.001 && m.core >= -0.001 && m.l1 >= -0.001 && m.l2 >= -0.001 && m.extMem >= -0.001
  {
    var l := List(m);
    assert l == [l[0], l[1], l[2], l[3], l[4], l[5], l[6], l[7], l[8]];
  }

  /** validate_top_down_analysis */
  method Validate(m: Metrics) returns (isValid: bool)
    ensures isValid <==> SumsAgree(m, 0.01) && NoneNegative(m)
    ensures isValid <==>
      && -0.01 <= m.retiring + m.frontend + m.backend + m.badSpeculation - 1.0 <= 0.01
      && -0.01 <= m.memory + m.core - m.backend <= 0.01
      && -0.01 <= m.l1 + m.l2 + m.extMem - m.memory <= 0.01
      && m.retiring >= -0.001 && m.frontend >= -0.001 && m.backend >= -0.001 && m.badSpeculation >= -0.001
      && m.memory >= -0.001 && m.core >= -0.001 && m.l1 >= -0.001 && m.l2 >= -0.001 && m.extMem >= -0.001
  {
    isValid := true;
    if Abs(m.retiring + m.frontend + m.backend + m.badSpeculation - 1.0) > 0.01 {
      isValid := false;
    }
    if Abs(m.memory + m.core - m.backend) > 0.01 {
      isValid := false;
    }
    if Abs(m.l1 + m.l2 + m.extMem - m.memory) > 0.01 {
      isValid := false;
    }
    var metrics := List(m);
    for k := 0 to |metrics|
      invariant isValid <==> SumsAgree(m, 0.01) && forall j :: 0 <= j < k ==> List(m)[j] >= -0.001
    {
      if metrics[k] < -0.001 {
        isValid := false;
      }
    }
    EachMetric(m);
  }

  /** The range checks only verify_mathematical_consistency makes. */
  predicate RangesAgree(m: Metrics) {
    m.retiring <= 1.0 && m.memory <= m.backend + 0.001
  }

  /** verify_mathematical_consistency */
  method Verify(m: Metrics) returns (allValid: bool)
    ensures allValid <==> SumsAgree(m, 0.001) && NoneNegative(m) && RangesAgree(m)
    ensures allValid <==>
      && -0.001 <= m.retiring + m.frontend + m.backend + m.badSpeculation - 1.0 <= 0.001
      && -0.001 <= m.memory + m.core - m.backend <= 0.001
      && -0.001 <= m.l1 + m.l2 + m.extMem - m.memory <= 0.001
      && m.retiring >= -0.001 && m.frontend >= -0.001 && m.backend >= -0.001 && m.badSpeculation >= -0.001
      && m.memory >= -0.001 && m.core >= -0.001 && m.l1 >= -0.001 && m.l2 >= -0.001 && m.extMem >= -0.001
      && m.retiring <= 1.0 && m.memory <= m.backend + 0.001
  {
    allValid := true;
    if !(Abs(m.retiring + m.frontend + m.backend + m.badSpeculation - 1.0) <= 0.001) {
      allValid := false;
    }
    if !(Abs(m.memory + m.core - m.backend) <= 0.001) {
      allValid := false;
    }
    if !(Abs(m.l1 + m.l2 + m.extMem - m.memory) <= 0.001) {
      allValid := false;
    }
    var metrics := List(m);
    for k := 0 to |metrics|
      invariant allValid <==> SumsAgree(m, 0.001) && forall j :: 0 <= j < k ==> List(m)[j] >= -0.001
    {
      if !(metrics[k] >= -0.001) {
        allValid := false;
      }
    }
    EachMetric(m);
    if m.retiring > 1.0 {
      allValid := false;
    }
    if m.memory > m.backend + 0.001 {
      allValid := false;
    }
  }

  // ----- What the analysis guarantees -----

  /** There are cycles, retired and speculative instructions, and no counter is negative, the two
      stall counters excepted. */
  predicate Plausible(c: Counters) {
    && c.cycles > 0.0 && c.instRetired > 0.0 && SpecTotal(c) > 0.0
    && c.l1Refill >= 0.0 && c.l2Refill >= 0.0 && c.llMissRd >= 0.0
    && c.instSpec >= 0.0 && c.ldSpec >= 0.0 && c.stSpec >= 0.0 && c.dpSpec >= 0.0 && c.aseSpec >= 0.0
    && c.brIndirect >= 0.0 && c.brReturn >= 0.0 && c.brImmed >= 0.0 && c.vfpSpec >= 0.0
  }

  lemma RatioBounds(x: real, y: real)
    requires x >= 0.0 && y > 0.0
    ensures Ratio(x, y) >= 0.0
    ensures x <= y ==> Ratio(x, y) <= 1.0
  {
  }

  lemma RatiosAddUp(x: real, y: real, z: real)
    requires z > 0.0
    ensures Ratio(x, z) + Ratio(y, z) == Ratio(x + y, z)
  {
  }

  lemma RatioOfWhole(y: real, x: real, z: real)
    requires z > 0.0 && y == z * x
    ensures Ratio(y, z) == x
  {
  }

  lemma PartBounds(x: real, y: real)
    requires x >= 0.0 && y >= 0.0
    ensures Part(x, y) >= 0.0
    ensures y <= 1.0 ==> Part(x, y) <= x
  {
  }

  lemma PartsOfSum(x: real, y: real, z: real)
    ensures Part(x, y) + Part(x, z) == Part(x, y + z)
  {
  }

  lemma PartsAddUp(backend: real, memory: real, core: real)
    requires backend >= 0.0 && memory >= 0.0 && core >= 0.0 && memory + core > 0.0
    ensures Ratio(memory * backend, memory + core) >= 0.0 && Ratio(core * backend, memory + core) >= 0.0
    ensures Ratio(memory * backend, memory + core) + Ratio(core * backend, memory + core) == backend
  {
    hide Ratio;
    var x, y, w := memory * backend, core * backend, memory + core;
    assert x == Part(memory, backend) && y == Part(core, backend);
    PartBounds(memory, backend);
    PartBounds(core, backend);
    RatioBounds(x, w);
    RatioBounds(y, w);
    RatiosAddUp(x, y, w);
    DistributeOver(memory, core, backend, w);
    RatioOfWhole(x + y, backend, w);
  }

  lemma DistributeOver(x: real, y: real, z: real, w: real)
    requires w == x + y
    ensures x * z + y * z == w * z
  {
  }

  lemma NormalizeBalances(backend: real, memory: real, core: real)
    requires backend >= 0.0 && memory >= 0.0 && core >= 0.0
    ensures var (m, c) := Normalize(backend, memory, core);
            m >= 0.0 && c >= 0.0 && Abs(m + c - backend) <= 0.001
  {
    hide Ratio;
    if Abs(memory + core - backend) > 0.001 && memory + core > 0.0 {
      PartsAddUp(backend, memory, core);
    }
  }

  lemma MixSplitIsNonNegative(c: Counters, backend: real)
    requires Plausible(c) && c.instSpec > 0.0 && backend >= 0.0
    ensures MixSplit(c, backend).0 >= 0.0 && MixSplit(c, backend).1 >= 0.0
  {
    hide Ratio, Part;
    var mem, core := Ratio(c.ldSpec + c.stSpec, c.instSpec), Ratio(c.dpSpec, c.instSpec);
    RatioBounds(c.ldSpec + c.stSpec, c.instSpec);
    RatioBounds(c.dpSpec, c.instSpec);
    var total := mem + core;
    if total > 1.0 {
      RatioBounds(mem, total);
      RatioBounds(core, total);
      PartBounds(backend, Ratio(mem, total));
      PartBounds(backend, Ratio(core, total));
    } else {
      PartBounds(backend, mem);
      PartBounds(backend, core);
    }
  }

  lemma BackendSplitBalances(c: Counters, backend: real, stalls: real)
    requires Plausible(c) && backend >= 0.0 && stalls >= 0.0
    ensures var (m, k) := BackendSplit(c, backend, stalls);
            m >= 0.0 && k >= 0.0 && Abs(m + k - backend) <= 0.001
  {
    if c.instSpec > 0.0 {
      MixSplitIsNonNegative(c, backend);
      NormalizeBalances(backend, MixSplit(c, backend).0, MixSplit(c, backend).1);
      hide MixSplit, Normalize;
    } else if c.stallBackend > 0.0 {
      hide Ratio, Part;
      var ratio := Ratio(stalls, c.stallBackend);
      RatioBounds(stalls, c.stallBackend);
      PartBounds(backend, ratio);
      PartBounds(backend, Min(ratio, 0.8));
    }
  }

  lemma MemorySplitBalances(c: Counters, memory: real)
    requires Plausible(c) && memory >= 0.0
    ensures var (a, b, e) := MemorySplit(c, memory, Max(0.0, MemStalls(c)));
            a >= 0.0 && b >= 0.0 && e >= 0.0 && a + b + e == memory
  {
    var x, y, z := c.l1Refill * L1_LAT, c.l2Refill * L2_LAT, MemStalls(c);
    assert 0.0 <= x && 0.0 <= y && x + y <= z;
    if z > 0.0 && memory > 0.0 {
      RatioBounds(x, z);
      RatioBounds(y, z);
      RatiosAddUp(x, y, z);
      RatioBounds(x + y, z);
      hide Ratio, Part;
      PartBounds(memory, Ratio(x, z));
      PartBounds(memory, Ratio(y, z));
      PartBounds(memory, Ratio(x + y, z));
      PartsOfSum(memory, Ratio(x, z), Ratio(y, z));
    }
  }

  /** For counters of any sign the memory levels add up to the memory bound exactly when the stalls
      that are attributed to the first two levels do not exceed all memory stalls. */
  lemma MemorySplitBalancesIff(c: Counters, memory: real)
    requires memory >= 0.0
    ensures var stalls := Max(0.0, MemStalls(c));
            var (a, b, e) := MemorySplit(c, memory, stalls);
            a + b + e == memory <==>
              stalls == 0.0 || memory == 0.0 || Max(0.0, c.l1Refill * L1_LAT) + Max(0.0, c.l2Refill * L2_LAT) <= stalls
  {
    var x, y, z := Max(0.0, c.l1Refill * L1_LAT), Max(0.0, c.l2Refill * L2_LAT), Max(0.0, MemStalls(c));
    if z > 0.0 && memory > 0.0 {
      RatiosAddUp(x, y, z);
      PartsOfSum(memory, Ratio(x, z), Ratio(y, z));
      PartExceedsIff(memory, x + y, z);
      hide Ratio, Part;
    }
  }

  lemma PartExceedsIff(whole: real, x: real, z: real)
    requires whole > 0.0 && z > 0.0
    ensures Part(whole, Ratio(x, z)) <= whole <==> x <= z
  {
    assert Ratio(x, z) <= 1.0 <==> x <= z;
    assert whole * (Ratio(x, z) - 1.0) == whole * Ratio(x, z) - whole;
  }

  /** On every branch no bound is negative, the memory levels add up to the memory bound exactly,
      and memory and core bound to the backend bound within 0.001. */
  lemma BoundsAreConsistent(c: Counters)
    requires Plausible(c)
    ensures Analyse(c).Done?
    ensures var m := Analyse(c).m;
            && (forall k :: 0 <= k < 9 ==> List(m)[k] >= 0.0)
            && m.retiring <= 1.0
            && m.l1 + m.l2 + m.extMem == m.memory
            && Abs(m.memory + m.core - m.backend) <= 0.001
            && m.retiring + m.frontend + m.backend + m.badSpeculation == Max(1.0, m.retiring + m.frontend + m.backend)
  {
    hide BackendSplit, MemorySplit;
    var d := Clamped(c);
    assert d.stallFrontend >= 0.0 && d.stallBackend >= 0.0 && Plausible(d) && SpecTotal(d) == SpecTotal(c);
    RatioBounds(d.stallFrontend, d.cycles);
    RatioBounds(d.stallBackend, d.cycles);
    RatioBounds(d.instSpec, SpecTotal(d));
    assert d.instSpec / SpecTotal(d) == Ratio(d.instSpec, SpecTotal(d));
    var backend, stalls := Ratio(d.stallBackend, d.cycles), Max(0.0, MemStalls(d));
    BackendSplitBalances(d, backend, stalls);
    MemorySplitBalances(d, BackendSplit(d, backend, stalls).0);
    hide MemStalls, Ratio, SpecTotal, Clamped;
  }

  // ----- Every metric from the counters -----

  lemma RatioTimes(x: real, y: real)
    requires y > 0.0
    ensures Ratio(x, y) * y == x
  {
  }

  /** The analysis stops without cycles or retired instructions, and divides by zero exactly when
      the speculative counters add up to zero. */
  lemma AnalysisExits(c: Counters)
    ensures Analyse(c).Invalid? <==> c.cycles <= 0.0 || c.instRetired <= 0.0
    ensures Analyse(c).ZeroTotal? <==>
              && c.cycles > 0.0 && c.instRetired > 0.0
              && c.instSpec + c.ldSpec + c.stSpec + c.dpSpec + c.aseSpec
                 + c.brIndirect + c.brReturn + c.brImmed + c.vfpSpec == 0.0
  {
    hide BackendSplit, MemorySplit, MemStalls, Ratio;
  }

  /** The first level: retired over all speculative instructions, each stall count (zero where
      negative) over the cycles, and the rest. */
  lemma TopLevelFromCounters(c: Counters)
    requires Analyse(c).Done?
    ensures var m := Analyse(c).m;
            && m.retiring * (c.instSpec + c.ldSpec + c.stSpec + c.dpSpec + c.aseSpec
                             + c.brIndirect + c.brReturn + c.brImmed + c.vfpSpec) == c.instSpec
            && m.frontend * c.cycles == (if c.stallFrontend > 0.0 then c.stallFrontend else 0.0)
            && m.backend * c.cycles == (if c.stallBackend > 0.0 then c.stallBackend else 0.0)
            && var rest := 1.0 - (m.retiring + m.frontend + m.backend);
               m.badSpeculation == if rest > 0.0 then rest else 0.0
  {
    hide BackendSplit, MemorySplit, MemStalls, Ratio;
    var d, m := Clamped(c), Analyse(c).m;
    assert m.retiring == d.instSpec / SpecTotal(d) && SpecTotal(d) == SpecTotal(c);
    RatioTimes(d.stallFrontend, d.cycles);
    RatioTimes(d.stallBackend, d.cycles);
    assert m.retiring * SpecTotal(d) == d.instSpec;
  }

  lemma CrossRatio(x: real, y: real, w: real)
    requires w > 0.0
    ensures Part(Ratio(x, w), y) == Part(Ratio(y, w), x)
  {
    var p, q := Ratio(x, w), Ratio(y, w);
    RatioTimes(x, w);
    RatioTimes(y, w);
    hide Ratio;
    assert p * (q * w) == q * (p * w);
  }

  lemma CrossTotal(p: real, q: real, x: real, y: real, n: real, u: real, v: real)
    requires Part(p, y) == Part(q, x) && Part(x, n) == u && Part(y, n) == v
    ensures Part(p, v) == Part(q, u)
  {
    assert p * (y * n) == (p * y) * n;
    assert q * (x * n) == (q * x) * n;
  }

  lemma CrossScaled(b: real, p: real, q: real, u: real, v: real)
    requires Part(p, v) == Part(q, u)
    ensures Part(Part(b, p), v) == Part(Part(b, q), u)
  {
    assert (b * p) * v == b * (p * v) && (b * q) * u == b * (q * u);
  }

  lemma CrossOver(x: real, y: real, w: real, u: real, v: real)
    requires w > 0.0 && Part(x, v) == Part(y, u)
    ensures Part(Ratio(x, w), v) == Part(Ratio(y, w), u)
  {
    var p, q := Ratio(x, w), Ratio(y, w);
    RatioTimes(x, w);
    RatioTimes(y, w);
    hide Ratio;
    assert p * w * v == (p * v) * w && q * w * u == (q * u) * w;
    CancelFactor(p * v, q * u, w);
  }

  lemma CancelFactor(x: real, y: real, w: real)
    requires w > 0.0 && x * w == y * w
    ensures x == y
  {
  }

  lemma SumOfParts(b: real, p: real, q: real, n: real, w: real)
    requires Part(p + q, n) == w
    ensures Part(Part(b, p) + Part(b, q), n) == Part(b, w)
  {
    assert (b * p + b * q) * n == b * ((p + q) * n);
  }

  lemma RatioPart(x: real, y: real)
    requires y > 0.0
    ensures Part(Ratio(x, y), y) == x
  {
    RatioTimes(x, y);
  }

  lemma OneWhole(n: real)
    ensures Part(1.0, n) == n
  {
  }

  /** Both parts when the shares of u and v in n do not exceed one together, and when they do. */
  lemma SharesWithin(b: real, n: real, u: real, v: real)
    requires n > 0.0
    ensures Part(Part(b, Ratio(u, n)), v) == Part(Part(b, Ratio(v, n)), u)
    ensures Part(Part(b, Ratio(u, n)) + Part(b, Ratio(v, n)), n) == Part(b, u + v)
  {
    hide Ratio, Part;
    CrossRatio(u, v, n);
    CrossScaled(b, Ratio(u, n), Ratio(v, n), u, v);
    RatiosAddUp(u, v, n);
    RatioPart(u + v, n);
    SumOfParts(b, Ratio(u, n), Ratio(v, n), n, u + v);
  }

  lemma SharesBeyond(b: real, n: real, u: real, v: real, x: real, y: real)
    requires n > 0.0 && x == Ratio(u, n) && y == Ratio(v, n) && x + y > 1.0
    ensures Part(Part(b, Ratio(x, x + y)), v) == Part(Part(b, Ratio(y, x + y)), u)
    ensures Part(Part(b, Ratio(x, x + y)) + Part(b, Ratio(y, x + y)), n) == Part(b, n)
  {
    hide Ratio, Part;
    var p, q := Ratio(x, x + y), Ratio(y, x + y);
    CrossRatio(x, y, x + y);
    RatioPart(u, n);
    RatioPart(v, n);
    CrossTotal(p, q, x, y, n, u, v);
    CrossScaled(b, p, q, u, v);
    RatiosAddUp(x, y, x + y);
    RatioOfWhole(x + y, 1.0, x + y);
    OneWhole(n);
    SumOfParts(b, p, q, n, n);
  }

  /** The smaller of the instructions counted and those in the mix. */
  function Counted(c: Counters): real {
    Min(c.instSpec, c.ldSpec + c.stSpec + c.dpSpec)
  }

  lemma MixSplitShares(c: Counters, backend: real)
    requires c.instSpec > 0.0 && c.stallBackend > 0.0
    ensures var (memory, core) := MixSplit(c, backend);
            && Part(memory, c.dpSpec) == Part(core, c.ldSpec + c.stSpec)
            && Part(memory + core, c.instSpec) == Part(backend, Counted(c))
  {
    var n, u, v := c.instSpec, c.ldSpec + c.stSpec, c.dpSpec;
    var mem, core := Ratio(u, n), Ratio(v, n);
    RatiosAddUp(u, v, n);
    RatioPart(u + v, n);
    ExceedsOne(mem + core, n, u + v);
    hide Ratio, Part;
    if mem + core > 1.0 {
      SharesBeyond(backend, n, u, v, mem, core);
    } else {
      SharesWithin(backend, n, u, v);
    }
  }

  lemma ExceedsOne(total: real, n: real, w: real)
    requires n > 0.0 && Part(total, n) == w
    ensures total > 1.0 <==> w > n
  {
  }

  lemma NormalizedShares(b: real, m: real, k: real, n: real, u: real, v: real, counted: real)
    requires b >= 0.0 && m >= 0.0 && k >= 0.0 && n > 0.0 && u >= 0.0 && v >= 0.0
    requires counted == Min(n, u + v)
    requires Part(m, v) == Part(k, u) && Part(m + k, n) == Part(b, counted)
    ensures var (memory, core) := Normalize(b, m, k);
            && Part(memory, v) == Part(core, u)
            && (u + v == 0.0 ==> memory == 0.0)
            && if Part(b, n - counted) > 0.001 * n then memory + core == b
               else Part(memory + core, n) == Part(b, counted)
  {
    GapIs(b, m + k, n, counted);
    PartOfNothing(b, 0.0);
    NormalForm(b, m, k);
    hide Ratio, Part, Normalize;
    if Abs(m + k - b) > 0.001 {
      if m + k > 0.0 {
        PartsAddUp(b, m, k);
        CrossScaled(b, m, k, u, v);
        CrossOver(Part(b, m), Part(b, k), m + k, u, v);
      } else {
        PartOfNothing(0.0, v);
      }
    }
  }

  lemma NormalForm(b: real, m: real, k: real)
    ensures Normalize(b, m, k) ==
      if Abs(m + k - b) > 0.001 then
        if m + k > 0.0 then (Ratio(Part(b, m), m + k), Ratio(Part(b, k), m + k)) else (0.0, b)
      else (m, k)
  {
    hide Ratio;
  }

  lemma PartOfNothing(x: real, y: real)
    ensures y == 0.0 || x == 0.0 ==> Part(x, y) == 0.0
  {
  }

  lemma GapIs(b: real, w: real, n: real, counted: real)
    requires b >= 0.0 && n > 0.0 && 0.0 <= counted <= n && w >= 0.0 && Part(w, n) == Part(b, counted)
    ensures w <= b
    ensures b - w > 0.001 <==> Part(b, n - counted) > 0.001 * n
    ensures w == 0.0 && b > 0.0 ==> counted == 0.0
    ensures counted == 0.0 ==> w == 0.0
  {
    var gap, rest := b - w, n - counted;
    assert gap * n == b * rest;
    ComparesLike(gap, n, b * rest, 0.001);
    ComparesLike(-gap, n, -(b * rest), 0.0);
    assert b * rest >= 0.0;
    ZeroProduct(b, counted);
    ZeroProduct(n, w);
  }

  lemma ComparesLike(x: real, n: real, y: real, z: real)
    requires n > 0.0 && x * n == y
    ensures x > z <==> y > z * n
  {
  }

  lemma ZeroProduct(x: real, y: real)
    ensures x > 0.0 && x * y == 0.0 ==> y == 0.0
    ensures y == 0.0 ==> x * y == 0.0
  {
  }

  lemma StallsAre(c: Counters)
    ensures MemStalls(c) == 2.0 * c.l1Refill + 6.0 * c.l2Refill + 50.0 * c.llMissRd
  {
  }

  lemma PartIs(x: real, y: real)
    ensures Part(x, y) == x * y
  {
  }

  lemma BackendOf(c: Counters)
    requires Plausible(c)
    ensures Analyse(c).Done? && Plausible(Clamped(c))
    ensures var d, m := Clamped(c), Analyse(c).m;
            && m.backend >= 0.0 && (d.stallBackend <= 0.0 ==> m.backend == 0.0)
            && (m.memory, m.core) == BackendSplit(d, m.backend, MemStalls(c))
  {
  }

  lemma EqualParts(x: real, y: real, n: real)
    requires n > 0.0
    ensures Part(x, n) == Part(y, n) <==> x == y
  {
    if Part(x, n) == Part(y, n) {
      CancelFactor(x, y, n);
    }
  }

  lemma MixSplitParts(c: Counters)
    requires Plausible(c) && c.instSpec > 0.0
    ensures Analyse(c).Done?
    ensures var m, mem := Analyse(c).m, c.ldSpec + c.stSpec;
            && (c.stallBackend <= 0.0 ==> m.memory == 0.0 && m.core == m.backend)
            && Part(m.memory, c.dpSpec) == Part(m.core, mem)
            && (mem + c.dpSpec == 0.0 ==> m.memory == 0.0)
            && if mem + c.dpSpec >= c.instSpec || Part(m.backend, c.instSpec - (mem + c.dpSpec)) > 0.001 * c.instSpec
               then m.memory + m.core == m.backend
               else Part(m.memory + m.core, c.instSpec) == Part(m.backend, mem + c.dpSpec)
  {
    var d := Clamped(c);
    BackendOf(c);
    hide Analyse, Part, Ratio, MemStalls;
    var m := Analyse(c).m;
    EqualParts(m.memory + m.core, m.backend, c.instSpec);
    if d.stallBackend > 0.0 {
      MixSplitShares(d, m.backend);
      MixSplitIsNonNegative(d, m.backend);
      hide MixSplit, Normalize;
      var (x, y) := MixSplit(d, m.backend);
      NormalizedShares(m.backend, x, y, c.instSpec, c.ldSpec + c.stSpec, c.dpSpec, Counted(c));
    } else {
      PartOfNothing(0.0, c.dpSpec);
      PartOfNothing(0.0, c.ldSpec + c.stSpec);
      PartOfNothing(0.0, c.instSpec);
      PartOfNothing(0.0, c.ldSpec + c.stSpec + c.dpSpec);
      PartOfNothing(0.0, c.instSpec - (c.ldSpec + c.stSpec + c.dpSpec));
    }
  }

  /** The split by the instruction mix: memory to core like loads and stores to data processing.
      Both make up the backend bound, or the counted share of it where that is close enough. */
  lemma MixSplitFromCounters(c: Counters)
    requires Plausible(c) && c.instSpec > 0.0
    ensures Analyse(c).Done?
    ensures var m, mem := Analyse(c).m, c.ldSpec + c.stSpec;
            && (c.stallBackend <= 0.0 ==> m.memory == 0.0 && m.core == m.backend)
            && m.memory * c.dpSpec == m.core * mem
            && (mem + c.dpSpec == 0.0 ==> m.memory == 0.0)
            && if mem + c.dpSpec >= c.instSpec || m.backend * (c.instSpec - (mem + c.dpSpec)) > 0.001 * c.instSpec
               then m.memory + m.core == m.backend
               else (m.memory + m.core) * c.instSpec == m.backend * (mem + c.dpSpec)
  {
    hide *;
    MixSplitParts(c);
    var m, mem := Analyse(c).m, c.ldSpec + c.stSpec;
    PartIs(m.memory, c.dpSpec);
    PartIs(m.core, mem);
    PartIs(m.backend, c.instSpec - (mem + c.dpSpec));
    PartIs(m.memory + m.core, c.instSpec);
    PartIs(m.backend, mem + c.dpSpec);
  }

  lemma LatencyParts(c: Counters, b: real, stalls: real)
    requires c.stallBackend > 0.0
    ensures var (memory, core) := LatencySplit(c, b, stalls);
            && (stalls >= c.stallBackend ==> memory == b)
            && (stalls < c.stallBackend ==> Part(memory, c.stallBackend) == Part(b, stalls))
            && core == b - memory
  {
    RatioPart(stalls, c.stallBackend);
    AtLeastOne(Ratio(stalls, c.stallBackend), c.stallBackend, stalls);
    PartsCompose(b, Ratio(stalls, c.stallBackend), c.stallBackend);
    hide Ratio, Part;
  }

  lemma AtLeastOne(ratio: real, n: real, w: real)
    requires n > 0.0 && Part(ratio, n) == w
    ensures ratio >= 1.0 <==> w >= n
  {
  }

  lemma PartsCompose(b: real, x: real, y: real)
    ensures Part(Part(b, x), y) == Part(b, Part(x, y))
  {
    assert (b * x) * y == b * (x * y);
  }

  lemma LatencySplitParts(c: Counters)
    requires Plausible(c) && c.instSpec == 0.0
    ensures Analyse(c).Done?
    ensures var m := Analyse(c).m;
            && (c.stallBackend <= 0.0 ==> m.memory == 0.0)
            && (c.stallBackend > 0.0 && MemStalls(c) >= c.stallBackend ==> m.memory == m.backend)
            && (c.stallBackend > 0.0 && MemStalls(c) < c.stallBackend ==>
                  Part(m.memory, c.stallBackend) == Part(m.backend, MemStalls(c)))
            && m.core == m.backend - m.memory
  {
    var d := Clamped(c);
    BackendOf(c);
    hide Analyse, Part, Ratio, MemStalls;
    if d.stallBackend > 0.0 {
      LatencyParts(d, Analyse(c).m.backend, MemStalls(c));
      hide LatencySplit;
    }
  }

  /** The split without an instruction mix: the share of the modelled memory stalls, at most all. */
  lemma LatencySplitFromCounters(c: Counters)
    requires Plausible(c) && c.instSpec == 0.0
    ensures Analyse(c).Done?
    ensures var m, stalls := Analyse(c).m, 2.0 * c.l1Refill + 6.0 * c.l2Refill + 50.0 * c.llMissRd;
            && (c.stallBackend <= 0.0 ==> m.memory == 0.0)
            && (c.stallBackend > 0.0 && stalls >= c.stallBackend ==> m.memory == m.backend)
            && (c.stallBackend > 0.0 && stalls < c.stallBackend ==>
                  m.memory * c.stallBackend == m.backend * stalls)
            && m.core == m.backend - m.memory
  {
    hide *;
    LatencySplitParts(c);
    StallsAre(c);
    var m := Analyse(c).m;
    PartIs(m.memory, c.stallBackend);
    PartIs(m.backend, MemStalls(c));
  }

  lemma LevelParts(c: Counters, memory: real, stalls: real)
    ensures var (l1, l2, ext) := MemorySplit(c, memory, stalls);
            && (if stalls > 0.0 && memory > 0.0 then
                  && (if c.l1Refill > 0.0 then Part(l1, stalls) == Part(memory, 2.0 * c.l1Refill) else l1 == 0.0)
                  && (if c.l2Refill > 0.0 then Part(l2, stalls) == Part(memory, 6.0 * c.l2Refill) else l2 == 0.0)
                else l1 == l2 == 0.0)
            && ext == Max(0.0, memory - (l1 + l2))
  {
    hide Ratio, Part;
    if stalls > 0.0 {
      var x, y := Max(0.0, 2.0 * c.l1Refill), Max(0.0, 6.0 * c.l2Refill);
      RatioPart(x, stalls);
      RatioPart(y, stalls);
      PartsCompose(memory, Ratio(x, stalls), stalls);
      PartsCompose(memory, Ratio(y, stalls), stalls);
      NoShare(memory, stalls);
    }
  }

  lemma NoShare(whole: real, n: real)
    requires n > 0.0
    ensures Part(whole, Ratio(0.0, n)) == 0.0
  {
  }

  lemma LevelsOf(c: Counters)
    requires Analyse(c).Done?
    ensures var m := Analyse(c).m;
            (m.l1, m.l2, m.extMem) == MemorySplit(Clamped(c), m.memory, Max(0.0, MemStalls(c)))
  {
    hide MemorySplit, BackendSplit;
  }

  lemma LevelsFromParts(c: Counters)
    requires Analyse(c).Done?
    ensures var m, stalls := Analyse(c).m, MemStalls(c);
            && (if stalls > 0.0 && m.memory > 0.0 then
                  && (if c.l1Refill > 0.0 then Part(m.l1, stalls) == Part(m.memory, 2.0 * c.l1Refill) else m.l1 == 0.0)
                  && (if c.l2Refill > 0.0 then Part(m.l2, stalls) == Part(m.memory, 6.0 * c.l2Refill) else m.l2 == 0.0)
                else m.l1 == m.l2 == 0.0)
            && m.extMem == if m.memory > m.l1 + m.l2 then m.memory - (m.l1 + m.l2) else 0.0
  {
    hide Analyse, Part, MemorySplit, MemStalls;
    LevelsOf(c);
    LevelParts(Clamped(c), Analyse(c).m.memory, Max(0.0, MemStalls(c)));
  }

  /** The memory levels, for counters of any sign: each of the first two has the share of its stalls
      (2 and 6 cycles a refill) in all modelled ones, the rest is external. */
  lemma MemoryLevelsFromCounters(c: Counters)
    requires Analyse(c).Done?
    ensures var m, stalls := Analyse(c).m, 2.0 * c.l1Refill + 6.0 * c.l2Refill + 50.0 * c.llMissRd;
            && (if stalls > 0.0 && m.memory > 0.0 then
                  && (if c.l1Refill > 0.0 then m.l1 * stalls == m.memory * (2.0 * c.l1Refill) else m.l1 == 0.0)
                  && (if c.l2Refill > 0.0 then m.l2 * stalls == m.memory * (6.0 * c.l2Refill) else m.l2 == 0.0)
                else m.l1 == m.l2 == 0.0)
            && m.extMem == if m.memory > m.l1 + m.l2 then m.memory - (m.l1 + m.l2) else 0.0
  {
    hide *;
    LevelsFromParts(c);
    StallsAre(c);
    var m := Analyse(c).m;
    PartIs(m.l1, MemStalls(c));
    PartIs(m.l2, MemStalls(c));
    PartIs(m.memory, 2.0 * c.l1Refill);
    PartIs(m.memory, 6.0 * c.l2Refill);
  }

  /** What the three top-level fractions add up to, from the counters. */
  function TopSum(c: Counters): real
    requires c.cycles > 0.0 && SpecTotal(c) > 0.0
  {
    Ratio(c.instSpec, SpecTotal(c)) + Ratio(Max(0.0, c.stallFrontend) + Max(0.0, c.stallBackend), c.cycles)
  }

  lemma TopLevelIsTopSum(c: Counters)
    requires Plausible(c)
    ensures Analyse(c).Done?
    ensures var m := Analyse(c).m; m.retiring + m.frontend + m.backend == TopSum(c)
  {
    hide BackendSplit, MemorySplit, MemStalls;
    var d := Clamped(c);
    assert d.stallFrontend == Max(0.0, c.stallFrontend) && d.stallBackend == Max(0.0, c.stallBackend);
    assert SpecTotal(d) == SpecTotal(c);
    RatiosAddUp(d.stallFrontend, d.stallBackend, c.cycles);
    assert d.instSpec / SpecTotal(d) == Ratio(d.instSpec, SpecTotal(d));
    hide Ratio, SpecTotal, Clamped;
  }

  /** So each checker accepts exactly when the counters put the three top-level fractions at no
      more than one plus its tolerance, and what the stricter one accepts the other accepts too. */
  lemma CheckersAcceptIff(c: Counters)
    requires Plausible(c)
    ensures Analyse(c).Done?
    ensures var m := Analyse(c).m;
            && (SumsAgree(m, 0.01) && NoneNegative(m) <==> TopSum(c) <= 1.01)
            && (SumsAgree(m, 0.001) && NoneNegative(m) && RangesAgree(m) <==> TopSum(c) <= 1.001)
            && (SumsAgree(m, 0.001) && NoneNegative(m) && RangesAgree(m) ==> SumsAgree(m, 0.01) && NoneNegative(m))
  {
    BoundsAreConsistent(c);
    TopLevelIsTopSum(c);
    hide Analyse, Plausible, TopSum;
    var m := Analyse(c).m;
    assert List(m)[0] == m.retiring && List(m)[4] == m.memory && List(m)[5] == m.core;
  }

  /** n cycles, all stalled at both ends, for one speculative instruction. */
  function Overlap(n: real): Counters {
    Counters(n, 1.0, n, n, 0.0, 0.0, 0.0, 1.0, 0.0, 0.0, 0.0, 0.0, 0.0, 0.0, 0.0, 0.0)
  }

  lemma OverlapSum(n: real)
    requires n > 0.0
    ensures Plausible(Overlap(n)) && TopSum(Overlap(n)) == 3.0
  {
    hide Ratio;
    assert SpecTotal(Overlap(n)) == 1.0;
    RatioOfWhole(1.0, 1.0, 1.0);
    RatioOfWhole(n + n, 2.0, n);
  }

  /** Their stalls overlap, so both checkers refuse them. */
  lemma AnalysisCanBeRejected(n: real)
    requires n > 0.0
    ensures Plausible(Overlap(n)) && Analyse(Overlap(n)).Done?
    ensures !(SumsAgree(Analyse(Overlap(n)).m, 0.01) && NoneNegative(Analyse(Overlap(n)).m))
    ensures !(SumsAgree(Analyse(Overlap(n)).m, 0.001) && NoneNegative(Analyse(Overlap(n)).m) &&
              RangesAgree(Analyse(Overlap(n)).m))
  {
    hide Analyse, Plausible, TopSum, SumsAgree, NoneNegative, RangesAgree, Overlap;
    OverlapSum(n);
    CheckersAcceptIff(Overlap(n));
  }
}
