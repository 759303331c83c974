/** Sweeps over the Lattice-Boltzmann grid in the push and in the pull form.

    The loop body of a sweep reads the 19 SRC values of its cell, computes 19 results from them
    (`body`, any function of the cell index and the values) and assigns the 19 DST entries.
    Grids are sequences in which address a is found at position margin + a, because neighbours
    of border cells have addresses outside the grid proper. */
module Streaming {
  import opened Arithmetic
  import opened Lattice

  type Values = v: seq<real> | |v| == NUM_DIRS witness seq(NUM_DIRS, _ => 0.0)

  type Body = (int, Values) -> Values

  /** All addresses that the sweep uses at cell c lie in memory. */
  ghost predicate InMemory(l: Layout, form: Form, margin: int, size: nat, c: int)
    requires l.Valid()
  {
    forall d: Dir :: 0 <= margin + ReadAt(l, form, c, d) < size && 0 <= margin + WriteAt(l, form, c, d) < size
  }

  lemma InMemoryIff(l: Layout, form: Form, margin: int, size: nat, c: int)
    requires l.Valid()
    ensures InMemory(l, form, margin, size, c) <==>
              && (forall d: Dir :: 0 <= margin + ReadAt(l, form, c, d) < size)
              && (forall d: Dir :: 0 <= margin + WriteAt(l, form, c, d) < size)
  {
  }

  /** The SRC values of cell c. */
  ghost function Gather(l: Layout, form: Form, src: seq<real>, margin: int, c: int): Values
    requires l.Valid() && InMemory(l, form, margin, |src|, c)
  {
    seq(NUM_DIRS, d requires 0 <= d < NUM_DIRS => src[margin + ReadAt(l, form, c, d)])
  }

  /** What the sweep assigns at cell c. */
  ghost function Result(l: Layout, form: Form, body: Body, src: seq<real>, margin: int, c: int): Values
    requires l.Valid() && InMemory(l, form, margin, |src|, c)
  {
    body(l.n * c, Gather(l, form, src, margin, c))
  }

  ghost predicate IsTarget(l: Layout, form: Form, margin: int, cells: set<int>, at: int)
    requires l.Valid()
  {
    exists c, d: Dir :: c in cells && at == margin + WriteAt(l, form, c, d)
  }

  /** `after` is the grid `dst` after a sweep over the cells: every DST entry holds the result
      of its cell, every other entry is as before. */
  ghost predicate Swept(l: Layout, form: Form, body: Body, src: seq<real>, dst: seq<real>, after: seq<real>,
                        margin: int, cells: set<int>)
    requires l.Valid() && |src| == |dst| && forall c :: c in cells ==> InMemory(l, form, margin, |src|, c)
  {
    && |after| == |dst|
    && (forall c, d: Dir :: c in cells ==>
          var at := margin + WriteAt(l, form, c, d);
          0 <= at < |after| && after[at] == Result(l, form, body, src, margin, c)[d])
    && (forall at :: 0 <= at < |dst| && !IsTarget(l, form, margin, cells, at) ==> after[at] == dst[at])
  }

  /** The same without any of the names above. */
  lemma SweptIff(l: Layout, form: Form, body: Body, src: seq<real>, dst: seq<real>, after: seq<real>,
                 margin: int, cells: set<int>)
    requires l.Valid() && |src| == |dst| && forall c :: c in cells ==> InMemory(l, form, margin, |src|, c)
    ensures Swept(l, form, body, src, dst, after, margin, cells) <==>
              && |after| == |dst|
              && (forall c, d: Dir :: c in cells ==>
                    0 <= margin + WriteAt(l, form, c, d) < |after| &&
                    after[margin + WriteAt(l, form, c, d)] ==
                      body(l.n * c, seq(19, e requires 0 <= e < 19 => src[margin + ReadAt(l, form, c, e)]))[d])
              && (forall at :: 0 <= at < |dst| && after[at] != dst[at] ==>
                    exists c, d: Dir :: c in cells && at == margin + WriteAt(l, form, c, d))
  {
    hide WriteAt, ReadAt, Layout.Valid;
  }

  /** A sweep has one result, so the order of the cells is irrelevant. */
  lemma SweptIsUnique(l: Layout, form: Form, body: Body, src: seq<real>, dst: seq<real>, a: seq<real>, b: seq<real>,
                      margin: int, cells: set<int>)
    requires l.Valid() && |src| == |dst| && forall c :: c in cells ==> InMemory(l, form, margin, |src|, c)
    requires Swept(l, form, body, src, dst, a, margin, cells) && Swept(l, form, body, src, dst, b, margin, cells)
    ensures a == b
  {
    hide Result, WriteAt, ReadAt, Layout.Valid, InMemory;
    forall at | 0 <= at < |dst| ensures a[at] == b[at] {
      if IsTarget(l, form, margin, cells, at) {
        var c, d: Dir :| c in cells && at == margin + WriteAt(l, form, c, d);
      }
    }
  }

  // ----- One sweep, cell by cell in any order -----

  /** The first k DST assignments of one cell. */
  ghost function Scatter(l: Layout, form: Form, dst: seq<real>, margin: int, c: int, out: Values, k: nat):
      (r: seq<real>)
    requires l.Valid() && InMemory(l, form, margin, |dst|, c) && k <= NUM_DIRS
    ensures |r| == |dst|
  {
    if k == 0 then dst
    else Scatter(l, form, dst, margin, c, out, k - 1)[margin + WriteAt(l, form, c, k - 1) := out[k - 1]]
  }

  lemma {:induction false} ScatterWrites(l: Layout, form: Form, dst: seq<real>, margin: int, c: int, out: Values,
                                         k: nat, d: Dir)
    requires l.Valid() && InMemory(l, form, margin, |dst|, c) && d < k <= NUM_DIRS
    ensures Scatter(l, form, dst, margin, c, out, k)[margin + WriteAt(l, form, c, d)] == out[d]
  {
    hide WriteAt, ReadAt, Layout.Valid;
    if d < k - 1 {
      ScatterWrites(l, form, dst, margin, c, out, k - 1, d);
      if WriteAt(l, form, c, d) == WriteAt(l, form, c, k - 1) {
        WritesAreDisjoint(l, form, c, d, c, k - 1);
      }
    }
  }

  lemma {:induction false} ScatterKeeps(l: Layout, form: Form, dst: seq<real>, margin: int, c: int, out: Values,
                                        k: nat, at: int)
    requires l.Valid() && InMemory(l, form, margin, |dst|, c) && k <= NUM_DIRS
    requires 0 <= at < |dst| && !IsTarget(l, form, margin, {c}, at)
    ensures Scatter(l, form, dst, margin, c, out, k)[at] == dst[at]
  {
    hide WriteAt, ReadAt, Layout.Valid;
    if k > 0 {
      ScatterKeeps(l, form, dst, margin, c, out, k - 1, at);
      assert c in {c} && at != margin + WriteAt(l, form, c, k - 1);
    }
  }

  /** One cell's assignments, all together. */
  lemma ScatterAt(l: Layout, form: Form, dst: seq<real>, margin: int, c: int, out: Values)
    requires l.Valid() && InMemory(l, form, margin, |dst|, c)
    ensures forall d: Dir ::
              Scatter(l, form, dst, margin, c, out, NUM_DIRS)[margin + WriteAt(l, form, c, d)] == out[d]
    ensures forall at :: 0 <= at < |dst| && !IsTarget(l, form, margin, {c}, at) ==>
              Scatter(l, form, dst, margin, c, out, NUM_DIRS)[at] == dst[at]
  {
    hide WriteAt, ReadAt, Layout.Valid, Scatter, IsTarget;
    forall d: Dir
      ensures Scatter(l, form, dst, margin, c, out, NUM_DIRS)[margin + WriteAt(l, form, c, d)] == out[d]
    {
      ScatterWrites(l, form, dst, margin, c, out, NUM_DIRS, d);
    }
    forall at | 0 <= at < |dst| && !IsTarget(l, form, margin, {c}, at)
      ensures Scatter(l, form, dst, margin, c, out, NUM_DIRS)[at] == dst[at]
    {
      ScatterKeeps(l, form, dst, margin, c, out, NUM_DIRS, at);
    }
  }

  /** The sweep over a list of cells. */
  ghost function SweepList(l: Layout, form: Form, body: Body, src: seq<real>, dst: seq<real>, margin: int,
                           order: seq<int>): (r: seq<real>)
    requires l.Valid() && |src| == |dst| && forall c :: c in order ==> InMemory(l, form, margin, |src|, c)
    ensures |r| == |dst|
  {
    if order == [] then dst
    else
      var r := SweepList(l, form, body, src, dst, margin, order[..|order| - 1]);
      var c := order[|order| - 1];
      assert c in order;
      Scatter(l, form, r, margin, c, Result(l, form, body, src, margin, c), NUM_DIRS)
  }

  lemma OtherCellsTargets(l: Layout, form: Form, margin: int, e: int, d: Dir, c: int)
    requires l.Valid() && e != c
    ensures !IsTarget(l, form, margin, {c}, margin + WriteAt(l, form, e, d))
  {
    hide WriteAt;
    forall d': Dir ensures WriteAt(l, form, e, d) != WriteAt(l, form, c, d') {
      if WriteAt(l, form, e, d) == WriteAt(l, form, c, d') {
        WritesAreDisjoint(l, form, e, d, c, d');
      }
    }
  }

  lemma MoreTargets(l: Layout, form: Form, margin: int, cells: set<int>, c: int, at: int)
    requires l.Valid()
    ensures IsTarget(l, form, margin, cells + {c}, at) <==>
              IsTarget(l, form, margin, cells, at) || IsTarget(l, form, margin, {c}, at)
  {
  }

  /** One more cell. */
  lemma CellKeepsSwept(l: Layout, form: Form, body: Body, src: seq<real>, dst: seq<real>, r: seq<real>, margin: int,
                       cells: set<int>, c: int)
    requires l.Valid() && |src| == |dst| && forall e :: e in cells + {c} ==> InMemory(l, form, margin, |src|, e)
    requires Swept(l, form, body, src, dst, r, margin, cells)
    ensures Swept(l, form, body, src, dst,
                  Scatter(l, form, r, margin, c, Result(l, form, body, src, margin, c), NUM_DIRS), margin, cells + {c})
  {
    hide Result, WriteAt, ReadAt, Scatter, IsTarget, Layout.Valid;
    var out := Result(l, form, body, src, margin, c);
    var t := Scatter(l, form, r, margin, c, out, NUM_DIRS);
    ScatterAt(l, form, r, margin, c, out);
    forall e, d: Dir | e in cells + {c}
      ensures var at := margin + WriteAt(l, form, e, d);
              0 <= at < |t| && t[at] == Result(l, form, body, src, margin, e)[d]
    {
      assert InMemory(l, form, margin, |src|, e);
      if e != c {
        OtherCellsTargets(l, form, margin, e, d, c);
      }
    }
    forall at | 0 <= at < |dst| && !IsTarget(l, form, margin, cells + {c}, at) ensures t[at] == dst[at] {
      MoreTargets(l, form, margin, cells, c, at);
    }
  }

  ghost function Members(order: seq<int>): set<int> {
    set c | c in order
  }

  lemma MembersGrow(order: seq<int>, c: int)
    ensures Members(order + [c]) == Members(order) + {c}
  {
  }

  lemma SameMembers(order: seq<int>, order': seq<int>)
    requires forall c :: c in order <==> c in order'
    ensures Members(order) == Members(order')
  {
    assert forall c :: c in Members(order) <==> c in Members(order');
  }

  lemma {:induction false} SweepListIsSwept(l: Layout, form: Form, body: Body, src: seq<real>, dst: seq<real>,
                                            margin: int, order: seq<int>)
    requires l.Valid() && |src| == |dst| && forall c :: c in order ==> InMemory(l, form, margin, |src|, c)
    ensures Swept(l, form, body, src, dst, SweepList(l, form, body, src, dst, margin, order), margin, Members(order))
  {
    if order != [] {
      var init, c := order[..|order| - 1], order[|order| - 1];
      hide Swept, WriteAt, ReadAt, Scatter, Layout.Valid, Result, InMemory, Members;
      SweepListIsSwept(l, form, body, src, dst, margin, init);
      MembersGrow(init, c);
      assert order == init + [c];
      var swept := SweepList(l, form, body, src, dst, margin, init);
      CellKeepsSwept(l, form, body, src, dst, swept, margin, Members(init), c);
    }
  }

  /** Whatever the order in which the same cells are swept, the grid ends up the same. */
  lemma SweepOrderIsIrrelevant(l: Layout, form: Form, body: Body, src: seq<real>, dst: seq<real>, margin: int,
                               order: seq<int>, order': seq<int>)
    requires l.Valid() && |src| == |dst| && forall c :: c in order ==> InMemory(l, form, margin, |src|, c)
    requires forall c :: c in order <==> c in order'
    ensures SweepList(l, form, body, src, dst, margin, order) == SweepList(l, form, body, src, dst, margin, order')
  {
    var cells := Members(order);
    assert cells == Members(order') by { SameMembers(order, order'); }
    SweepListIsSwept(l, form, body, src, dst, margin, order);
    SweepListIsSwept(l, form, body, src, dst, margin, order');
    SweptIsUnique(l, form, body, src, dst, SweepList(l, form, body, src, dst, margin, order),
                  SweepList(l, form, body, src, dst, margin, order'), margin, cells);
  }

  // ----- The sweep loop -----

  /** The cells SWEEP_START(x1, y1, z1, x2, y2, z2) visits. */
  ghost function CellRange(lo: int, hi: int): (cells: set<int>)
    ensures forall c :: c in cells <==> lo <= c < hi
    decreases hi - lo
  {
    if lo < hi then CellRange(lo, hi - 1) + {hi - 1} else {}
  }

  /** SWEEP_START: the index advances by N_CELL_ENTRIES until it reaches the end cell's. */
  method Sweep(l: Layout, form: Form, body: Body, src: array<real>, dst: array<real>, margin: int,
               x1: int, y1: int, z1: int, x2: int, y2: int, z2: int)
    requires l.Valid() && src != dst && src.Length == dst.Length
    requires forall c :: l.CellOf(x1, y1, z1) <= c < l.CellOf(x2, y2, z2) ==> InMemory(l, form, margin, src.Length, c)
    modifies dst
    ensures var cells := CellRange(l.CellOf(x1, y1, z1), l.CellOf(x2, y2, z2));
            Swept(l, form, body, src[..], old(dst[..]), dst[..], margin, cells)
  {
    hide Layout.Valid, Layout.CellOf, Swept, ReadAt, WriteAt;
    ghost var lo, hi := l.CellOf(x1, y1, z1), l.CellOf(x2, y2, z2);
    ghost var before, input := dst[..], src[..];
    var i, end := l.CalcIndex(x1, y1, z1, 0), l.CalcIndex(x2, y2, z2, 0);
    ghost var c := lo;
    NothingSwept(l, form, body, input, before, margin);
    assert l.n > 0 by { EntriesExist(l); }
    CellOrder(l.n, lo, hi);
    while i < end
      invariant i == l.n * c && lo <= c
      invariant c <= hi || c == lo
      invariant src[..] == input
      invariant Swept(l, form, body, input, before, dst[..], margin, CellRange(lo, c))
      decreases hi - c
    {
      CellOrder(l.n, c, hi);
      assert InMemory(l, form, margin, src.Length, c);
      ghost var current := dst[..];
      var values := ReadSources(l, form, src, margin, i, c);
      var out := body(i, values);
      assert out == Result(l, form, body, input, margin, c);
      WriteTargets(l, form, dst, margin, i, c, out);
      CellKeepsSwept(l, form, body, input, before, current, margin, CellRange(lo, c), c);
      assert CellRange(lo, c) + {c} == CellRange(lo, c + 1);
      Distribute(l.n, c, 1);
      i, c := i + l.n, c + 1;
    }
    CellOrder(l.n, c, hi);
    assert CellRange(lo, c) == CellRange(lo, hi);
  }

  lemma EntriesExist(l: Layout)
    requires l.Valid()
    ensures l.n > 0
  {
    var d: Dir := 0;
    assert l.entry[d] < l.n;
  }

  lemma CellOrder(n: nat, a: int, b: int)
    requires n > 0
    ensures n * a < n * b <==> a < b
  {
  }

  lemma NothingSwept(l: Layout, form: Form, body: Body, src: seq<real>, dst: seq<real>, margin: int)
    requires l.Valid() && |src| == |dst|
    ensures forall lo :: CellRange(lo, lo) == {}
    ensures Swept(l, form, body, src, dst, dst, margin, {})
  {
  }

  /** The 19 SRC macros at index i. */
  method ReadSources(l: Layout, form: Form, src: array<real>, margin: int, i: int, ghost c: int)
    returns (values: Values)
    requires l.Valid() && i == l.n * c && InMemory(l, form, margin, src.Length, c)
    ensures values == Gather(l, form, src[..], margin, c)
    ensures forall d: Dir :: values[d] == src[margin + ReadAt(l, form, c, d)]
  {
    hide Layout.Valid, Dx, Dy, Dz, Upstream, WriteAt;
    values := seq(NUM_DIRS, _ => 0.0);
    for d := 0 to NUM_DIRS
      invariant |values| == NUM_DIRS
      invariant forall e :: 0 <= e < d ==> values[e] == src[margin + ReadAt(l, form, c, e)]
    {
      AddressesAreMacros(l, c, d);
      var u := Upstream(d);
      var e := EntryOf(l, d);
      var at := if form.Push? then l.CalcIndex(0, 0, 0, e) + i else l.CalcIndex(Dx(u), Dy(u), Dz(u), e) + i;
      assert at == ReadAt(l, form, c, d);
      values := values[d := src[margin + at]];
    }
  }

  function EntryOf(l: Layout, d: Dir): nat
    requires l.Valid()
  {
    l.entry[d]
  }

  /** The 19 DST macros at index i. */
  method WriteTargets(l: Layout, form: Form, dst: array<real>, margin: int, i: int, ghost c: int, out: Values)
    requires l.Valid() && i == l.n * c && InMemory(l, form, margin, dst.Length, c)
    modifies dst
    ensures dst[..] == Scatter(l, form, old(dst[..]), margin, c, out, NUM_DIRS)
    ensures forall d: Dir :: dst[margin + WriteAt(l, form, c, d)] == out[d]
    ensures forall at :: 0 <= at < dst.Length && dst[at] != old(dst[at]) ==>
              exists d: Dir :: at == margin + WriteAt(l, form, c, d)
  {
    hide Layout.Valid, Dx, Dy, Dz, Upstream, ReadAt;
    ghost var before := dst[..];
    for d := 0 to NUM_DIRS
      invariant dst[..] == Scatter(l, form, before, margin, c, out, d)
    {
      AddressesAreMacros(l, c, d);
      var e := EntryOf(l, d);
      var at := if form.Push? then l.CalcIndex(Dx(d), Dy(d), Dz(d), e) + i else l.CalcIndex(0, 0, 0, e) + i;
      assert at == WriteAt(l, form, c, d);
      dst[margin + at] := out[d];
    }
    ScatterAt(l, form, before, margin, c, out);
  }

  // ----- Push and pull compute the same -----

  /** The push grid p and the pull grid q deliver the same SRC values at every cell. */
  ghost predicate Related(l: Layout, p: seq<real>, q: seq<real>, margin: int)
    requires l.Valid()
  {
    forall c, d: Dir ::
      0 <= margin + ReadAt(l, Push, c, d) < |p| && 0 <= margin + ReadAt(l, Pull, c, d) < |q| ==>
        p[margin + ReadAt(l, Push, c, d)] == q[margin + ReadAt(l, Pull, c, d)]
  }

  /** Grids that hold one value per direction everywhere, as after initialisation. */
  ghost predicate Uniform(l: Layout, g: seq<real>, margin: int, v: Values)
    requires l.Valid()
  {
    forall c, d: Dir :: var at := margin + ReadAt(l, Push, c, d); 0 <= at < |g| ==> g[at] == v[d]
  }

  lemma UniformGridsAreRelated(l: Layout, p: seq<real>, q: seq<real>, margin: int, v: Values)
    requires l.Valid() && Uniform(l, p, margin, v) && Uniform(l, q, margin, v)
    ensures Related(l, p, q, margin)
  {
    forall c, d: Dir | 0 <= margin + ReadAt(l, Push, c, d) < |p| && 0 <= margin + ReadAt(l, Pull, c, d) < |q|
      ensures p[margin + ReadAt(l, Push, c, d)] == q[margin + ReadAt(l, Pull, c, d)]
    {
      assert ReadAt(l, Pull, c, d) == ReadAt(l, Push, c + l.Shift(Upstream(d)), d);
    }
  }

  /** The push grid is written exactly where the pull grid is, one step upstream. */
  lemma TargetsCorrespond(l: Layout, c: int, d: Dir)
    requires l.Valid()
    ensures ReadAt(l, Push, c, d) == WriteAt(l, Push, c + l.Shift(Upstream(d)), d)
    ensures ReadAt(l, Pull, c, d) == WriteAt(l, Pull, c + l.Shift(Upstream(d)), d)
  {
    UpstreamIsOpposite(l, d);
  }

  lemma TargetOf(l: Layout, form: Form, margin: int, cells: set<int>, c: int, d: Dir)
    requires l.Valid()
    ensures IsTarget(l, form, margin, cells, margin + WriteAt(l, form, c, d)) <==> c in cells
  {
    hide WriteAt, Layout.Valid;
    if IsTarget(l, form, margin, cells, margin + WriteAt(l, form, c, d)) {
      var c', d': Dir :| c' in cells && margin + WriteAt(l, form, c, d) == margin + WriteAt(l, form, c', d');
      WritesAreDisjoint(l, form, c, d, c', d');
    }
  }

  lemma SameInputs(l: Layout, p: seq<real>, q: seq<real>, margin: int, c: int)
    requires l.Valid() && Related(l, p, q, margin)
    requires InMemory(l, Push, margin, |p|, c) && InMemory(l, Pull, margin, |q|, c)
    ensures Gather(l, Push, p, margin, c) == Gather(l, Pull, q, margin, c)
  {
    hide ReadAt, WriteAt, Layout.Valid;
  }

  /** Push then local read is local write then pull: one sweep in each form keeps two related
      pairs of grids related, whatever the loop body computes. */
  lemma SweepKeepsRelated(l: Layout, body: Body, p: seq<real>, pd: seq<real>, pd': seq<real>,
                          q: seq<real>, qd: seq<real>, qd': seq<real>, margin: int, cells: set<int>)
    requires l.Valid() && |p| == |pd| && |q| == |qd|
    requires forall c :: c in cells ==> InMemory(l, Push, margin, |p|, c) && InMemory(l, Pull, margin, |q|, c)
    requires Related(l, p, q, margin) && Related(l, pd, qd, margin)
    requires Swept(l, Push, body, p, pd, pd', margin, cells) && Swept(l, Pull, body, q, qd, qd', margin, cells)
    ensures Related(l, pd', qd', margin)
  {
    hide ReadAt, WriteAt, Layout.Valid, IsTarget, Gather, Layout.Shift;
    forall c, d: Dir | 0 <= margin + ReadAt(l, Push, c, d) < |pd'| && 0 <= margin + ReadAt(l, Pull, c, d) < |qd'|
      ensures pd'[margin + ReadAt(l, Push, c, d)] == qd'[margin + ReadAt(l, Pull, c, d)]
    {
      var e := c + l.Shift(Upstream(d));
      TargetsCorrespond(l, c, d);
      TargetOf(l, Push, margin, cells, e, d);
      TargetOf(l, Pull, margin, cells, e, d);
      if e in cells {
        assert InMemory(l, Push, margin, |p|, e) && InMemory(l, Pull, margin, |q|, e);
        SameInputs(l, p, q, margin, e);
      }
    }
  }

  /** The two grids of a simulation; every time step sweeps from src to dst and swaps them. */
  datatype Grids = Grids(src: seq<real>, dst: seq<real>)

  ghost predicate TimeStep(l: Layout, form: Form, body: Body, g: Grids, g': Grids, margin: int, cells: set<int>)
    requires l.Valid()
  {
    && |g.src| == |g.dst|
    && (forall c :: c in cells ==> InMemory(l, form, margin, |g.src|, c))
    && g'.dst == g.src
    && Swept(l, form, body, g.src, g.dst, g'.src, margin, cells)
  }

  ghost predicate Simulation(l: Layout, form: Form, bodies: seq<Body>, run: seq<Grids>, margin: int, cells: set<int>)
    requires l.Valid()
  {
    |run| == |bodies| + 1 &&
    forall t :: 0 <= t < |bodies| ==> TimeStep(l, form, bodies[t], run[t], run[t + 1], margin, cells)
  }

  /** Over any number of time steps, a push and a pull simulation that start from related grids
      feed every loop body the same values. */
  lemma {:induction false} SimulationsAgree(l: Layout, bodies: seq<Body>, p: seq<Grids>, q: seq<Grids>,
                                            margin: int, cells: set<int>, t: nat)
    requires l.Valid() && Simulation(l, Push, bodies, p, margin, cells) && Simulation(l, Pull, bodies, q, margin, cells)
    requires Related(l, p[0].src, q[0].src, margin) && Related(l, p[0].dst, q[0].dst, margin)
    requires t < |p|
    ensures Related(l, p[t].src, q[t].src, margin) && Related(l, p[t].dst, q[t].dst, margin)
    ensures t < |bodies| ==> forall c :: c in cells ==>
              InMemory(l, Push, margin, |p[t].src|, c) && InMemory(l, Pull, margin, |q[t].src|, c) &&
              Gather(l, Push, p[t].src, margin, c) == Gather(l, Pull, q[t].src, margin, c)
    decreases t
  {
    hide Layout.Valid, Related, Swept, InMemory, Gather;
    if t > 0 {
      SimulationsAgree(l, bodies, p, q, margin, cells, t - 1);
      assert TimeStep(l, Push, bodies[t - 1], p[t - 1], p[t], margin, cells);
      assert TimeStep(l, Pull, bodies[t - 1], q[t - 1], q[t], margin, cells);
      SweepKeepsRelated(l, bodies[t - 1], p[t - 1].src, p[t - 1].dst, p[t].src,
                        q[t - 1].src, q[t - 1].dst, q[t].src, margin, cells);
    }
    if t < |bodies| {
      assert TimeStep(l, Push, bodies[t], p[t], p[t + 1], margin, cells);
      assert TimeStep(l, Pull, bodies[t], q[t], q[t + 1], margin, cells);
      forall c | c in cells
        ensures InMemory(l, Push, margin, |p[t].src|, c) && InMemory(l, Pull, margin, |q[t].src|, c)
        ensures Gather(l, Push, p[t].src, margin, c) == Gather(l, Pull, q[t].src, margin, c)
      {
        SameInputs(l, p[t].src, q[t].src, margin, c);
      }
    }
  }
}
