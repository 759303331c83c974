/** The index macros and the two streaming forms of the Lattice-Boltzmann header.

    A grid is one flat array that holds `n` entries per cell, one for each of the 19 directions
    and further ones such as the flags.  The enumeration of the entries is not in the
    repository; only its order-free facts are used (`Layout.Valid`). */
module Lattice {
  import opened Arithmetic

  const NUM_DIRS: nat := 19

  /** A direction, numbered in the order in which the header lists its macros:
      C N S E W T B NE NW SE SW NT NB ST SB ET EB WT WB. */
  type Dir = d: nat | d < NUM_DIRS

  /** The neighbour a NEIGHBOR macro names. */
  function Dx(d: Dir): int {
    //C N  S  E   W  T  B  NE  NW SE  SW NT NB ST SB ET EB  WT  WB
    [0, 0, 0, 1, -1, 0, 0, 1, -1, 1, -1, 0, 0, 0, 0, 1, 1, -1, -1][d]
  }

  function Dy(d: Dir): int {
    //C N  S  E  W  T  B  NE NW  SE  SW NT NB  ST  SB ET EB WT WB
    [0, 1, -1, 0, 0, 0, 0, 1, 1, -1, -1, 1, 1, -1, -1, 0, 0, 0, 0][d]
  }

  function Dz(d: Dir): int {
    //C N  S  E  W  T   B NE NW SE SW NT  NB ST  SB ET  EB WT  WB
    [0, 0, 0, 0, 0, 1, -1, 0, 0, 0, 0, 1, -1, 1, -1, 1, -1, 1, -1][d]
  }

  /** The neighbour that SRC_d reads from in the pull form: N reads from S, NE from SW, ... */
  function Upstream(d: Dir): Dir {
    //C N  S  E  W  T  B  NE  NW SE SW  NT  NB  ST  SB  ET  EB  WT  WB
    [0, 2, 1, 4, 3, 6, 5, 10, 9, 8, 7, 14, 13, 12, 11, 18, 17, 16, 15][d]
  }

  datatype Layout = Layout(sizeX: nat, sizeY: nat, n: nat, entry: seq<nat>) {
    ghost predicate Valid() {
      && sizeX > 0 && sizeY > 0
      && |entry| == NUM_DIRS
      && (forall d: Dir :: entry[d] < n)
      && (forall d: Dir, e: Dir :: d != e ==> entry[d] != entry[e])
    }

    /** Number of a cell. */
    function CellOf(x: int, y: int, z: int): int {
      x + y * sizeX + z * sizeX * sizeY
    }

    /** CALC_INDEX */
    function CalcIndex(x: int, y: int, z: int, e: nat): int {
      e + n * CellOf(x, y, z)
    }

    function SweepX(i: nat): nat
      requires n > 0 && sizeX > 0
    {
      (i / n) % sizeX
    }

    function SweepY(i: nat): nat
      requires n > 0 && sizeX > 0 && sizeY > 0
    {
      ((i / n) / sizeX) % sizeY
    }

    function SweepZ(i: nat): nat
      requires n > 0 && sizeX > 0 && sizeY > 0
    {
      assert sizeX * sizeY > 0;
      (i / n) / (sizeX * sizeY)
    }

    /** How many cells ahead the neighbour in direction d is. */
    function Shift(d: Dir): int {
      CellOf(Dx(d), Dy(d), Dz(d))
    }
  }

  // ----- The index macros -----

  /** Entry number and cell of an index are unique. */
  lemma SlotUnique(n: nat, q: int, r: nat, q': int, r': nat)
    requires r < n && r' < n && n * q + r == n * q' + r'
    ensures q == q' && r == r'
  {
    DivModUnique(n, q, r);
    DivModUnique(n, q', r');
  }

  /** A cell number is its row number times the row length, and its plane number times the
      plane size, plus a remainder. */
  lemma CellForms(sx: nat, sy: nat, x: int, y: int, z: int)
    ensures x + y * sx + z * sx * sy == sx * (sy * z + y) + x
    ensures x + y * sx + z * sx * sy == (sx * sy) * z + (sx * y + x)
  {
  }

  lemma RowEnd(sx: nat, sy: nat, x: nat, y: nat)
    requires x < sx && y < sy
    ensures sx * y + x < sx * sy
  {
    assert sx * (y + 1) <= sx * sy;
  }

  /** SWEEP_X, SWEEP_Y and SWEEP_Z recover the coordinates of every entry of an in-range cell. */
  lemma SweepInvertsCalcIndex(l: Layout, x: nat, y: nat, z: nat, e: nat)
    requires x < l.sizeX && y < l.sizeY && e < l.n
    ensures var i := l.CalcIndex(x, y, z, e);
            && i >= 0 && i % l.n == e
            && l.SweepX(i) == x && l.SweepY(i) == y && l.SweepZ(i) == z
  {
    var sx, sy := l.sizeX, l.sizeY;
    var c := l.CellOf(x, y, z);
    CellForms(sx, sy, x, y, z);
    NonNegative(sy, z);
    NonNegative(sx, sy * z + y);
    NonNegative(l.n, c);
    DivModUnique(l.n, c, e);
    assert l.n * c + e == l.CalcIndex(x, y, z, e);
    DivModUnique(sx, sy * z + y, x);
    DivModUnique(sy, z, y);
    RowEnd(sx, sy, x, y);
    NonNegative(sx, y);
    DivModUnique(sx * sy, z, sx * y + x);
  }

  /** And every index is the CALC_INDEX of the coordinates the macros compute from it. */
  lemma CalcIndexInvertsSweep(l: Layout, i: nat)
    requires l.n > 0 && l.sizeX > 0 && l.sizeY > 0
    ensures l.CalcIndex(l.SweepX(i), l.SweepY(i), l.SweepZ(i), i % l.n) == i
  {
    var x, y, z := CoordinatesOf(l, i);
    SweepInvertsCalcIndex(l, x, y, z, i % l.n);
  }

  lemma Divide(k: nat, n: nat) returns (q: nat, r: nat)
    requires n > 0
    ensures k == n * q + r && r < n
  {
    q, r := k / n, k % n;
  }

  lemma CoordinatesOf(l: Layout, i: nat) returns (x: nat, y: nat, z: nat)
    requires l.n > 0 && l.sizeX > 0 && l.sizeY > 0
    ensures x < l.sizeX && y < l.sizeY && l.CalcIndex(x, y, z, i % l.n) == i
  {
    var c, e := Divide(i, l.n);
    var r: nat;
    r, x := Divide(c, l.sizeX);
    z, y := Divide(r, l.sizeY);
    CellFromRow(l.sizeX, l.sizeY, x, y, z, r, c);
    IndexFromCell(l, x, y, z, e, c);
    DivModUnique(l.n, c, e);
  }

  lemma IndexFromCell(l: Layout, x: int, y: int, z: int, e: nat, c: int)
    requires l.CellOf(x, y, z) == c
    ensures l.CalcIndex(x, y, z, e) == l.n * c + e
  {
  }

  lemma CellFromRow(sx: nat, sy: nat, x: int, y: int, z: int, r: int, c: int)
    requires r == sy * z + y && c == sx * r + x
    ensures c == x + y * sx + z * sx * sy
  {
  }

  // ----- Streaming -----

  /** COLLIDE_STREAM decides whether a sweep pushes to or pulls from the neighbours. */
  datatype Form = Push | Pull

  /** Where SRC_d of the cell with index n * c reads. */
  function ReadAt(l: Layout, form: Form, c: int, d: Dir): int
    requires l.Valid()
  {
    if form.Push? then l.entry[d] + l.n * c else l.entry[d] + l.n * (c + l.Shift(Upstream(d)))
  }

  /** Where DST_d of the cell with index n * c writes. */
  function WriteAt(l: Layout, form: Form, c: int, d: Dir): int
    requires l.Valid()
  {
    if form.Push? then l.entry[d] + l.n * (c + l.Shift(d)) else l.entry[d] + l.n * c
  }

  /** GRID_ENTRY_SWEEP adds the index of the neighbour to the index of the cell. */
  lemma AddressesAreMacros(l: Layout, c: int, d: Dir)
    requires l.Valid()
    ensures ReadAt(l, Push, c, d) == l.CalcIndex(0, 0, 0, l.entry[d]) + l.n * c
    ensures WriteAt(l, Push, c, d) == l.CalcIndex(Dx(d), Dy(d), Dz(d), l.entry[d]) + l.n * c
    ensures ReadAt(l, Pull, c, d) ==
              l.CalcIndex(Dx(Upstream(d)), Dy(Upstream(d)), Dz(Upstream(d)), l.entry[d]) + l.n * c
    ensures WriteAt(l, Pull, c, d) == l.CalcIndex(0, 0, 0, l.entry[d]) + l.n * c
  {
    Distribute(l.n, c, l.Shift(d));
    Distribute(l.n, c, l.Shift(Upstream(d)));
  }

  lemma UpstreamX(d: Dir)
    ensures Dx(Upstream(d)) == -Dx(d)
  {
  }

  lemma UpstreamY(d: Dir)
    ensures Dy(Upstream(d)) == -Dy(d)
  {
  }

  lemma UpstreamZ(d: Dir)
    ensures Dz(Upstream(d)) == -Dz(d)
  {
  }

  lemma UpstreamTwice(d: Dir)
    ensures Upstream(Upstream(d)) == d
  {
  }

  /** Pulling from upstream is the opposite of pushing downstream. */
  lemma UpstreamIsOpposite(l: Layout, d: Dir)
    ensures l.Shift(Upstream(d)) == -l.Shift(d)
    ensures Upstream(Upstream(d)) == d
  {
    hide Dx, Dy, Dz, Upstream;
    UpstreamX(d);
    UpstreamY(d);
    UpstreamZ(d);
    UpstreamTwice(d);
    OppositeCell(l.sizeX, l.sizeY, Dx(d), Dy(d), Dz(d));
  }

  lemma OppositeCell(sx: int, sy: int, x: int, y: int, z: int)
    ensures -x + -y * sx + -z * sx * sy == -(x + y * sx + z * sx * sy)
  {
  }

  /** The offsets of the NEIGHBOR macros. */
  lemma Offsets(d: Dir)
    ensures (Dx(d), Dy(d), Dz(d)) ==
              [(0, 0, 0), (0, 1, 0), (0, -1, 0), (1, 0, 0), (-1, 0, 0), (0, 0, 1), (0, 0, -1),
               (1, 1, 0), (-1, 1, 0), (1, -1, 0), (-1, -1, 0), (0, 1, 1), (0, 1, -1), (0, -1, 1), (0, -1, -1),
               (1, 0, 1), (1, 0, -1), (-1, 0, 1), (-1, 0, -1)][d]
  {
  }

  lemma MovedCell(sx: int, sy: int, x: int, y: int, z: int, dx: int, dy: int, dz: int)
    ensures x + y * sx + z * sx * sy + (dx + dy * sx + dz * sx * sy)
            == (x + dx) + (y + dy) * sx + (z + dz) * sx * sy
  {
  }

  lemma MovedBack(l: Layout, x: int, y: int, z: int, d: Dir)
    ensures l.CellOf(x, y, z) + l.Shift(Upstream(d)) == l.CellOf(x - Dx(d), y - Dy(d), z - Dz(d))
  {
    hide Dx, Dy, Dz, Upstream;
    UpstreamX(d);
    UpstreamY(d);
    UpstreamZ(d);
    MovedCell(l.sizeX, l.sizeY, x, y, z, -Dx(d), -Dy(d), -Dz(d));
  }

  /** The addresses of all 19 directions at the cell (x, y, z): pushing writes to the neighbour the
      direction names, pulling reads from the one opposite, and the other end is the cell itself. */
  lemma Addresses(l: Layout, x: int, y: int, z: int, d: Dir)
    requires l.Valid()
    ensures l.CellOf(x, y, z) == x + y * l.sizeX + z * l.sizeX * l.sizeY
    ensures var e, c := l.entry[d], l.CellOf(x, y, z);
            var (dx, dy, dz) :=
              [(0, 0, 0), (0, 1, 0), (0, -1, 0), (1, 0, 0), (-1, 0, 0), (0, 0, 1), (0, 0, -1),
               (1, 1, 0), (-1, 1, 0), (1, -1, 0), (-1, -1, 0), (0, 1, 1), (0, 1, -1), (0, -1, 1), (0, -1, -1),
               (1, 0, 1), (1, 0, -1), (-1, 0, 1), (-1, 0, -1)][d];
            && WriteAt(l, Push, c, d) == e + l.n * ((x + dx) + (y + dy) * l.sizeX + (z + dz) * l.sizeX * l.sizeY)
            && ReadAt(l, Pull, c, d) == e + l.n * ((x - dx) + (y - dy) * l.sizeX + (z - dz) * l.sizeX * l.sizeY)
            && ReadAt(l, Push, c, d) == WriteAt(l, Pull, c, d) == l.CalcIndex(x, y, z, e) == e + l.n * c
  {
    Offsets(d);
    hide Dx, Dy, Dz, Upstream;
    MovedCell(l.sizeX, l.sizeY, x, y, z, Dx(d), Dy(d), Dz(d));
    MovedBack(l, x, y, z, d);
  }

  /** No slot is written twice: it belongs to one direction of one cell. */
  lemma WritesAreDisjoint(l: Layout, form: Form, c: int, d: Dir, c': int, d': Dir)
    requires l.Valid() && WriteAt(l, form, c, d) == WriteAt(l, form, c', d')
    ensures c == c' && d == d'
  {
    if form.Push? {
      SlotUnique(l.n, c + l.Shift(d), l.entry[d], c' + l.Shift(d'), l.entry[d']);
    } else {
      SlotUnique(l.n, c, l.entry[d], c', l.entry[d']);
    }
  }
}
