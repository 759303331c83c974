/** The matrix kernels of multiply-bench.cpp over exact arithmetic.

    A matrix of size n is stored row by row in a flat array.  Every kernel is proved to leave
    the same sequence in the result array, `Product(a, b, n)`, whatever order it visits the
    cells and the summands in, and to leave everything behind the first n * n entries alone. */
module MatrixMultiply {
  import opened Arithmetic

  /** Number of entries of an n by n matrix. */
  function Size(n: nat): nat {
    n * n
  }

  /** Position of row i, column j in the flat array. */
  function Cell(n: nat, i: nat, j: nat): nat {
    i * n + j
  }

  lemma CellInRange(n: nat, i: nat, j: nat)
    requires i < n && j < n
    ensures Cell(n, i, j) < Size(n)
  {
    assert i * n + n == (i + 1) * n <= n * n;
  }

  lemma CellSplits(n: nat, i: nat, j: nat)
    requires j < n
    ensures Cell(n, i, j) / n == i && Cell(n, i, j) % n == j
  {
    assert Cell(n, i, j) == n * i + j;
    DivModUnique(n, i, j);
  }

  /** Every access a kernel makes is in bounds. */
  lemma CellsInRange(n: nat)
    ensures forall i: nat, j: nat {:trigger Cell(n, i, j)} :: i < n && j < n ==> Cell(n, i, j) < Size(n)
  {
    forall i: nat, j: nat | i < n && j < n ensures Cell(n, i, j) < Size(n) {
      CellInRange(n, i, j);
    }
  }

  /** Writing cell (i, j) leaves all other cells alone. */
  lemma CellsDistinct(n: nat, i: nat, j: nat)
    requires i < n && j < n
    ensures forall i': nat, j': nat {:trigger Cell(n, i', j')} ::
              i' < n && j' < n && (i' != i || j' != j) ==> Cell(n, i', j') != Cell(n, i, j)
  {
    CellSplits(n, i, j);
    forall i': nat, j': nat | i' < n && j' < n && (i' != i || j' != j)
      ensures Cell(n, i', j') != Cell(n, i, j)
    {
      CellSplits(n, i', j');
    }
  }

  /** The summand a[i, k] * b[k, j]. */
  ghost function Term(a: seq<real>, b: seq<real>, n: nat, i: nat, j: nat, k: nat): real
    requires Size(n) <= |a| && Size(n) <= |b| && i < n && j < n && k < n
  {
    CellInRange(n, i, k);
    CellInRange(n, k, j);
    a[Cell(n, i, k)] * b[Cell(n, k, j)]
  }

  /** Sum of the terms lo <= k < hi of entry (i, j). */
  ghost function Dot(a: seq<real>, b: seq<real>, n: nat, i: nat, j: nat, lo: nat, hi: nat): real
    requires Size(n) <= |a| && Size(n) <= |b| && i < n && j < n && lo <= hi <= n
    decreases hi
  {
    if lo == hi then 0.0 else Dot(a, b, n, i, j, lo, hi - 1) + Term(a, b, n, i, j, hi - 1)
  }

  /** The matrix product, row by row. */
  ghost function Product(a: seq<real>, b: seq<real>, n: nat): (p: seq<real>)
    requires Size(n) <= |a| && Size(n) <= |b|
    ensures |p| == Size(n)
  {
    seq(Size(n), q requires 0 <= q < Size(n) =>
      assert q / n < n && q % n < n by { RowInRange(n, q); }
      Dot(a, b, n, q / n, q % n, 0, n))
  }

  lemma RowInRange(n: nat, q: nat)
    requires q < Size(n)
    ensures n > 0 && q / n < n && q % n < n && Cell(n, q / n, q % n) == q
  {
  }

  lemma {:induction false} DotSplits(a: seq<real>, b: seq<real>, n: nat, i: nat, j: nat, lo: nat, mid: nat, hi: nat)
    requires Size(n) <= |a| && Size(n) <= |b| && i < n && j < n && lo <= mid <= hi <= n
    ensures Dot(a, b, n, i, j, lo, hi) == Dot(a, b, n, i, j, lo, mid) + Dot(a, b, n, i, j, mid, hi)
    decreases hi
  {
    if mid < hi {
      DotSplits(a, b, n, i, j, lo, mid, hi - 1);
    }
  }

  /** One more summand, as the kernels add it. */
  lemma DotGrows(a: seq<real>, b: seq<real>, n: nat, i: nat, j: nat, lo: nat, k: nat)
    requires Size(n) <= |a| && Size(n) <= |b| && i < n && j < n && lo <= k < n
    requires Cell(n, i, k) < Size(n) && Cell(n, k, j) < Size(n)
    ensures Dot(a, b, n, i, j, lo, k + 1) == Dot(a, b, n, i, j, lo, k) + a[Cell(n, i, k)] * b[Cell(n, k, j)]
  {
  }

  lemma DotEmpty(a: seq<real>, b: seq<real>, n: nat, i: nat, j: nat, lo: nat)
    requires Size(n) <= |a| && Size(n) <= |b| && i < n && j < n && lo <= n
    ensures Dot(a, b, n, i, j, lo, lo) == 0.0
  {
  }

  lemma SingleTerm(a: seq<real>, b: seq<real>, n: nat, i: nat, j: nat, k: nat)
    requires Size(n) <= |a| && Size(n) <= |b| && i < n && j < n && k < n
    requires Cell(n, i, k) < Size(n) && Cell(n, k, j) < Size(n)
    ensures Dot(a, b, n, i, j, k, k + 1) == a[Cell(n, i, k)] * b[Cell(n, k, j)]
  {
  }

  lemma FullDotsAreProduct(c: seq<real>, a: seq<real>, b: seq<real>, n: nat)
    requires Size(n) <= |a| && Size(n) <= |b| && Size(n) <= |c|
    requires forall i: nat, j: nat {:trigger Cell(n, i, j)} :: i < n && j < n ==>
               Cell(n, i, j) < Size(n) && c[Cell(n, i, j)] == Dot(a, b, n, i, j, 0, n)
    ensures c[..Size(n)] == Product(a, b, n)
  {
    hide Cell, Size, Dot, Product;
    forall q: nat | q < Size(n) ensures c[q] == Product(a, b, n)[q] {
      ghost var i, j := ProductAt(a, b, n, q);
      assert c[Cell(n, i, j)] == Dot(a, b, n, i, j, 0, n);
    }
  }

  /** Entry q of the product is the one of some row and column. */
  lemma ProductAt(a: seq<real>, b: seq<real>, n: nat, q: nat) returns (i: nat, j: nat)
    requires Size(n) <= |a| && Size(n) <= |b| && q < Size(n)
    ensures i < n && j < n && Cell(n, i, j) == q && Product(a, b, n)[q] == Dot(a, b, n, i, j, 0, n)
  {
    RowInRange(n, q);
    hide Cell, Size, Dot;
    i, j := q / n, q % n;
  }

  lemma CellIs(n: nat, i: nat, j: nat)
    requires i < n && j < n
    ensures Cell(n, i, j) == i * n + j < n * n == Size(n)
  {
    CellInRange(n, i, j);
  }

  /** Entry (i, j) of the product is the sum over all k of a[i, k] * b[k, j]: nothing at first, one
      product more for each k, and the entry when all are added. */
  lemma EntryIsSumOfProducts(a: seq<real>, b: seq<real>, n: nat, i: nat, j: nat, k: nat)
    requires Size(n) <= |a| && Size(n) <= |b| && i < n && j < n && k < n
    ensures Dot(a, b, n, i, j, 0, 0) == 0.0
    ensures 0 <= i * n + k < |a| && 0 <= k * n + j < |b| && 0 <= i * n + j < |Product(a, b, n)| == n * n
    ensures Dot(a, b, n, i, j, 0, k + 1) == Dot(a, b, n, i, j, 0, k) + a[i * n + k] * b[k * n + j]
    ensures Product(a, b, n)[i * n + j] == Dot(a, b, n, i, j, 0, n)
  {
    hide *;
    CellIs(n, i, j);
    CellIs(n, i, k);
    CellIs(n, k, j);
    DotEmpty(a, b, n, i, j, 0);
    DotGrows(a, b, n, i, j, 0, k);
    var i', j' := ProductAt(a, b, n, Cell(n, i, j));
    CellSplits(n, i, j);
    CellSplits(n, i', j');
  }

  /** c[i * n + j] := x, seen as an update of one matrix entry. */
  method SetEntry(n: nat, c: array<real>, i: nat, j: nat, x: real)
    requires i < n && j < n && Size(n) <= c.Length && Cell(n, i, j) < Size(n)
    modifies c
    ensures c[Cell(n, i, j)] == x
    ensures forall i': nat, j': nat {:trigger Cell(n, i', j')} ::
              i' < n && j' < n && Cell(n, i', j') < Size(n) && (i' != i || j' != j) ==>
                c[Cell(n, i', j')] == old(c[Cell(n, i', j')])
    ensures c[Size(n)..] == old(c[Size(n)..])
  {
    CellsDistinct(n, i, j);
    hide Cell, Size;
    c[Cell(n, i, j)] := x;
  }

  /** Adds term k to the sum of the terms from lo on. */
  method AddTerm(n: nat, a: array<real>, b: array<real>, i: nat, j: nat, k: nat, acc: real, ghost lo: nat)
    returns (acc': real)
    requires Size(n) <= a.Length && Size(n) <= b.Length && i < n && j < n && lo <= k < n
    requires acc == Dot(a[..], b[..], n, i, j, lo, k)
    ensures acc' == Dot(a[..], b[..], n, i, j, lo, k + 1)
  {
    CellInRange(n, i, k);
    CellInRange(n, k, j);
    hide Cell, Size, Dot;
    DotGrows(a[..], b[..], n, i, j, lo, k);
    var x, y := a[Cell(n, i, k)], b[Cell(n, k, j)];
    assert x == a[..][Cell(n, i, k)] && y == b[..][Cell(n, k, j)];
    acc' := acc + x * y;
  }

  /** Variant 1: the naive triple loop. */
  method MultiplyV1(n: nat, a: array<real>, b: array<real>, c: array<real>)
    requires Size(n) <= a.Length && Size(n) <= b.Length && Size(n) <= c.Length
    requires c != a && c != b
    modifies c
    ensures c[..Size(n)] == Product(a[..], b[..], n)
    ensures c[Size(n)..] == old(c[Size(n)..])
  {
    hide Cell, Size, Term, Product;
    CellsInRange(n);
    ghost var A, B := a[..], b[..];
    for i := 0 to n
      invariant forall i': nat, j': nat {:trigger Cell(n, i', j')} :: i' < i && j' < n ==>
                  c[Cell(n, i', j')] == Dot(A, B, n, i', j', 0, n)
      invariant c[Size(n)..] == old(c[Size(n)..])
    {
      for j := 0 to n
        invariant forall i': nat, j': nat {:trigger Cell(n, i', j')} :: i' <= i && j' < n && (i' < i || j' < j) ==>
                    c[Cell(n, i', j')] == Dot(A, B, n, i', j', 0, n)
        invariant c[Size(n)..] == old(c[Size(n)..])
      {
        var acc := 0.0;
        for k := 0 to n
          invariant acc == Dot(A, B, n, i, j, 0, k)
          modifies {}
        {
          acc := AddTerm(n, a, b, i, j, k, acc, 0);
        }
        SetEntry(n, c, i, j, acc);
      }
    }
    FullDotsAreProduct(c[..], A, B, n);
  }

  /** Where an accumulating kernel stands: the loop counters of variants 3, 4 and 5. */
  datatype Progress =
    | Tiled(tile: nat, i0: nat, j0: nat, k0: nat, i: nat, j: nat)
    | RowOrder(i: nat, k: nat, j: nat)
    | ColumnOrder(j: nat, k: nat, i: nat)

  /** How many summands entry (i, j) of the result has received so far. */
  function Depth(p: Progress, n: nat, i: nat, j: nat): (d: nat)
    ensures d <= n
  {
    match p
    case RowOrder(ci, ck, cj) =>
      if i < ci then n else if i > ci then 0 else Min(if j < cj then ck + 1 else ck, n)
    case ColumnOrder(cj, ck, ci) =>
      if j < cj then n else if j > cj then 0 else Min(if i < ci then ck + 1 else ck, n)
    case Tiled(tile, i0, j0, k0, ci, cj) =>
      if i < i0 then n
      else if i >= i0 + tile then 0
      else if j < j0 then n
      else if j >= j0 + tile then 0
      else if i < ci || (i == ci && j < cj) then Min(k0 + tile, n)
      else Min(k0, n)
  }

  /** Every entry of c is the partial sum its progress promises, and everything behind the
      matrix is `rest`. */
  ghost predicate Filled(c: seq<real>, rest: seq<real>, a: seq<real>, b: seq<real>, n: nat, p: Progress)
    requires Size(n) <= |a| && Size(n) <= |b|
  {
    && Size(n) <= |c| && c[Size(n)..] == rest
    && forall i: nat, j: nat {:trigger Cell(n, i, j)} :: i < n && j < n ==>
         Cell(n, i, j) < Size(n) && c[Cell(n, i, j)] == Dot(a, b, n, i, j, 0, Depth(p, n, i, j))
  }

  /** Entry (i, j) receives the terms lo..hi; all other depths stay. */
  lemma Advance(c: seq<real>, rest: seq<real>, a: seq<real>, b: seq<real>, n: nat, p: Progress, p': Progress,
                i: nat, j: nat, lo: nat, hi: nat)
    requires Size(n) <= |a| && Size(n) <= |b| && i < n && j < n && lo <= hi <= n
    requires Filled(c, rest, a, b, n, p)
    requires Depth(p, n, i, j) == lo && Depth(p', n, i, j) == hi
    requires forall i': nat, j': nat :: i' < n && j' < n && (i' != i || j' != j) ==>
               Depth(p', n, i', j') == Depth(p, n, i', j')
    ensures Cell(n, i, j) < |c|
    ensures Filled(c[Cell(n, i, j) := c[Cell(n, i, j)] + Dot(a, b, n, i, j, lo, hi)], rest, a, b, n, p')
  {
    hide Cell, Size, Dot;
    DotSplits(a, b, n, i, j, 0, lo, hi);
    CellsDistinct(n, i, j);
    var at := Cell(n, i, j);
    var c' := c[at := c[at] + Dot(a, b, n, i, j, lo, hi)];
    assert c'[Size(n)..] == c[Size(n)..];
  }

  /** Two places of the loops that mean the same depths. */
  lemma Reframe(c: seq<real>, rest: seq<real>, a: seq<real>, b: seq<real>, n: nat, p: Progress, p': Progress)
    requires Size(n) <= |a| && Size(n) <= |b|
    requires Filled(c, rest, a, b, n, p)
    requires forall i: nat, j: nat :: i < n && j < n ==> Depth(p', n, i, j) == Depth(p, n, i, j)
    ensures Filled(c, rest, a, b, n, p')
  {
    hide Cell, Size, Dot;
  }

  /** The matrix is filled with zeroes. */
  method FillZero(n: nat, c: array<real>)
    requires Size(n) <= c.Length
    modifies c
    ensures forall q: nat :: q < Size(n) ==> c[q] == 0.0
    ensures c[Size(n)..] == old(c[Size(n)..])
  {
    for q := 0 to Size(n)
      invariant forall q': nat :: q' < q ==> c[q'] == 0.0
      invariant c[Size(n)..] == old(c[Size(n)..])
    {
      c[q] := 0.0;
    }
  }

  lemma ZeroesAreFilled(c: seq<real>, a: seq<real>, b: seq<real>, n: nat, p: Progress)
    requires Size(n) <= |a| && Size(n) <= |b| && Size(n) <= |c|
    requires forall q: nat :: q < Size(n) ==> c[q] == 0.0
    requires forall i: nat, j: nat :: i < n && j < n ==> Depth(p, n, i, j) == 0
    ensures Filled(c, c[Size(n)..], a, b, n, p)
  {
    CellsInRange(n);
  }

  lemma FilledIsProduct(c: seq<real>, rest: seq<real>, a: seq<real>, b: seq<real>, n: nat, p: Progress)
    requires Size(n) <= |a| && Size(n) <= |b|
    requires Filled(c, rest, a, b, n, p)
    requires forall i: nat, j: nat :: i < n && j < n ==> Depth(p, n, i, j) == n
    ensures Size(n) <= |c| && c[..Size(n)] == Product(a, b, n) && c[Size(n)..] == rest
  {
    FullDotsAreProduct(c, a, b, n);
  }

  /** The innermost loop of variant 3: the terms of one tile. */
  method TileSum(n: nat, a: array<real>, b: array<real>, i: nat, j: nat, k0: nat, tile: nat)
    returns (acc: real)
    requires Size(n) <= a.Length && Size(n) <= b.Length && i < n && j < n && k0 < n && tile >= 1
    ensures acc == Dot(a[..], b[..], n, i, j, k0, Min(k0 + tile, n))
  {
    hide Cell, Size, Dot;
    acc := 0.0;
    var k := k0;
    DotEmpty(a[..], b[..], n, i, j, k0);
    while k < k0 + tile && k < n
      invariant k0 <= k <= Min(k0 + tile, n)
      invariant acc == Dot(a[..], b[..], n, i, j, k0, k)
    {
      acc := AddTerm(n, a, b, i, j, k, acc, k0);
      k := k + 1;
    }
  }

  /** Variant 3: six nested loops over tiles; the tile size need not divide n. */
  method MultiplyV3(n: nat, a: array<real>, b: array<real>, c: array<real>, tile: nat)
    requires tile >= 1
    requires Size(n) <= a.Length && Size(n) <= b.Length && Size(n) <= c.Length
    requires c != a && c != b
    modifies c
    ensures c[..Size(n)] == Product(a[..], b[..], n)
    ensures c[Size(n)..] == old(c[Size(n)..])
  {
    hide Cell, Size, Dot, Term, Product, Filled;
    ghost var A, B, rest := a[..], b[..], c[Size(n)..];
    FillZero(n, c);
    CellsInRange(n);
    ZeroesAreFilled(c[..], A, B, n, Tiled(tile, 0, 0, 0, 0, 0));
    var i0 := 0;
    while i0 < n
      invariant Filled(c[..], rest, A, B, n, Tiled(tile, i0, 0, 0, i0, 0))
    {
      var j0 := 0;
      while j0 < n
        invariant Filled(c[..], rest, A, B, n, Tiled(tile, i0, j0, 0, i0, j0))
      {
        var k0 := 0;
        while k0 < n
          invariant Filled(c[..], rest, A, B, n, Tiled(tile, i0, j0, k0, i0, j0))
        {
          var i := i0;
          while i < i0 + tile && i < n
            invariant i0 <= i
            invariant Filled(c[..], rest, A, B, n, Tiled(tile, i0, j0, k0, i, j0))
          {
            var j := j0;
            while j < j0 + tile && j < n
              invariant j0 <= j
              invariant Filled(c[..], rest, A, B, n, Tiled(tile, i0, j0, k0, i, j))
            {
              var acc := TileSum(n, a, b, i, j, k0, tile);
              ghost var hi := Min(k0 + tile, n);
              ghost var before := c[..];
              Advance(before, rest, A, B, n, Tiled(tile, i0, j0, k0, i, j), Tiled(tile, i0, j0, k0, i, j + 1),
                      i, j, k0, hi);
              c[Cell(n, i, j)] := c[Cell(n, i, j)] + acc;
              assert c[..] == before[Cell(n, i, j) := before[Cell(n, i, j)] + acc];
              j := j + 1;
            }
            Reframe(c[..], rest, A, B, n, Tiled(tile, i0, j0, k0, i, j), Tiled(tile, i0, j0, k0, i + 1, j0));
            i := i + 1;
          }
          Reframe(c[..], rest, A, B, n, Tiled(tile, i0, j0, k0, i, j0), Tiled(tile, i0, j0, k0 + tile, i0, j0));
          k0 := k0 + tile;
        }
        Reframe(c[..], rest, A, B, n, Tiled(tile, i0, j0, k0, i0, j0), Tiled(tile, i0, j0 + tile, 0, i0, j0 + tile));
        j0 := j0 + tile;
      }
      Reframe(c[..], rest, A, B, n, Tiled(tile, i0, j0, 0, i0, j0), Tiled(tile, i0 + tile, 0, 0, i0 + tile, 0));
      i0 := i0 + tile;
    }
    FilledIsProduct(c[..], rest, A, B, n, Tiled(tile, i0, 0, 0, i0, 0));
  }

  /** Variant 4: row-major inner loop. */
  method MultiplyV4(n: nat, a: array<real>, b: array<real>, c: array<real>)
    requires Size(n) <= a.Length && Size(n) <= b.Length && Size(n) <= c.Length
    requires c != a && c != b
    modifies c
    ensures c[..Size(n)] == Product(a[..], b[..], n)
    ensures c[Size(n)..] == old(c[Size(n)..])
  {
    hide Cell, Size, Dot, Term, Product, Filled;
    ghost var A, B, rest := a[..], b[..], c[Size(n)..];
    FillZero(n, c);
    CellsInRange(n);
    ZeroesAreFilled(c[..], A, B, n, RowOrder(0, 0, 0));
    for i := 0 to n
      invariant Filled(c[..], rest, A, B, n, RowOrder(i, 0, 0))
    {
      for k := 0 to n
        invariant Filled(c[..], rest, A, B, n, RowOrder(i, k, 0))
      {
        var aik := a[Cell(n, i, k)];
        assert a[..] == A && aik == A[Cell(n, i, k)];
        for j := 0 to n
          invariant Filled(c[..], rest, A, B, n, RowOrder(i, k, j))
        {
          SingleTerm(A, B, n, i, j, k);
          Advance(c[..], rest, A, B, n, RowOrder(i, k, j), RowOrder(i, k, j + 1), i, j, k, k + 1);
          ghost var before := c[..];
          assert Dot(A, B, n, i, j, k, k + 1) == A[Cell(n, i, k)] * B[Cell(n, k, j)] == aik * b[Cell(n, k, j)];
          c[Cell(n, i, j)] := c[Cell(n, i, j)] + aik * b[Cell(n, k, j)];
          assert c[..] == before[Cell(n, i, j) := before[Cell(n, i, j)] + Dot(A, B, n, i, j, k, k + 1)];
        }
        Reframe(c[..], rest, A, B, n, RowOrder(i, k, n), RowOrder(i, k + 1, 0));
      }
      Reframe(c[..], rest, A, B, n, RowOrder(i, n, 0), RowOrder(i + 1, 0, 0));
    }
    FilledIsProduct(c[..], rest, A, B, n, RowOrder(n, 0, 0));
  }

  /** Variant 5: column order. */
  method MultiplyV5(n: nat, a: array<real>, b: array<real>, c: array<real>)
    requires Size(n) <= a.Length && Size(n) <= b.Length && Size(n) <= c.Length
    requires c != a && c != b
    modifies c
    ensures c[..Size(n)] == Product(a[..], b[..], n)
    ensures c[Size(n)..] == old(c[Size(n)..])
  {
    hide Cell, Size, Dot, Term, Product, Filled;
    ghost var A, B, rest := a[..], b[..], c[Size(n)..];
    FillZero(n, c);
    CellsInRange(n);
    ZeroesAreFilled(c[..], A, B, n, ColumnOrder(0, 0, 0));
    for j := 0 to n
      invariant Filled(c[..], rest, A, B, n, ColumnOrder(j, 0, 0))
    {
      for k := 0 to n
        invariant Filled(c[..], rest, A, B, n, ColumnOrder(j, k, 0))
      {
        var bjk := b[Cell(n, k, j)];
        assert b[..] == B && bjk == B[Cell(n, k, j)];
        for i := 0 to n
          invariant Filled(c[..], rest, A, B, n, ColumnOrder(j, k, i))
        {
          SingleTerm(A, B, n, i, j, k);
          Advance(c[..], rest, A, B, n, ColumnOrder(j, k, i), ColumnOrder(j, k, i + 1), i, j, k, k + 1);
          ghost var before := c[..];
          assert Dot(A, B, n, i, j, k, k + 1) == A[Cell(n, i, k)] * B[Cell(n, k, j)] == a[Cell(n, i, k)] * bjk;
          c[Cell(n, i, j)] := c[Cell(n, i, j)] + a[Cell(n, i, k)] * bjk;
          assert c[..] == before[Cell(n, i, j) := before[Cell(n, i, j)] + Dot(A, B, n, i, j, k, k + 1)];
        }
        Reframe(c[..], rest, A, B, n, ColumnOrder(j, k, n), ColumnOrder(j, k + 1, 0));
      }
      Reframe(c[..], rest, A, B, n, ColumnOrder(j, n, 0), ColumnOrder(j + 1, 0, 0));
    }
    FilledIsProduct(c[..], rest, A, B, n, ColumnOrder(n, 0, 0));
  }
}
