/**
 * The dense-matrix helpers of matrixUtils.kt: `mapIndexed` (in-place,
 * row-major overwrite), `matrix` (allocate and fill through `mapIndexed`)
 * and `multiply` (a fresh product filled cell by cell with dot products).
 *
 * A matrix is an `array2<real>`; `Cells` reads it as a sequence of rows.
 * The Kotlin mapper and initialiser lambdas may read the matrix that is being
 * filled (the initialiser of `matrix` even has it as its receiver), so here
 * they receive the matrix's current cells as their first argument.
 */
module MatrixUtils {

  /** A matrix's cells, row by row. */
  type Grid = seq<seq<real>>

  /** The mapper of `mapIndexed`: (current cells, row, column, value) to the new value. */
  type Mapper = (Grid, int, int, real) -> real

  /** The initialiser of `matrix`: (current cells, row, column) to the value. */
  type Initializer = (Grid, int, int) -> real

  /** Every row of `g` has `columns` cells. */
  ghost predicate IsGrid(g: Grid, columns: nat)
  {
    forall i :: 0 <= i < |g| ==> |g[i]| == columns
  }

  /** The cells of `a`, row by row. */
  function Cells(a: array2<real>): (g: Grid)
    reads a
    ensures |g| == a.Length0 && IsGrid(g, a.Length1)
    ensures forall i, j :: 0 <= i < a.Length0 && 0 <= j < a.Length1 ==> g[i][j] == a[i, j]
  {
    seq(a.Length0, i requires 0 <= i < a.Length0 reads a =>
      seq(a.Length1, j requires 0 <= j < a.Length1 reads a => a[i, j]))
  }

  /** Every row of `g` has a cell in column `c`. */
  predicate HasColumn(g: Grid, c: int)
  {
    forall i :: 0 <= i < |g| ==> 0 <= c < |g[i]|
  }

  /** Column `c` of `g`, top to bottom (smile's `col`). */
  function Column(g: Grid, c: int): (col: seq<real>)
    requires HasColumn(g, c)
    ensures |col| == |g|
    ensures forall i :: 0 <= i < |g| ==> 0 <= c < |g[i]| && col[i] == g[i][c]
  {
    seq(|g|, i requires 0 <= i < |g| => assert 0 <= c < |g[i]|; g[i][c])
  }

  /** The all-zero `rows` by `columns` grid that a new smile `Matrix(rows, columns)` holds. */
  function Zeros(rows: nat, columns: nat): (g: Grid)
    ensures |g| == rows && IsGrid(g, columns)
    ensures forall i, j :: 0 <= i < rows && 0 <= j < columns ==> g[i][j] == 0.0
  {
    seq(rows, _ => seq(columns, _ => 0.0))
  }

  /**
   * The cells after the row-major walk of `mapIndexed` over `g` has visited
   * every row before `m` and the first `n` cells of row `m`. The mapper of a
   * visit sees the cells as they are at that moment: already rewritten before
   * the visited cell, original from it on.
   */
  function Visited(g: Grid, columns: nat, mapper: Mapper, m: nat, n: nat): (r: Grid)
    requires IsGrid(g, columns)
    requires (m < |g| && n <= columns) || (m == |g| && n == 0)
    ensures |r| == |g| && IsGrid(r, columns)
    decreases m, n
  {
    if n > 0 then
      var before := Visited(g, columns, mapper, m, n - 1);
      before[m := before[m][n - 1 := mapper(before, m, n - 1, before[m][n - 1])]]
    else if m > 0 then
      Visited(g, columns, mapper, m - 1, columns)
    else
      g
  }

  /** The cells after `mapIndexed` has visited every cell of `g`. */
  function Filled(g: Grid, columns: nat, mapper: Mapper): (r: Grid)
    requires IsGrid(g, columns)
    ensures |r| == |g| && IsGrid(r, columns)
  {
    Visited(g, columns, mapper, |g|, 0)
  }

  /**
   * Each cell is visited exactly once, in row-major order: once the walk is
   * past cell (i, j), that cell holds the mapper's value for it, computed from
   * the cells as they were at that point of the walk and from the cell's
   * original value; a cell not yet visited still holds its original value.
   */
  lemma {:induction false} VisitedCell(g: Grid, columns: nat, mapper: Mapper, m: nat, n: nat, i: nat, j: nat)
    requires IsGrid(g, columns)
    requires (m < |g| && n <= columns) || (m == |g| && n == 0)
    requires i < |g| && j < columns
    ensures Visited(g, columns, mapper, m, n)[i][j] ==
            if i < m || (i == m && j < n) then mapper(Visited(g, columns, mapper, i, j), i, j, g[i][j])
            else g[i][j]
    decreases m, n
  {
    if n > 0 {
      VisitedCell(g, columns, mapper, m, n - 1, i, j);
      if i == m && j == n - 1 {
        VisitedCell(g, columns, mapper, m, n - 1, m, n - 1);
      }
    } else if m > 0 {
      VisitedCell(g, columns, mapper, m - 1, columns, i, j);
    }
  }

  /** A mapper that ignores the matrix it walks: each cell becomes `f(row, column, original value)`. */
  lemma FilledPointwise(g: Grid, columns: nat, f: (int, int, real) -> real, i: nat, j: nat)
    requires IsGrid(g, columns)
    requires i < |g| && j < columns
    ensures Filled(g, columns, (_, r, c, v) => f(r, c, v))[i][j] == f(i, j, g[i][j])
  {
    VisitedCell(g, columns, (_, r, c, v) => f(r, c, v), |g|, 0, i, j);
  }

  /** The cells of `a` after `a[m, n]` is set to `v` are those of `Cells(a)` with that one cell replaced. */
  lemma CellsUpdate(a: array2<real>, before: Grid, m: nat, n: nat, v: real)
    requires m < a.Length0 && n < a.Length1
    requires |before| == a.Length0 && IsGrid(before, a.Length1)
    requires a[m, n] == v
    requires forall i, j :: 0 <= i < a.Length0 && 0 <= j < a.Length1 && (i, j) != (m, n) ==> a[i, j] == before[i][j]
    ensures Cells(a) == before[m := before[m][n := v]]
  {
    var after := before[m := before[m][n := v]];
    forall i | 0 <= i < a.Length0
      ensures Cells(a)[i] == after[i]
    {
    }
  }

  /**
   * `Matrix.mapIndexed`: overwrites every cell in place, rows outer and
   * columns inner, with the mapper's value, and returns the same matrix.
   */
  method MapIndexed(a: array2<real>, mapper: Mapper) returns (r: array2<real>)
    modifies a
    ensures r == a
    ensures Cells(a) == Filled(old(Cells(a)), a.Length1, mapper)
    ensures forall i, j :: 0 <= i < a.Length0 && 0 <= j < a.Length1 ==>
              a[i, j] == mapper(Visited(old(Cells(a)), a.Length1, mapper, i, j), i, j, old(a[i, j]))
  {
    ghost var g := Cells(a);
    var m := 0;
    while m < a.Length0
      invariant 0 <= m <= a.Length0
      invariant Cells(a) == Visited(g, a.Length1, mapper, m, 0)
    {
      var n := 0;
      while n < a.Length1
        invariant 0 <= n <= a.Length1
        invariant Cells(a) == Visited(g, a.Length1, mapper, m, n)
      {
        ghost var before := Cells(a);
        var v := mapper(Cells(a), m, n, a[m, n]);
        a[m, n] := v;
        CellsUpdate(a, before, m, n, v);
        n := n + 1;
      }
      m := m + 1;
    }
    forall i, j | 0 <= i < a.Length0 && 0 <= j < a.Length1
      ensures a[i, j] == mapper(Visited(g, a.Length1, mapper, i, j), i, j, g[i][j])
    {
      VisitedCell(g, a.Length1, mapper, a.Length0, 0, i, j);
    }
    r := a;
  }

  /** The mapper `matrix` hands to `mapIndexed`: it ignores the old (zero) value. */
  function FromInitializer(initializer: Initializer): (mapper: Mapper)
    ensures forall g, row, column, v :: mapper(g, row, column, v) == initializer(g, row, column)
  {
    (g, row, column, _) => initializer(g, row, column)
  }

  /**
   * `matrix(rows, columns, initializer)`: a new `rows` by `columns` matrix
   * filled in row-major order, cell (r, c) receiving `initializer(r, c)`
   * evaluated on the matrix as filled up to that cell (later cells still 0).
   */
  method Matrix(rows: nat, columns: nat, initializer: Initializer) returns (a: array2<real>)
    ensures fresh(a) && a.Length0 == rows && a.Length1 == columns
    ensures Cells(a) == Filled(Zeros(rows, columns), columns, FromInitializer(initializer))
    ensures forall r, c :: 0 <= r < rows && 0 <= c < columns ==>
              a[r, c] == initializer(Visited(Zeros(rows, columns), columns, FromInitializer(initializer), r, c), r, c)
  {
    a := new real[rows, columns]((_, _) => 0.0);
    forall i | 0 <= i < rows
      ensures Cells(a)[i] == Zeros(rows, columns)[i]
    {
    }
    assert Cells(a) == Zeros(rows, columns);
    a := MapIndexed(a, FromInitializer(initializer));
  }

  /**
   * The dot product of `u` with the first `|u|` entries of `v`, summed left
   * to right: a zero on either side of every term gives 0.
   */
  function Dot(u: seq<real>, v: seq<real>): (d: real)
    requires |u| <= |v|
    ensures (forall i :: 0 <= i < |u| ==> u[i] == 0.0 || v[i] == 0.0) ==> d == 0.0
  {
    if u == [] then 0.0 else Dot(u[..|u| - 1], v) + u[|u| - 1] * v[|u| - 1]
  }

  /** `n` by `n` identity grid. */
  ghost predicate IsIdentity(g: Grid, n: nat)
  {
    |g| == n && IsGrid(g, n) && forall i, j :: 0 <= i < n && 0 <= j < n ==> g[i][j] == if i == j then 1.0 else 0.0
  }

  /** Dotting with the k-th unit vector picks entry k (or 0 when k is beyond `u`). */
  lemma {:induction false} DotUnit(u: seq<real>, v: seq<real>, k: nat)
    requires |u| <= |v| && k < |v|
    requires forall i :: 0 <= i < |v| ==> v[i] == if i == k then 1.0 else 0.0
    ensures Dot(u, v) == if k < |u| then u[k] else 0.0
  {
    if u != [] {
      DotUnit(u[..|u| - 1], v, k);
    }
  }

  /** The product formula of `multiply` with the identity on the right gives back the left operand. */
  lemma ProductWithIdentity(g1: Grid, id: Grid, n: nat, r: nat, c: nat)
    requires IsGrid(g1, n) && IsIdentity(id, n)
    requires r < |g1| && c < n
    ensures Dot(g1[r], Column(id, c)) == g1[r][c]
  {
    DotUnit(g1[r], Column(id, c), c);
  }

  /**
   * The initialiser `multiply` hands to `matrix`: cell (r, c) of the product
   * is row r of `g1` dotted with column c of `g2`; it reads neither the
   * matrix being filled nor any cell outside that row and column.
   */
  function ProductCell(g1: Grid, g2: Grid, r: int, c: int): (p: real)
    ensures 0 <= r < |g1| && HasColumn(g2, c) && |g1[r]| <= |g2| ==>
              p == Dot(g1[r], Column(g2, c))
    ensures (0 <= r < |g1| && HasColumn(g2, c) && |g1[r]| <= |g2| &&
             forall i :: 0 <= i < |g1[r]| ==> g1[r][i] == 0.0 || Column(g2, c)[i] == 0.0) ==> p == 0.0
  {
    if 0 <= r < |g1| && HasColumn(g2, c) && |g1[r]| <= |g2|
    then Dot(g1[r], Column(g2, c))
    else 0.0
  }

  /**
   * `Matrix.multiply`: a fresh `m1.nrows()` by `m2.ncols()` matrix whose cell
   * (r, c) is the sum over i < m1.ncols() of m1[r, i] * m2[i, c]. Neither
   * operand is written.
   */
  method Multiply(m1: array2<real>, m2: array2<real>) returns (p: array2<real>)
    requires m1.Length1 <= m2.Length0
    ensures fresh(p) && p.Length0 == m1.Length0 && p.Length1 == m2.Length1
    ensures forall r, c :: 0 <= r < p.Length0 && 0 <= c < p.Length1 ==>
              p[r, c] == Dot(Cells(m1)[r], Column(Cells(m2), c))
  {
    var g1, g2 := Cells(m1), Cells(m2);
    p := Matrix(m1.Length0, m2.Length1, (_, r, c) => ProductCell(g1, g2, r, c));
  }
}
