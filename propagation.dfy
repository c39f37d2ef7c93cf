/** The two propagation rules applied before the search: a naked single (an
    empty cell with exactly one candidate) and a hidden single (a digit that
    only one empty cell of a row or a column can still take). */
module Propagation {
  import opened Grids
  import opened Constraints

  /** Every pair of `cells` is a position of the grid. */
  predicate AllCells(cells: seq<(int, int)>) {
    forall i :: 0 <= i < |cells| ==> InBounds(cells[i].0, cells[i].1)
  }

  /** The empty cells among the first `n` of row `row`, left to right. */
  function RowEmpties(g: Grid, row: int, n: int): (cells: seq<(int, int)>)
    requires IsShape(g) && 0 <= row < 9 && 0 <= n <= 9
    ensures AllCells(cells)
    ensures forall p :: p in cells <==> p.0 == row && 0 <= p.1 < n && g[row][p.1] == 0
  {
    if n == 0 then []
    else RowEmpties(g, row, n - 1) + (if g[row][n - 1] == 0 then [(row, n - 1)] else [])
  }

  /** The empty cells among the first `n` of column `col`, top to bottom. */
  function ColumnEmpties(g: Grid, col: int, n: int): (cells: seq<(int, int)>)
    requires IsShape(g) && 0 <= col < 9 && 0 <= n <= 9
    ensures AllCells(cells)
    ensures forall p :: p in cells <==> p.1 == col && 0 <= p.0 < n && g[p.0][col] == 0
  {
    if n == 0 then []
    else ColumnEmpties(g, col, n - 1) + (if g[n - 1][col] == 0 then [(n - 1, col)] else [])
  }

  /** The cells of `cells` that still have `v` as a candidate, in order. */
  function Holders(g: Grid, cells: seq<(int, int)>, v: int): (h: seq<(int, int)>)
    requires IsShape(g) && AllCells(cells)
    ensures AllCells(h)
    ensures forall p :: p in h <==> p in cells && InBounds(p.0, p.1) && v in PossibleValues(g, p.0, p.1)
  {
    if cells == [] then []
    else
      var p := cells[|cells| - 1];
      Holders(g, cells[..|cells| - 1], v) + (if v in PossibleValues(g, p.0, p.1) then [p] else [])
  }

  /** No empty cell has exactly one candidate. */
  ghost predicate NoNakedSingle(g: Grid)
    requires IsShape(g)
  {
    forall r, c :: InBounds(r, c) && g[r][c] == 0 ==> |PossibleValues(g, r, c)| != 1
  }

  /** Row `row` has more than one empty cell, lacks `v`, and exactly one of
      its empty cells can take `v`. */
  predicate RowHiddenSingle(g: Grid, row: int, v: int)
    requires IsShape(g) && 0 <= row < 9
  {
    var cells := RowEmpties(g, row, 9);
    |cells| > 1 && v !in g[row] && |Holders(g, cells, v)| == 1
  }

  /** Column `col` has more than one empty cell, lacks `v`, and exactly one
      of its empty cells can take `v`. */
  predicate ColumnHiddenSingle(g: Grid, col: int, v: int)
    requires IsShape(g) && 0 <= col < 9
  {
    var cells := ColumnEmpties(g, col, 9);
    |cells| > 1 && v !in Column(g, col) && |Holders(g, cells, v)| == 1
  }

  /** No digit below `n` is a hidden single of row `row`. */
  ghost predicate RowClear(g: Grid, row: int, n: int)
    requires IsShape(g) && 0 <= row < 9
  {
    forall v :: 1 <= v < n ==> !RowHiddenSingle(g, row, v)
  }

  /** No digit below `n` is a hidden single of column `col`. */
  ghost predicate ColumnClear(g: Grid, col: int, n: int)
    requires IsShape(g) && 0 <= col < 9
  {
    forall v :: 1 <= v < n ==> !ColumnHiddenSingle(g, col, v)
  }

  lemma RowClearStep(g: Grid, row: int, n: int)
    requires IsShape(g) && 0 <= row < 9 && RowClear(g, row, n) && !RowHiddenSingle(g, row, n)
    ensures RowClear(g, row, n + 1)
  {
  }

  lemma ColumnClearStep(g: Grid, col: int, n: int)
    requires IsShape(g) && 0 <= col < 9 && ColumnClear(g, col, n) && !ColumnHiddenSingle(g, col, n)
    ensures ColumnClear(g, col, n + 1)
  {
  }

  /** No row before row `n` holds a hidden single. */
  ghost predicate RowsClear(g: Grid, n: int)
    requires IsShape(g)
  {
    forall i :: 0 <= i < n && i < 9 ==> RowClear(g, i, 10)
  }

  /** No column before column `n` holds a hidden single. */
  ghost predicate ColumnsClear(g: Grid, n: int)
    requires IsShape(g)
  {
    forall i :: 0 <= i < n && i < 9 ==> ColumnClear(g, i, 10)
  }

  /** The row pass moves on past a row without a hidden single. */
  lemma RowsClearStep(g: Grid, n: int)
    requires IsShape(g) && 0 <= n < 9 && RowsClear(g, n) && RowClear(g, n, 10)
    ensures RowsClear(g, n + 1)
  {
  }

  /** The column pass moves on past a column without a hidden single. */
  lemma ColumnsClearStep(g: Grid, n: int)
    requires IsShape(g) && 0 <= n < 9 && ColumnsClear(g, n) && ColumnClear(g, n, 10)
    ensures ColumnsClear(g, n + 1)
  {
  }

  /** No row holds a hidden single. */
  ghost predicate NoRowHiddenSingle(g: Grid)
    requires IsShape(g)
  {
    RowsClear(g, 9)
  }

  /** No column holds a hidden single. */
  ghost predicate NoColumnHiddenSingle(g: Grid)
    requires IsShape(g)
  {
    ColumnsClear(g, 9)
  }

  /** Neither a row nor a column holds a hidden single. */
  ghost predicate NoHiddenSingle(g: Grid)
    requires IsShape(g)
  {
    NoRowHiddenSingle(g) && NoColumnHiddenSingle(g)
  }

  /** A set with one element `v` is `{v}`. */
  lemma Singleton(s: set<int>, v: int)
    requires |s| == 1 && v in s
    ensures s == {v}
  {
    assert |s - {v}| == 0;
  }

  /** Where a solution puts `v` in row `row`, when the row lacks `v`: one of
      the row's empty cells, which has `v` as a candidate. */
  lemma SolutionDigitInRow(g: Grid, s: Grid, row: int, cells: seq<(int, int)>, v: int) returns (c: int)
    requires IsShape(g) && IsSolution(g, s) && 0 <= row < 9 && 1 <= v <= 9 && AllCells(cells)
    requires forall c :: 0 <= c < 9 && g[row][c] == 0 ==> (row, c) in cells
    requires forall c :: 0 <= c < 9 ==> g[row][c] != v
    ensures 0 <= c < 9 && s[row][c] == v && (row, c) in Holders(g, cells, v)
  {
    SolutionRowHasDigit(s, row, v);
    c :| 0 <= c < 9 && s[row][c] == v;
    assert g[row][c] == 0;
    SolutionValueIsCandidate(g, s, row, c);
  }

  /** Where a solution puts `v` in column `col`, when the column lacks `v`. */
  lemma SolutionDigitInColumn(g: Grid, s: Grid, col: int, cells: seq<(int, int)>, v: int) returns (r: int)
    requires IsShape(g) && IsSolution(g, s) && 0 <= col < 9 && 1 <= v <= 9 && AllCells(cells)
    requires forall r :: 0 <= r < 9 && g[r][col] == 0 ==> (r, col) in cells
    requires forall r :: 0 <= r < 9 ==> g[r][col] != v
    ensures 0 <= r < 9 && s[r][col] == v && (r, col) in Holders(g, cells, v)
  {
    SolutionColumnHasDigit(s, col, v);
    r :| 0 <= r < 9 && s[r][col] == v;
    assert g[r][col] == 0;
    SolutionValueIsCandidate(g, s, r, col);
  }

  /** A hidden single in a row is forced: when `cells` holds every empty
      cell of row `row` and only one of them can take `v`, every solution
      has `v` there, so writing it loses no solution. */
  lemma HiddenSingleInRow(g: Grid, row: int, cells: seq<(int, int)>, v: int)
    requires IsShape(g) && 0 <= row < 9 && 1 <= v <= 9 && AllCells(cells)
    requires forall c :: 0 <= c < 9 && g[row][c] == 0 ==> (row, c) in cells
    requires |Holders(g, cells, v)| == 1 && Holders(g, cells, v)[0].0 == row
    ensures var p := Holders(g, cells, v)[0];
      v in PossibleValues(g, p.0, p.1) && Narrows(g, SetCell(g, p.0, p.1, v))
  {
    var h := Holders(g, cells, v);
    var p := h[0];
    assert h == [p];
    PossibleValuesSpec(g, p.0, p.1, v);
    forall c | 0 <= c < 9 ensures g[row][c] != v {
      assert SameUnit(p.0, p.1, row, c);
    }
    forall s | IsSolution(g, s) ensures s[p.0][p.1] == v {
      var c := SolutionDigitInRow(g, s, row, cells, v);
      assert (row, c) in [p];
    }
    ForcedPlacement(g, p.0, p.1, v);
  }

  /** The same for a column. */
  lemma HiddenSingleInColumn(g: Grid, col: int, cells: seq<(int, int)>, v: int)
    requires IsShape(g) && 0 <= col < 9 && 1 <= v <= 9 && AllCells(cells)
    requires forall r :: 0 <= r < 9 && g[r][col] == 0 ==> (r, col) in cells
    requires |Holders(g, cells, v)| == 1 && Holders(g, cells, v)[0].1 == col
    ensures var p := Holders(g, cells, v)[0];
      v in PossibleValues(g, p.0, p.1) && Narrows(g, SetCell(g, p.0, p.1, v))
  {
    var h := Holders(g, cells, v);
    var p := h[0];
    assert h == [p];
    PossibleValuesSpec(g, p.0, p.1, v);
    forall r | 0 <= r < 9 ensures g[r][col] != v {
      assert SameUnit(p.0, p.1, r, col);
    }
    forall s | IsSolution(g, s) ensures s[p.0][p.1] == v {
      var r := SolutionDigitInColumn(g, s, col, cells, v);
      assert (r, col) in [p];
    }
    ForcedPlacement(g, p.0, p.1, v);
  }

  // ----- what a pass leaves behind -----

  lemma NonEmptyHasElement(s: set<int>)
    requires s != {}
    ensures exists x :: x in s
  {
    if forall x :: x !in s {
      assert false;
    }
  }

  /** A set inside a one-element set is empty or that set. */
  lemma SubsetOfSingleton(a: set<int>, b: set<int>)
    requires a <= b && |b| == 1
    ensures a == {} || a == b
  {
    NonEmptyHasElement(b);
    var x :| x in b;
    Singleton(b, x);
    if x !in a {
      assert a == {};
    }
  }

  /** (r, c) no longer needs the naked-single rule: it is filled, or it has
      no candidate left. */
  ghost predicate NakedSettled(g: Grid, r: int, c: int)
    requires IsShape(g) && InBounds(r, c)
  {
    g[r][c] != 0 || PossibleValues(g, r, c) == {}
  }

  /** Every cell before index `n` that is a naked single of `a` is settled
      in `b`. */
  ghost predicate NakedFilledBefore(a: Grid, b: Grid, n: int)
    requires IsShape(a) && IsShape(b)
  {
    forall r, c :: InBounds(r, c) && Index(r, c) < n && a[r][c] == 0 && |PossibleValues(a, r, c)| == 1 ==>
      NakedSettled(b, r, c)
  }

  /** Every naked single of `a` is settled in `b`. */
  ghost predicate NakedFilled(a: Grid, b: Grid)
    requires IsShape(a) && IsShape(b)
  {
    NakedFilledBefore(a, b, 81)
  }

  /** A settled cell stays settled as the grid is refined. */
  lemma NakedFilledRefine(start: Grid, a: Grid, b: Grid, n: int)
    requires IsShape(start) && IsShape(a) && IsShape(b) && Refines(a, b)
    requires NakedFilledBefore(start, a, n)
    ensures NakedFilledBefore(start, b, n)
  {
    forall r, c | InBounds(r, c) && Index(r, c) < n && start[r][c] == 0 && |PossibleValues(start, r, c)| == 1
      ensures NakedSettled(b, r, c)
    {
      assert NakedSettled(a, r, c);
      if b[r][c] == 0 {
        PossibleValuesShrink(a, b, r, c);
      }
    }
  }

  /** A naked single of `start` that the pass meets empty but without a
      single candidate has none left. */
  lemma NakedCell(start: Grid, grid: Grid, r: int, c: int)
    requires IsShape(start) && IsShape(grid) && Refines(start, grid) && InBounds(r, c)
    requires start[r][c] == 0 && |PossibleValues(start, r, c)| == 1
    requires |PossibleValues(grid, r, c)| != 1
    ensures NakedSettled(grid, r, c)
  {
    PossibleValuesShrink(start, grid, r, c);
    SubsetOfSingleton(PossibleValues(grid, r, c), PossibleValues(start, r, c));
  }

  /** One more cell, in row-major order, is accounted for. */
  lemma NakedFilledExtend(start: Grid, grid: Grid, row: int, col: int)
    requires IsShape(start) && IsShape(grid) && InBounds(row, col)
    requires NakedFilledBefore(start, grid, Index(row, col))
    requires start[row][col] == 0 && |PossibleValues(start, row, col)| == 1 ==> NakedSettled(grid, row, col)
    ensures NakedFilledBefore(start, grid, Index(row, col) + 1)
  {
    forall r, c | InBounds(r, c) && Index(r, c) < Index(row, col) + 1 && start[r][c] == 0 && |PossibleValues(start, r, c)| == 1
      ensures NakedSettled(grid, r, c)
    {
      if Index(r, c) == Index(row, col) {
        assert r == row && c == col;
      }
    }
  }

  /** Digit `v` no longer needs the hidden-single rule in row `row`: the
      row holds it, or no empty cell of the row can take it. */
  ghost predicate RowSettled(g: Grid, row: int, v: int)
    requires IsShape(g) && 0 <= row < 9
  {
    v in g[row] || forall c :: 0 <= c < 9 && g[row][c] == 0 ==> v !in PossibleValues(g, row, c)
  }

  /** Every digit below `n` that is a hidden single of row `row` in `a` is
      settled in that row of `b`. */
  ghost predicate RowPlaced(a: Grid, b: Grid, row: int, n: int)
    requires IsShape(a) && IsShape(b) && 0 <= row < 9
  {
    forall v :: 1 <= v < n && RowHiddenSingle(a, row, v) ==> RowSettled(b, row, v)
  }

  /** The column counterpart of `RowSettled`. */
  ghost predicate ColumnSettled(g: Grid, col: int, v: int)
    requires IsShape(g) && 0 <= col < 9
  {
    v in Column(g, col) || forall r :: 0 <= r < 9 && g[r][col] == 0 ==> v !in PossibleValues(g, r, col)
  }

  /** The column counterpart of `RowPlaced`. */
  ghost predicate ColumnPlaced(a: Grid, b: Grid, col: int, n: int)
    requires IsShape(a) && IsShape(b) && 0 <= col < 9
  {
    forall v :: 1 <= v < n && ColumnHiddenSingle(a, col, v) ==> ColumnSettled(b, col, v)
  }

  /** Every empty cell of row `row` is in `cells`. */
  ghost predicate RowListed(g: Grid, row: int, cells: seq<(int, int)>)
    requires IsShape(g) && 0 <= row < 9
  {
    forall c :: 0 <= c < 9 && g[row][c] == 0 ==> (row, c) in cells
  }

  /** Every empty cell of column `col` is in `cells`. */
  ghost predicate ColumnListed(g: Grid, col: int, cells: seq<(int, int)>)
    requires IsShape(g) && 0 <= col < 9
  {
    forall r :: 0 <= r < 9 && g[r][col] == 0 ==> (r, col) in cells
  }

  /** Refining the grid never adds a holder. */
  lemma {:induction false} HoldersShrink(a: Grid, b: Grid, cells: seq<(int, int)>, v: int)
    requires IsShape(a) && IsShape(b) && Refines(a, b) && AllCells(cells)
    ensures |Holders(b, cells, v)| <= |Holders(a, cells, v)|
    decreases |cells|
  {
    if cells != [] {
      var p := cells[|cells| - 1];
      HoldersShrink(a, b, cells[..|cells| - 1], v);
      PossibleValuesShrink(a, b, p.0, p.1);
    }
  }

  lemma RowSettledRefine(a: Grid, b: Grid, row: int, v: int)
    requires IsShape(a) && IsShape(b) && Refines(a, b) && 0 <= row < 9 && 1 <= v <= 9
    requires RowSettled(a, row, v)
    ensures RowSettled(b, row, v)
  {
    if v in a[row] {
      var c :| 0 <= c < 9 && a[row][c] == v;
      assert b[row][c] == v;
    } else {
      forall c | 0 <= c < 9 && b[row][c] == 0 ensures v !in PossibleValues(b, row, c) {
        PossibleValuesShrink(a, b, row, c);
      }
    }
  }

  lemma ColumnSettledRefine(a: Grid, b: Grid, col: int, v: int)
    requires IsShape(a) && IsShape(b) && Refines(a, b) && 0 <= col < 9 && 1 <= v <= 9
    requires ColumnSettled(a, col, v)
    ensures ColumnSettled(b, col, v)
  {
    if v in Column(a, col) {
      var r :| 0 <= r < 9 && Column(a, col)[r] == v;
      assert Column(b, col)[r] == v;
    } else {
      forall r | 0 <= r < 9 && b[r][col] == 0 ensures v !in PossibleValues(b, r, col) {
        PossibleValuesShrink(a, b, r, col);
      }
    }
  }

  /** Settled rows stay settled as the grid is refined. */
  lemma RowPlacedRefine(start: Grid, a: Grid, b: Grid, row: int, n: int)
    requires IsShape(start) && IsShape(a) && IsShape(b) && Refines(a, b) && 0 <= row < 9 && n <= 10
    requires RowPlaced(start, a, row, n)
    ensures RowPlaced(start, b, row, n)
  {
    forall v | 1 <= v < n && RowHiddenSingle(start, row, v) ensures RowSettled(b, row, v) {
      RowSettledRefine(a, b, row, v);
    }
  }

  lemma ColumnPlacedRefine(start: Grid, a: Grid, b: Grid, col: int, n: int)
    requires IsShape(start) && IsShape(a) && IsShape(b) && Refines(a, b) && 0 <= col < 9 && n <= 10
    requires ColumnPlaced(start, a, col, n)
    ensures ColumnPlaced(start, b, col, n)
  {
    forall v | 1 <= v < n && ColumnHiddenSingle(start, col, v) ensures ColumnSettled(b, col, v) {
      ColumnSettledRefine(a, b, col, v);
    }
  }

  /** A hidden single of row `row` in `start` that, in a refinement whose
      empty cells of the row are still listed, has no single holder any
      more, has no holder at all. */
  lemma RowNoHolder(start: Grid, grid: Grid, row: int, cells: seq<(int, int)>, v: int)
    requires IsShape(start) && IsShape(grid) && Refines(start, grid) && 0 <= row < 9
    requires cells == RowEmpties(start, row, 9) && RowListed(grid, row, cells)
    requires RowHiddenSingle(start, row, v) && |Holders(grid, cells, v)| != 1
    ensures RowSettled(grid, row, v)
  {
    HoldersShrink(start, grid, cells, v);
    forall c | 0 <= c < 9 && grid[row][c] == 0 ensures v !in PossibleValues(grid, row, c) {
      assert (row, c) in cells;
      assert (row, c) !in Holders(grid, cells, v);
    }
  }

  lemma ColumnNoHolder(start: Grid, grid: Grid, col: int, cells: seq<(int, int)>, v: int)
    requires IsShape(start) && IsShape(grid) && Refines(start, grid) && 0 <= col < 9
    requires cells == ColumnEmpties(start, col, 9) && ColumnListed(grid, col, cells)
    requires ColumnHiddenSingle(start, col, v) && |Holders(grid, cells, v)| != 1
    ensures ColumnSettled(grid, col, v)
  {
    HoldersShrink(start, grid, cells, v);
    forall r | 0 <= r < 9 && grid[r][col] == 0 ensures v !in PossibleValues(grid, r, col) {
      assert (r, col) in cells;
      assert (r, col) !in Holders(grid, cells, v);
    }
  }

  /** A row with at most one empty cell has no hidden single. */
  lemma RowNoWork(g: Grid, row: int)
    requires IsShape(g) && 0 <= row < 9 && |RowEmpties(g, row, 9)| <= 1
    ensures RowClear(g, row, 10) && RowPlaced(g, g, row, 10)
  {
  }

  lemma ColumnNoWork(g: Grid, col: int)
    requires IsShape(g) && 0 <= col < 9 && |ColumnEmpties(g, col, 9)| <= 1
    ensures ColumnClear(g, col, 10) && ColumnPlaced(g, g, col, 10)
  {
  }

  /** One more digit is accounted for in row `row`. */
  lemma RowPlacedExtend(start: Grid, grid: Grid, row: int, v: int)
    requires IsShape(start) && IsShape(grid) && 0 <= row < 9
    requires RowPlaced(start, grid, row, v)
    requires RowHiddenSingle(start, row, v) ==> RowSettled(grid, row, v)
    ensures RowPlaced(start, grid, row, v + 1)
  {
  }

  lemma ColumnPlacedExtend(start: Grid, grid: Grid, col: int, v: int)
    requires IsShape(start) && IsShape(grid) && 0 <= col < 9
    requires ColumnPlaced(start, grid, col, v)
    requires ColumnHiddenSingle(start, col, v) ==> ColumnSettled(grid, col, v)
    ensures ColumnPlaced(start, grid, col, v + 1)
  {
  }

  /** A digit the row pass skips, because the row holds it or it has no
      single holder, is settled when it was a hidden single of `start`. */
  lemma RowSkipSettled(start: Grid, grid: Grid, row: int, cells: seq<(int, int)>, v: int)
    requires IsShape(start) && IsShape(grid) && Refines(start, grid) && 0 <= row < 9
    requires cells == RowEmpties(start, row, 9) && RowListed(grid, row, cells)
    requires v in grid[row] || |Holders(grid, cells, v)| != 1
    ensures RowHiddenSingle(start, row, v) ==> RowSettled(grid, row, v)
  {
    if RowHiddenSingle(start, row, v) && v !in grid[row] {
      RowNoHolder(start, grid, row, cells, v);
    }
  }

  /** The same for a column, whose pass tests `v` against the column as it
      was in `start`. */
  lemma ColumnSkipSettled(start: Grid, grid: Grid, col: int, cells: seq<(int, int)>, v: int)
    requires IsShape(start) && IsShape(grid) && Refines(start, grid) && 0 <= col < 9
    requires cells == ColumnEmpties(start, col, 9) && ColumnListed(grid, col, cells)
    requires v in Column(start, col) || |Holders(grid, cells, v)| != 1
    ensures ColumnHiddenSingle(start, col, v) ==> ColumnSettled(grid, col, v)
  {
    if ColumnHiddenSingle(start, col, v) {
      ColumnNoHolder(start, grid, col, cells, v);
    }
  }

  /** The empty cells of a row depend on that row alone. */
  lemma {:induction false} RowEmptiesSameRow(a: Grid, b: Grid, row: int, n: int)
    requires IsShape(a) && IsShape(b) && 0 <= row < 9 && 0 <= n <= 9 && a[row] == b[row]
    ensures RowEmpties(a, row, n) == RowEmpties(b, row, n)
  {
    if n > 0 {
      RowEmptiesSameRow(a, b, row, n - 1);
      assert a[row][n - 1] == b[row][n - 1];
    }
  }

  /** The empty cells of a column depend on that column alone. */
  lemma {:induction false} ColumnEmptiesSameColumn(a: Grid, b: Grid, col: int, n: int)
    requires IsShape(a) && IsShape(b) && 0 <= col < 9 && 0 <= n <= 9
    requires forall r :: 0 <= r < 9 ==> a[r][col] == b[r][col]
    ensures ColumnEmpties(a, col, n) == ColumnEmpties(b, col, n)
  {
    if n > 0 {
      ColumnEmptiesSameColumn(a, b, col, n - 1);
    }
  }

  /** When earlier rows have been worked on but row `row` itself is as in
      `start`, what the row's own pass settles relative to `before` it
      settles relative to `start`. */
  lemma RowPlacedThrough(start: Grid, before: Grid, after: Grid, row: int)
    requires IsShape(start) && IsShape(before) && IsShape(after) && 0 <= row < 9
    requires Refines(start, before) && Refines(before, after) && before[row] == start[row]
    requires RowPlaced(before, after, row, 10)
    ensures RowPlaced(start, after, row, 10)
  {
    var cells := RowEmpties(start, row, 9);
    RowEmptiesSameRow(start, before, row, 9);
    forall v | 1 <= v < 10 && RowHiddenSingle(start, row, v) ensures RowSettled(after, row, v) {
      if !RowHiddenSingle(before, row, v) {
        RowNoHolder(start, before, row, cells, v);
        RowSettledRefine(before, after, row, v);
      }
    }
  }

  lemma ColumnPlacedThrough(start: Grid, before: Grid, after: Grid, col: int)
    requires IsShape(start) && IsShape(before) && IsShape(after) && 0 <= col < 9
    requires Refines(start, before) && Refines(before, after)
    requires forall r :: 0 <= r < 9 ==> before[r][col] == start[r][col]
    requires ColumnPlaced(before, after, col, 10)
    ensures ColumnPlaced(start, after, col, 10)
  {
    var cells := ColumnEmpties(start, col, 9);
    ColumnEmptiesSameColumn(start, before, col, 9);
    assert Column(before, col) == Column(start, col);
    forall v | 1 <= v < 10 && ColumnHiddenSingle(start, col, v) ensures ColumnSettled(after, col, v) {
      if !ColumnHiddenSingle(before, col, v) {
        ColumnNoHolder(start, before, col, cells, v);
        ColumnSettledRefine(before, after, col, v);
      }
    }
  }
}
