/** The read-only queries the search asks of a grid snapshot: the candidate
    set of a cell, the degree of a cell (how many empty cells it constrains),
    how often a digit already occurs, and the list of cells tied on the
    minimum number of candidates. */
module Constraints {
  import opened Grids

  /** The nonzero values already present in the row, the column and the box of (row, col). */
  function UsedValues(g: Grid, row: int, col: int): set<int>
    requires IsShape(g) && InBounds(row, col)
  {
    ((set x | x in g[row]) + (set x | x in Column(g, col)) + (set x | x in Box(g, row / 3, col / 3))) - {0}
  }

  /** The candidate set of (row, col): empty for a filled cell, otherwise the
      digits not yet used in its row, column or box. */
  function PossibleValues(g: Grid, row: int, col: int): (s: set<int>)
    requires IsShape(g) && InBounds(row, col)
    ensures s <= Digits
    ensures g[row][col] != 0 ==> s == {}
  {
    if g[row][col] != 0 then {} else Digits - UsedValues(g, row, col)
  }

  /** No cell sharing a unit with (row, col) holds `v`. */
  ghost predicate UnseenFrom(g: Grid, row: int, col: int, v: int)
    requires IsShape(g)
  {
    forall r, c :: InBounds(r, c) && SameUnit(row, col, r, c) ==> g[r][c] != v
  }

  /** `v` is a candidate of (row, col) exactly when the cell is empty, `v` is
      a digit and no cell of its row, column or box holds `v`. */
  lemma PossibleValuesSpec(g: Grid, row: int, col: int, v: int)
    requires IsShape(g) && InBounds(row, col)
    ensures v in PossibleValues(g, row, col) <==> g[row][col] == 0 && 1 <= v <= 9 && UnseenFrom(g, row, col, v)
  {
    if g[row][col] == 0 && 1 <= v <= 9 {
      if UnseenFrom(g, row, col, v) {
        UnseenUnused(g, row, col, v);
      } else {
        SeenUsed(g, row, col, v);
      }
    }
  }

  /** A digit no cell sharing a unit with (row, col) holds is not used there. */
  lemma UnseenUnused(g: Grid, row: int, col: int, v: int)
    requires IsShape(g) && InBounds(row, col) && UnseenFrom(g, row, col, v)
    ensures v !in UsedValues(g, row, col)
  {
    forall i | 0 <= i < 9
      ensures g[row][i] != v && Column(g, col)[i] != v && Box(g, row / 3, col / 3)[i] != v
    {
      assert SameUnit(row, col, row, i) && SameUnit(row, col, i, col);
      BoxCell(row / 3, col / 3, i);
      assert SameUnit(row, col, 3 * (row / 3) + i / 3, 3 * (col / 3) + i % 3);
    }
  }

  /** A nonzero value held by a cell sharing a unit with (row, col) is used there. */
  lemma SeenUsed(g: Grid, row: int, col: int, v: int)
    requires IsShape(g) && InBounds(row, col) && v != 0 && !UnseenFrom(g, row, col, v)
    ensures v in UsedValues(g, row, col)
  {
    var r, c :| InBounds(r, c) && SameUnit(row, col, r, c) && g[r][c] == v;
    if r == row {
      assert g[row][c] == v;
    } else if c == col {
      assert Column(g, col)[r] == v;
    } else {
      BoxPosition(r, c);
      assert Box(g, row / 3, col / 3)[3 * (r % 3) + c % 3] == v;
    }
  }

  /** Filling cells only takes candidates away: a cell of a refinement of
      `a` has no candidate that it lacks in `a`. */
  lemma PossibleValuesShrink(a: Grid, b: Grid, row: int, col: int)
    requires IsShape(a) && IsShape(b) && Refines(a, b) && InBounds(row, col)
    ensures PossibleValues(b, row, col) <= PossibleValues(a, row, col)
  {
    forall v | v in PossibleValues(b, row, col) ensures v in PossibleValues(a, row, col) {
      PossibleValuesSpec(b, row, col, v);
      PossibleValuesSpec(a, row, col, v);
      forall r, c | InBounds(r, c) && SameUnit(row, col, r, c) ensures a[r][c] != v {
        assert b[r][c] != v;
      }
    }
  }

  /** In a consistent grid, writing a digit into an empty cell keeps the grid
      consistent exactly when the digit is one of the cell's candidates. */
  lemma PlacementKeepsValid(g: Grid, row: int, col: int, v: int)
    requires IsShape(g) && ValidState(g) && InBounds(row, col) && g[row][col] == 0 && 1 <= v <= 9
    ensures v in PossibleValues(g, row, col) <==> ValidState(SetCell(g, row, col, v))
  {
    var h := SetCell(g, row, col, v);
    ValidStateIffNoConflict(g);
    ValidStateIffNoConflict(h);
    PossibleValuesSpec(g, row, col, v);
    if UnseenFrom(g, row, col, v) {
      forall r1, c1, r2, c2 |
        InBounds(r1, c1) && InBounds(r2, c2) && (r1 != r2 || c1 != c2) &&
        SameUnit(r1, c1, r2, c2) && h[r1][c1] != 0
        ensures h[r1][c1] != h[r2][c2]
      {
        if r1 == row && c1 == col {
          assert h[r2][c2] == g[r2][c2];
        } else if r2 == row && c2 == col {
          assert SameUnit(row, col, r1, c1);
          assert h[r1][c1] == g[r1][c1];
        } else {
          assert h[r1][c1] == g[r1][c1] && h[r2][c2] == g[r2][c2];
        }
      }
    } else {
      var r, c :| InBounds(r, c) && SameUnit(row, col, r, c) && g[r][c] == v;
      assert h[r][c] == v && h[row][col] == v;
      assert !NoConflict(h);
    }
  }

  /** A candidate set never holds more than the nine digits. */
  lemma PossibleValuesAtMostNine(g: Grid, row: int, col: int)
    requires IsShape(g) && InBounds(row, col)
    ensures |PossibleValues(g, row, col)| <= 9
  {
    var s := PossibleValues(g, row, col);
    assert |Digits| == 9;
    assert |Digits - s| == |Digits| - |s|;
  }

  /** Every value of a solution at a cell that is empty in the puzzle is one
      of that cell's candidates. */
  lemma SolutionValueIsCandidate(g: Grid, s: Grid, row: int, col: int)
    requires IsShape(g) && IsSolution(g, s) && InBounds(row, col) && g[row][col] == 0
    ensures s[row][col] in PossibleValues(g, row, col)
  {
    var v := s[row][col];
    ValidStateIffNoConflict(s);
    forall r, c | InBounds(r, c) && SameUnit(row, col, r, c) ensures g[r][c] != v {
      if g[r][c] != 0 {
        assert s[r][c] == g[r][c];
      }
    }
    PossibleValuesSpec(g, row, col, v);
  }

  /** `b` is `a` after sound propagation: clues are kept, the digit range and
      consistency are kept, and no solution of `a` is lost. */
  ghost predicate Narrows(a: Grid, b: Grid)
    requires IsShape(a) && IsShape(b)
  {
    && Refines(a, b)
    && (InRange(a) ==> InRange(b))
    && (ValidState(a) ==> ValidState(b))
    && (forall s :: IsSolution(a, s) ==> IsSolution(b, s))
  }

  lemma NarrowsReflexive(a: Grid)
    requires IsShape(a)
    ensures Narrows(a, a)
  {
  }

  lemma NarrowsTransitive(a: Grid, b: Grid, c: Grid)
    requires IsShape(a) && IsShape(b) && IsShape(c) && Narrows(a, b) && Narrows(b, c)
    ensures Narrows(a, c)
  {
    RefinesTransitive(a, b, c);
  }

  /** Narrowing loses no solution and adds none: the two grids have exactly
      the same solutions. */
  lemma NarrowsSameSolutions(a: Grid, b: Grid, s: Grid)
    requires IsShape(a) && IsShape(b) && Narrows(a, b)
    ensures IsSolution(a, s) <==> IsSolution(b, s)
  {
    if IsSolution(b, s) {
      SolutionOfRefined(a, b, s);
    }
  }

  /** Writing a candidate that every solution agrees on is sound propagation. */
  lemma ForcedPlacement(g: Grid, row: int, col: int, v: int)
    requires IsShape(g) && InBounds(row, col) && v in PossibleValues(g, row, col)
    requires forall s :: IsSolution(g, s) ==> s[row][col] == v
    ensures Narrows(g, SetCell(g, row, col, v))
  {
    var h := SetCell(g, row, col, v);
    SetCellRefines(g, row, col, v);
    if ValidState(g) {
      PlacementKeepsValid(g, row, col, v);
    }
    forall s | IsSolution(g, s) ensures IsSolution(h, s) {
      forall r, c | InBounds(r, c) ensures h[r][c] == 0 || s[r][c] == h[r][c] {
        if r != row || c != col {
          assert h[r][c] == g[r][c];
        }
      }
    }
  }

  /** A cell whose candidate set is the single digit `v` is forced to `v`. */
  lemma NakedSingle(g: Grid, row: int, col: int, v: int)
    requires IsShape(g) && InBounds(row, col) && PossibleValues(g, row, col) == {v}
    ensures Narrows(g, SetCell(g, row, col, v))
  {
    forall s | IsSolution(g, s) ensures s[row][col] == v {
      SolutionValueIsCandidate(g, s, row, col);
    }
    ForcedPlacement(g, row, col, v);
  }

  // ----- the degree of a cell -----

  /** Empty cells among the first `n` of column `col`, (row, col) itself excluded. */
  function EmptyInColumn(g: Grid, row: int, col: int, n: int): nat
    requires IsShape(g) && InBounds(row, col) && 0 <= n <= 9
  {
    if n == 0 then 0
    else EmptyInColumn(g, row, col, n - 1) + (if n - 1 != row && g[n - 1][col] == 0 then 1 else 0)
  }

  /** Empty cells among the first `n` of row `row`, (row, col) itself excluded. */
  function EmptyInRow(g: Grid, row: int, col: int, n: int): nat
    requires IsShape(g) && InBounds(row, col) && 0 <= n <= 9
  {
    if n == 0 then 0
    else EmptyInRow(g, row, col, n - 1) + (if n - 1 != col && g[row][n - 1] == 0 then 1 else 0)
  }

  /** Empty cells among the first `n` cells of row `r` of the box of
      (row, col), (row, col) itself excluded. */
  function EmptyInBoxRow(g: Grid, row: int, col: int, r: int, n: int): nat
    requires IsShape(g) && InBounds(row, col) && 0 <= r < 9 && 0 <= n <= 3
  {
    if n == 0 then 0
    else
      var c := 3 * (col / 3) + n - 1;
      EmptyInBoxRow(g, row, col, r, n - 1) + (if (r != row || c != col) && g[r][c] == 0 then 1 else 0)
  }

  /** Empty cells among the first `n` rows of the box of (row, col),
      (row, col) itself excluded. */
  function EmptyInBox(g: Grid, row: int, col: int, n: int): nat
    requires IsShape(g) && InBounds(row, col) && 0 <= n <= 3
  {
    if n == 0 then 0
    else EmptyInBox(g, row, col, n - 1) + EmptyInBoxRow(g, row, col, 3 * (row / 3) + n - 1, 3)
  }

  /** The degree of (row, col): the empty cells of its column, of its row and
      of its box other than itself; a cell that shares both a row and the box
      with (row, col) is counted twice, as the Python solver does. */
  function Degree(g: Grid, row: int, col: int): nat
    requires IsShape(g) && InBounds(row, col)
  {
    EmptyInColumn(g, row, col, 9) + EmptyInRow(g, row, col, 9) + EmptyInBox(g, row, col, 3)
  }

  /** The other empty cells of the column of (row, col), by row. */
  ghost function ColumnMates(g: Grid, row: int, col: int): set<int>
    requires IsShape(g) && InBounds(row, col)
  {
    set r | 0 <= r < 9 && r != row && g[r][col] == 0
  }

  /** The other empty cells of the row of (row, col), by column. */
  ghost function RowMates(g: Grid, row: int, col: int): set<int>
    requires IsShape(g) && InBounds(row, col)
  {
    set c | 0 <= c < 9 && c != col && g[row][c] == 0
  }

  /** The other empty cells of the box of (row, col) that lie in row `r`,
      by column. */
  ghost function BoxMates(g: Grid, row: int, col: int, r: int): set<int>
    requires IsShape(g) && InBounds(row, col) && 0 <= r < 9
  {
    set c | 3 * (col / 3) <= c < 3 * (col / 3) + 3 && (r != row || c != col) && g[r][c] == 0
  }

  /** The degree counts sets of cells: the other empty cells of the column,
      of the row, and of each of the box's three rows. */
  lemma DegreeCounts(g: Grid, row: int, col: int)
    requires IsShape(g) && InBounds(row, col)
    ensures var br := 3 * (row / 3);
      Degree(g, row, col) == |ColumnMates(g, row, col)| + |RowMates(g, row, col)| +
        |BoxMates(g, row, col, br)| + |BoxMates(g, row, col, br + 1)| + |BoxMates(g, row, col, br + 2)|
  {
    ColumnCount(g, row, col, 9);
    RowCount(g, row, col, 9);
    var br, bc := 3 * (row / 3), 3 * (col / 3);
    BoxRowCount(g, row, col, br, bc, 3);
    BoxRowCount(g, row, col, br + 1, bc, 3);
    BoxRowCount(g, row, col, br + 2, bc, 3);
    assert EmptyInBox(g, row, col, 1) == EmptyInBoxRow(g, row, col, br, 3);
    assert EmptyInBox(g, row, col, 2) == EmptyInBox(g, row, col, 1) + EmptyInBoxRow(g, row, col, br + 1, 3);
    assert EmptyInBox(g, row, col, 3) == EmptyInBox(g, row, col, 2) + EmptyInBoxRow(g, row, col, br + 2, 3);
  }

  lemma {:induction false} ColumnCount(g: Grid, row: int, col: int, n: int)
    requires IsShape(g) && InBounds(row, col) && 0 <= n <= 9
    ensures EmptyInColumn(g, row, col, n) == |set r | 0 <= r < n && r != row && g[r][col] == 0|
  {
    if n > 0 {
      ColumnCount(g, row, col, n - 1);
      var before := set r | 0 <= r < n - 1 && r != row && g[r][col] == 0;
      var after := set r | 0 <= r < n && r != row && g[r][col] == 0;
      if n - 1 != row && g[n - 1][col] == 0 {
        assert after == before + {n - 1};
      } else {
        assert after == before;
      }
    }
  }

  lemma {:induction false} RowCount(g: Grid, row: int, col: int, n: int)
    requires IsShape(g) && InBounds(row, col) && 0 <= n <= 9
    ensures EmptyInRow(g, row, col, n) == |set c | 0 <= c < n && c != col && g[row][c] == 0|
  {
    if n > 0 {
      RowCount(g, row, col, n - 1);
      var before := set c | 0 <= c < n - 1 && c != col && g[row][c] == 0;
      var after := set c | 0 <= c < n && c != col && g[row][c] == 0;
      if n - 1 != col && g[row][n - 1] == 0 {
        assert after == before + {n - 1};
      } else {
        assert after == before;
      }
    }
  }

  lemma {:induction false} BoxRowCount(g: Grid, row: int, col: int, r: int, bc: int, n: int)
    requires IsShape(g) && InBounds(row, col) && 0 <= r < 9 && bc == 3 * (col / 3) && 0 <= n <= 3
    ensures EmptyInBoxRow(g, row, col, r, n) == |set c | bc <= c < bc + n && (r != row || c != col) && g[r][c] == 0|
  {
    if n > 0 {
      BoxRowCount(g, row, col, r, bc, n - 1);
      BoxRowStep(g, row, col, r, bc, n);
    }
  }

  /** The box row's count grows by one exactly when its next cell is counted. */
  lemma BoxRowStep(g: Grid, row: int, col: int, r: int, bc: int, n: int)
    requires IsShape(g) && 0 <= r < 9 && 0 <= bc <= 6 && 1 <= n <= 3
    ensures var last := bc + n - 1;
      |set c | bc <= c < bc + n && (r != row || c != col) && g[r][c] == 0| ==
      |set c | bc <= c < bc + n - 1 && (r != row || c != col) && g[r][c] == 0| +
      (if (r != row || last != col) && g[r][last] == 0 then 1 else 0)
  {
    var before := set c | bc <= c < bc + n - 1 && (r != row || c != col) && g[r][c] == 0;
    var after := set c | bc <= c < bc + n && (r != row || c != col) && g[r][c] == 0;
    var c := bc + n - 1;
    if (r != row || c != col) && g[r][c] == 0 {
      assert after == before + {c};
    } else {
      assert after == before;
    }
  }

  // ----- how often a digit occurs -----

  /** How many cells of `g` hold `v`; empty cells are not counted for any value. */
  function Frequency(g: Grid, v: int): nat {
    if v == 0 then 0 else multiset(Flatten(g))[v]
  }

  /** The order in which candidate values are tried: rarer digits first,
      ties broken by the smaller digit. */
  predicate TriedBefore(g: Grid, a: int, b: int) {
    Frequency(g, a) < Frequency(g, b) || (Frequency(g, a) == Frequency(g, b) && a < b)
  }

  // ----- cells tied on a number of candidates -----

  /** The row-major index of (r, c). */
  function Index(r: int, c: int): int {
    9 * r + c
  }

  /** The candidate sets of all 81 cells, indexed like the grid. */
  function CandidateTable(g: Grid): (t: seq<seq<set<int>>>)
    requires IsShape(g)
    ensures |t| == 9 && forall r :: 0 <= r < 9 ==> |t[r]| == 9
    ensures forall r, c :: InBounds(r, c) ==> t[r][c] == PossibleValues(g, r, c)
    ensures forall r, c :: InBounds(r, c) ==> |t[r][c]| <= 9
  {
    forall r, c | InBounds(r, c) ensures |PossibleValues(g, r, c)| <= 9 {
      PossibleValuesAtMostNine(g, r, c);
    }
    seq(9, r requires 0 <= r < 9 => seq(9, c requires 0 <= c < 9 => PossibleValues(g, r, c)))
  }

  predicate IsTable(t: seq<seq<set<int>>>) {
    |t| == 9 && forall r :: 0 <= r < 9 ==> |t[r]| == 9
  }

  /** A position (row, col) in the row-major scan: the cells before it are
      those of the earlier rows and the first `col` cells of row `row`;
      (9, 0) is the end of the scan. */
  predicate ScanPoint(row: int, col: int) {
    0 <= row <= 9 && 0 <= col <= 9 && (row == 9 ==> col == 0)
  }

  /** The empty cells before scan point (row, col) whose candidate set (as
      recorded in `t`) has exactly `m` elements, each with that set, in
      row-major order. */
  function Tied(g: Grid, t: seq<seq<set<int>>>, row: int, col: int, m: int): seq<(int, int, set<int>)>
    requires IsShape(g) && IsTable(t) && ScanPoint(row, col)
    decreases row, col
  {
    if col == 0 then
      (if row == 0 then [] else Tied(g, t, row - 1, 9, m))
    else
      var c := col - 1;
      Tied(g, t, row, c, m) + (if g[row][c] == 0 && |t[row][c]| == m then [(row, c, t[row][c])] else [])
  }

  /** Each element of the tied list is an empty cell before the scan point,
      paired with its recorded candidate set, which has `m` elements. */
  lemma {:induction false} TiedElement(g: Grid, t: seq<seq<set<int>>>, row: int, col: int, m: int, k: int)
    requires IsShape(g) && IsTable(t) && ScanPoint(row, col) && 0 <= k < |Tied(g, t, row, col, m)|
    ensures var (r, c, o) := Tied(g, t, row, col, m)[k];
      InBounds(r, c) && Index(r, c) < Index(row, col) && g[r][c] == 0 && o == t[r][c] && |o| == m
    decreases row, col
  {
    if col == 0 {
      TiedElement(g, t, row - 1, 9, m, k);
    } else if k < |Tied(g, t, row, col - 1, m)| {
      TiedElement(g, t, row, col - 1, m, k);
    }
  }

  /** The tied list is in row-major order. */
  lemma {:induction false} TiedOrdered(g: Grid, t: seq<seq<set<int>>>, row: int, col: int, m: int, k1: int, k2: int)
    requires IsShape(g) && IsTable(t) && ScanPoint(row, col) && 0 <= k1 < k2 < |Tied(g, t, row, col, m)|
    ensures var s := Tied(g, t, row, col, m); Index(s[k1].0, s[k1].1) < Index(s[k2].0, s[k2].1)
    decreases row, col
  {
    if col == 0 {
      TiedOrdered(g, t, row - 1, 9, m, k1, k2);
    } else if k2 < |Tied(g, t, row, col - 1, m)| {
      TiedOrdered(g, t, row, col - 1, m, k1, k2);
    } else {
      TiedElement(g, t, row, col - 1, m, k1);
    }
  }

  /** Every empty cell before the scan point with `m` candidates is in the tied list. */
  lemma {:induction false} TiedComplete(g: Grid, t: seq<seq<set<int>>>, row: int, col: int, m: int, r: int, c: int)
    requires IsShape(g) && IsTable(t) && ScanPoint(row, col) && InBounds(r, c) && Index(r, c) < Index(row, col)
    requires g[r][c] == 0 && |t[r][c]| == m
    ensures exists k :: 0 <= k < |Tied(g, t, row, col, m)| && Tied(g, t, row, col, m)[k].0 == r && Tied(g, t, row, col, m)[k].1 == c
    decreases row, col
  {
    var s := Tied(g, t, row, col, m);
    if col == 0 {
      TiedComplete(g, t, row - 1, 9, m, r, c);
    } else if r == row && c == col - 1 {
      assert s[|s| - 1] == (r, c, t[r][c]);
      assert s[|s| - 1].0 == r && s[|s| - 1].1 == c;
    } else {
      TiedComplete(g, t, row, col - 1, m, r, c);
      var k :| 0 <= k < |Tied(g, t, row, col - 1, m)| && Tied(g, t, row, col - 1, m)[k].0 == r && Tied(g, t, row, col - 1, m)[k].1 == c;
      assert s[k] == Tied(g, t, row, col - 1, m)[k];
    }
  }

  /** The part of the tied list before its `k`-th element is the tied list of
      the cells before that element. */
  lemma {:induction false} TiedPrefix(g: Grid, t: seq<seq<set<int>>>, row: int, col: int, m: int, k: int)
    requires IsShape(g) && IsTable(t) && ScanPoint(row, col) && 0 <= k < |Tied(g, t, row, col, m)|
    ensures var s := Tied(g, t, row, col, m);
      ScanPoint(s[k].0, s[k].1) && Tied(g, t, s[k].0, s[k].1, m) == s[..k]
    decreases row, col
  {
    var s := Tied(g, t, row, col, m);
    TiedElement(g, t, row, col, m, k);
    if col == 0 {
      TiedPrefix(g, t, row - 1, 9, m, k);
    } else if k < |Tied(g, t, row, col - 1, m)| {
      TiedPrefix(g, t, row, col - 1, m, k);
      assert s[..k] == Tied(g, t, row, col - 1, m)[..k];
    } else {
      assert s[..k] == Tied(g, t, row, col - 1, m);
    }
  }

  /** No tied cell when no empty cell before the scan point has `m` candidates. */
  lemma TiedEmpty(g: Grid, t: seq<seq<set<int>>>, row: int, col: int, m: int)
    requires IsShape(g) && IsTable(t) && ScanPoint(row, col)
    requires forall r, c :: InBounds(r, c) && Index(r, c) < Index(row, col) && g[r][c] == 0 ==> |t[r][c]| != m
    ensures Tied(g, t, row, col, m) == []
  {
    if Tied(g, t, row, col, m) != [] {
      TiedElement(g, t, row, col, m, 0);
    }
  }
}
