/** The grid vocabulary shared by the solver, the validator and the formatter:
    a 9x9 grid of integers in which 0 marks an empty cell, its rows, columns
    and 3x3 boxes, and the rule that no nonzero value repeats within one of them. */
module Grids {

  type Grid = seq<seq<int>>

  /** The digits a cell may hold once it is filled. */
  const Digits: set<int> := {1, 2, 3, 4, 5, 6, 7, 8, 9}

  /** Membership in `Digits` as a range. */
  lemma DigitRange(v: int)
    ensures v in Digits <==> 1 <= v <= 9
  {
  }

  predicate InBounds(r: int, c: int) {
    0 <= r < 9 && 0 <= c < 9
  }

  /** Exactly 9 rows of exactly 9 cells each. */
  predicate IsShape(g: Grid) {
    |g| == 9 && forall r :: 0 <= r < 9 ==> |g[r]| == 9
  }

  /** Every cell holds 0 (empty) or a digit. */
  predicate InRange(g: Grid)
    requires IsShape(g)
  {
    forall r, c :: 0 <= r < 9 && 0 <= c < 9 ==> 0 <= g[r][c] <= 9
  }

  predicate WellFormed(g: Grid) {
    IsShape(g) && InRange(g)
  }

  /** Column `c`, read top to bottom. */
  function Column(g: Grid, c: int): (s: seq<int>)
    requires IsShape(g) && 0 <= c < 9
    ensures |s| == 9
  {
    seq(9, r requires 0 <= r < 9 => g[r][c])
  }

  /** The box in box-row `br` and box-column `bc`, read row by row. */
  function Box(g: Grid, br: int, bc: int): (s: seq<int>)
    requires IsShape(g) && 0 <= br < 3 && 0 <= bc < 3
    ensures |s| == 9
  {
    seq(9, k requires 0 <= k < 9 => g[3 * br + k / 3][3 * bc + k % 3])
  }

  /** No nonzero value occurs twice in `s`. */
  predicate NoRepeat(s: seq<int>) {
    forall i, j :: 0 <= i < j < |s| && s[i] != 0 ==> s[i] != s[j]
  }

  /** The consistency rule: no nonzero value repeats in any row, column or box.
      Empty cells are ignored, so the all-zero grid satisfies it. */
  predicate ValidState(g: Grid)
    requires IsShape(g)
  {
    && (forall r :: 0 <= r < 9 ==> NoRepeat(g[r]))
    && (forall c :: 0 <= c < 9 ==> NoRepeat(Column(g, c)))
    && (forall br, bc :: 0 <= br < 3 && 0 <= bc < 3 ==> NoRepeat(Box(g, br, bc)))
  }

  /** Two cells share a row, a column or a box (a cell shares all three with itself). */
  predicate SameUnit(r1: int, c1: int, r2: int, c2: int) {
    r1 == r2 || c1 == c2 || (r1 / 3 == r2 / 3 && c1 / 3 == c2 / 3)
  }

  /** The same rule stated cell by cell: two distinct cells of one unit never
      hold the same nonzero value. */
  ghost predicate NoConflict(g: Grid)
    requires IsShape(g)
  {
    forall r1, c1, r2, c2 ::
      InBounds(r1, c1) && InBounds(r2, c2) && (r1 != r2 || c1 != c2) &&
      SameUnit(r1, c1, r2, c2) && g[r1][c1] != 0
      ==> g[r1][c1] != g[r2][c2]
  }

  /** `g` with cell (r, c) set to `v`. */
  function SetCell(g: Grid, r: int, c: int, v: int): (h: Grid)
    requires IsShape(g) && InBounds(r, c)
    ensures IsShape(h)
    ensures h[r][c] == v
    ensures forall r', c' :: InBounds(r', c') && (r' != r || c' != c) ==> h[r'][c'] == g[r'][c']
  {
    g[r := g[r][c := v]]
  }

  /** `b` is `a` with some empty cells filled: every nonzero cell of `a` is kept. */
  ghost predicate Refines(a: Grid, b: Grid)
    requires IsShape(a) && IsShape(b)
  {
    forall r, c :: InBounds(r, c) ==> a[r][c] == 0 || b[r][c] == a[r][c]
  }

  /** The cells of `g` that are empty. */
  function ZeroCells(g: Grid): set<(int, int)>
    requires IsShape(g)
  {
    set r, c | 0 <= r < 9 && 0 <= c < 9 && g[r][c] == 0 :: (r, c)
  }

  /** The cells of `g` in row-major order. */
  function Flatten(g: Grid): seq<int> {
    if g == [] then [] else Flatten(g[..|g| - 1]) + g[|g| - 1]
  }

  /** Rows of nine cells flatten to nine cells per row, cell (r, c) at
      index 9 * r + c. */
  lemma {:induction false} FlattenCells(g: Grid)
    requires forall r :: 0 <= r < |g| ==> |g[r]| == 9
    ensures |Flatten(g)| == 9 * |g|
    ensures forall r, c :: 0 <= r < |g| && 0 <= c < 9 ==> Flatten(g)[9 * r + c] == g[r][c]
  {
    if g != [] {
      var init := g[..|g| - 1];
      FlattenCells(init);
      forall r, c | 0 <= r < |g| && 0 <= c < 9 ensures Flatten(g)[9 * r + c] == g[r][c] {
        if r < |g| - 1 {
          assert init[r] == g[r];
        }
      }
    }
  }

  /** Row-major index arithmetic. */
  lemma IndexDivMod(r: int, c: int)
    requires InBounds(r, c)
    ensures (9 * r + c) / 9 == r && (9 * r + c) % 9 == c
  {
  }

  lemma IndexBack(i: int)
    requires 0 <= i < 81
    ensures InBounds(i / 9, i % 9) && 9 * (i / 9) + i % 9 == i
  {
  }

  /** The box-relative position of cell (r, c) and back. */
  lemma BoxPosition(r: int, c: int)
    requires InBounds(r, c)
    ensures var k := 3 * (r % 3) + c % 3;
      0 <= k < 9 && 3 * (r / 3) + k / 3 == r && 3 * (c / 3) + k % 3 == c
  {
  }

  lemma BoxCell(br: int, bc: int, k: int)
    requires 0 <= br < 3 && 0 <= bc < 3 && 0 <= k < 9
    ensures var r, c := 3 * br + k / 3, 3 * bc + k % 3;
      InBounds(r, c) && r / 3 == br && c / 3 == bc && 3 * (r % 3) + c % 3 == k
  {
  }

  /** Two distinct cells of a column without repeats never clash. */
  lemma ColumnPairDistinct(g: Grid, r1: int, r2: int, c: int)
    requires IsShape(g) && 0 <= r1 < 9 && 0 <= r2 < 9 && 0 <= c < 9 && r1 != r2
    requires NoRepeat(Column(g, c)) && g[r1][c] != 0
    ensures g[r1][c] != g[r2][c]
  {
    var s := Column(g, c);
    assert s[r1] == g[r1][c] && s[r2] == g[r2][c];
  }

  /** Two distinct cells of a box without repeats never clash. */
  lemma BoxPairDistinct(g: Grid, r1: int, c1: int, r2: int, c2: int)
    requires IsShape(g) && InBounds(r1, c1) && InBounds(r2, c2) && (r1 != r2 || c1 != c2)
    requires r1 / 3 == r2 / 3 && c1 / 3 == c2 / 3
    requires NoRepeat(Box(g, r1 / 3, c1 / 3)) && g[r1][c1] != 0
    ensures g[r1][c1] != g[r2][c2]
  {
    var s := Box(g, r1 / 3, c1 / 3);
    BoxPosition(r1, c1);
    BoxPosition(r2, c2);
    var k1, k2 := 3 * (r1 % 3) + c1 % 3, 3 * (r2 % 3) + c2 % 3;
    assert k1 != k2;
    assert s[k1] == g[r1][c1] && s[k2] == g[r2][c2];
  }

  lemma ValidStateImpliesNoConflict(g: Grid)
    requires IsShape(g) && ValidState(g)
    ensures NoConflict(g)
  {
    forall r1, c1, r2, c2 |
      InBounds(r1, c1) && InBounds(r2, c2) && (r1 != r2 || c1 != c2) &&
      SameUnit(r1, c1, r2, c2) && g[r1][c1] != 0
      ensures g[r1][c1] != g[r2][c2]
    {
      if r1 == r2 {
        assert NoRepeat(g[r1]);
      } else if c1 == c2 {
        ColumnPairDistinct(g, r1, r2, c1);
      } else {
        BoxPairDistinct(g, r1, c1, r2, c2);
      }
    }
  }

  /** A column of a grid without clashes has no repeat. */
  lemma ColumnNoRepeat(g: Grid, c: int)
    requires IsShape(g) && NoConflict(g) && 0 <= c < 9
    ensures NoRepeat(Column(g, c))
  {
    var s := Column(g, c);
    forall i, j | 0 <= i < j < 9 && s[i] != 0 ensures s[i] != s[j] {
      assert s[i] == g[i][c] && s[j] == g[j][c];
      assert SameUnit(i, c, j, c);
    }
  }

  /** A box of a grid without clashes has no repeat. */
  lemma BoxNoRepeat(g: Grid, br: int, bc: int)
    requires IsShape(g) && NoConflict(g) && 0 <= br < 3 && 0 <= bc < 3
    ensures NoRepeat(Box(g, br, bc))
  {
    var s := Box(g, br, bc);
    forall i, j | 0 <= i < j < 9 && s[i] != 0 ensures s[i] != s[j] {
      BoxCell(br, bc, i);
      BoxCell(br, bc, j);
      var r1, c1, r2, c2 := 3 * br + i / 3, 3 * bc + i % 3, 3 * br + j / 3, 3 * bc + j % 3;
      assert SameUnit(r1, c1, r2, c2);
      assert s[i] == g[r1][c1] && s[j] == g[r2][c2];
    }
  }

  lemma NoConflictImpliesValidState(g: Grid)
    requires IsShape(g) && NoConflict(g)
    ensures ValidState(g)
  {
    forall r | 0 <= r < 9 ensures NoRepeat(g[r]) {
      forall i, j | 0 <= i < j < 9 && g[r][i] != 0 ensures g[r][i] != g[r][j] {
        assert SameUnit(r, i, r, j);
      }
    }
    forall c | 0 <= c < 9 ensures NoRepeat(Column(g, c)) {
      ColumnNoRepeat(g, c);
    }
    forall br, bc | 0 <= br < 3 && 0 <= bc < 3 ensures NoRepeat(Box(g, br, bc)) {
      BoxNoRepeat(g, br, bc);
    }
  }

  /** The unit-by-unit rule and the cell-by-cell rule agree. */
  lemma ValidStateIffNoConflict(g: Grid)
    requires IsShape(g)
    ensures ValidState(g) <==> NoConflict(g)
  {
    if ValidState(g) {
      ValidStateImpliesNoConflict(g);
    }
    if NoConflict(g) {
      NoConflictImpliesValidState(g);
    }
  }

  /** Filling an empty cell with a nonzero value removes exactly that cell
      from the set of empty cells. */
  lemma FillShrinksZeroCells(g: Grid, r: int, c: int, v: int)
    requires IsShape(g) && InBounds(r, c) && g[r][c] == 0 && v != 0
    ensures ZeroCells(SetCell(g, r, c, v)) == ZeroCells(g) - {(r, c)}
  {
    var h := SetCell(g, r, c, v);
    forall p | p in ZeroCells(h) ensures p in ZeroCells(g) - {(r, c)} {
      var (r', c') := p;
      assert h[r'][c'] == 0;
    }
    forall p | p in ZeroCells(g) - {(r, c)} ensures p in ZeroCells(h) {
      var (r', c') := p;
      assert h[r'][c'] == g[r'][c'];
    }
  }

  /** A grid with no empty cell cannot be refined any further. */
  lemma RefinesFull(a: Grid, b: Grid)
    requires IsShape(a) && IsShape(b) && Refines(a, b)
    requires forall r, c :: InBounds(r, c) ==> a[r][c] != 0
    ensures a == b
  {
    forall r | 0 <= r < 9 ensures a[r] == b[r] {
      assert forall c :: 0 <= c < 9 ==> a[r][c] == b[r][c];
    }
  }

  /** No cell is empty. */
  predicate IsFull(g: Grid)
    requires IsShape(g)
  {
    forall r, c :: 0 <= r < 9 && 0 <= c < 9 ==> g[r][c] != 0
  }

  /** `s` is a solution of puzzle `g`: a full, consistent grid of digits
      that keeps every clue of `g`. */
  ghost predicate IsSolution(g: Grid, s: Grid)
    requires IsShape(g)
  {
    IsShape(s) && IsFull(s) && InRange(s) && ValidState(s) && Refines(g, s)
  }

  /** Two 9x9 grids that agree on every cell are equal. */
  lemma SameCells(a: Grid, b: Grid)
    requires IsShape(a) && IsShape(b)
    requires forall r, c :: InBounds(r, c) ==> a[r][c] == b[r][c]
    ensures a == b
  {
    forall r | 0 <= r < 9 ensures a[r] == b[r] {
      assert forall c :: 0 <= c < 9 ==> a[r][c] == b[r][c];
    }
  }

  lemma RefinesReflexive(a: Grid)
    requires IsShape(a)
    ensures Refines(a, a)
  {
  }

  lemma RefinesTransitive(a: Grid, b: Grid, c: Grid)
    requires IsShape(a) && IsShape(b) && IsShape(c) && Refines(a, b) && Refines(b, c)
    ensures Refines(a, c)
  {
  }

  /** Filling an empty cell refines the grid. */
  lemma SetCellRefines(g: Grid, r: int, c: int, v: int)
    requires IsShape(g) && InBounds(r, c) && g[r][c] == 0
    ensures Refines(g, SetCell(g, r, c, v))
  {
  }

  /** A refinement empties no cell. */
  lemma RefinesZeroCells(a: Grid, b: Grid)
    requires IsShape(a) && IsShape(b) && Refines(a, b)
    ensures ZeroCells(b) <= ZeroCells(a)
  {
    forall p | p in ZeroCells(b) ensures p in ZeroCells(a) {
      var (r, c) := p;
      assert b[r][c] == 0;
    }
  }

  /** Refining a grid never adds an empty cell. */
  lemma FewerZeroCells(a: Grid, b: Grid)
    requires IsShape(a) && IsShape(b) && Refines(a, b)
    ensures |ZeroCells(b)| <= |ZeroCells(a)|
  {
    RefinesZeroCells(a, b);
    var za, zb := ZeroCells(a), ZeroCells(b);
    assert za == zb + (za - zb);
  }

  /** Writing a digit into an empty cell of a refinement of `start` leaves
      fewer empty cells than `start` has. */
  lemma PlaceProgress(start: Grid, grid: Grid, r: int, c: int, v: int)
    requires IsShape(start) && IsShape(grid) && Refines(start, grid)
    requires InBounds(r, c) && grid[r][c] == 0 && v != 0
    ensures |ZeroCells(SetCell(grid, r, c, v))| < |ZeroCells(start)|
  {
    FillShrinksZeroCells(grid, r, c, v);
    FewerZeroCells(start, grid);
    assert (r, c) in ZeroCells(grid);
  }

  /** Any grid that a consistent grid refines is consistent itself. */
  lemma RefinedValid(a: Grid, b: Grid)
    requires IsShape(a) && IsShape(b) && Refines(a, b) && ValidState(b)
    ensures ValidState(a)
  {
    ValidStateIffNoConflict(a);
    ValidStateIffNoConflict(b);
    forall r1, c1, r2, c2 |
      InBounds(r1, c1) && InBounds(r2, c2) && (r1 != r2 || c1 != c2) &&
      SameUnit(r1, c1, r2, c2) && a[r1][c1] != 0
      ensures a[r1][c1] != a[r2][c2]
    {
      assert b[r1][c1] == a[r1][c1];
      if a[r2][c2] != 0 {
        assert b[r2][c2] == a[r2][c2];
      }
    }
  }

  /** A solution of the grid with one more cell filled is a solution of the grid. */
  lemma SolutionOfRefined(a: Grid, b: Grid, s: Grid)
    requires IsShape(a) && IsShape(b) && Refines(a, b) && IsSolution(b, s)
    ensures IsSolution(a, s)
  {
    RefinesTransitive(a, b, s);
  }

  /** A sequence without repeats has as many distinct elements as entries. */
  lemma {:induction false} DistinctCard(u: seq<int>)
    requires forall i, j :: 0 <= i < j < |u| ==> u[i] != u[j]
    ensures |set x | x in u| == |u|
  {
    if u != [] {
      var w := u[..|u| - 1];
      DistinctCard(w);
      assert (set x | x in u) == (set x | x in w) + {u[|u| - 1]};
      assert u[|u| - 1] !in (set x | x in w);
    }
  }

  lemma DigitsCount()
    ensures |Digits| == 9
  {
  }

  /** Nine digits without a repeat are all nine digits: a full, consistent
      row, column or box holds every digit exactly once. */
  lemma DistinctDigitsCover(u: seq<int>)
    requires |u| == 9 && (forall i :: 0 <= i < 9 ==> 1 <= u[i] <= 9) && NoRepeat(u)
    ensures forall v :: 1 <= v <= 9 ==> v in u
  {
    var s := set x | x in u;
    DistinctCard(u);
    DigitsCount();
    assert s <= Digits;
    assert |Digits - s| == |Digits| - |s|;
    forall v | 1 <= v <= 9 ensures v in u {
      assert v in Digits;
      assert v in s;
    }
  }

  /** Every digit occurs in each row of a solution. */
  lemma SolutionRowHasDigit(s: Grid, row: int, v: int)
    requires IsShape(s) && IsFull(s) && InRange(s) && ValidState(s) && 0 <= row < 9 && 1 <= v <= 9
    ensures exists c :: 0 <= c < 9 && s[row][c] == v
  {
    assert forall i :: 0 <= i < 9 ==> 1 <= s[row][i] <= 9;
    DistinctDigitsCover(s[row]);
    assert v in s[row];
  }

  /** Every digit occurs in each column of a solution. */
  lemma SolutionColumnHasDigit(s: Grid, col: int, v: int)
    requires IsShape(s) && IsFull(s) && InRange(s) && ValidState(s) && 0 <= col < 9 && 1 <= v <= 9
    ensures exists r :: 0 <= r < 9 && s[r][col] == v
  {
    var u := Column(s, col);
    assert forall i :: 0 <= i < 9 ==> 1 <= u[i] <= 9 && u[i] == s[i][col];
    DistinctDigitsCover(u);
    assert v in u;
    var i :| 0 <= i < 9 && u[i] == v;
    assert s[i][col] == v;
  }
}
