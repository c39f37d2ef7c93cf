/** The solver object: input checking, the consistency check, the candidate,
    cell and value choices, constraint propagation and the backtracking
    search, with the counters the search keeps. */
module Solver {
  import opened Wrappers
  import opened Grids
  import opened Constraints
  import opened Propagation

  /** The working grid as a value: cell (r, c) of the snapshot is `g[r, c]`. */
  function Snap(g: array2<int>): (s: Grid)
    reads g
    requires g.Length0 == 9 && g.Length1 == 9
    ensures IsShape(s)
    ensures forall r, c :: InBounds(r, c) ==> s[r][c] == g[r, c]
  {
    seq(9, r requires 0 <= r < 9 reads g => seq(9, c requires 0 <= c < 9 reads g => g[r, c]))
  }

  /** One unit passes the "seen" scan: no nonzero value is met twice. */
  method HasNoRepeat(s: seq<int>) returns (ok: bool)
    ensures ok == NoRepeat(s)
  {
    var seen: set<int> := {};
    for i := 0 to |s|
      invariant seen == set j | 0 <= j < i && s[j] != 0 :: s[j]
      invariant NoRepeat(s[..i])
    {
      if s[i] != 0 {
        if s[i] in seen {
          var j :| 0 <= j < i && s[j] != 0 && s[j] == s[i];
          return false;
        }
        seen := seen + {s[i]};
      }
    }
    assert s[..|s|] == s;
    return true;
  }

  /** What a solve call produces: the input was refused (the Python solver raises
      ValueError), no solution was found (None), or the solved grid. */
  datatype Outcome = InvalidInput | Unsolved | Solved(solution: Grid)

  /** The counters reported by the statistics query. */
  datatype Stats = Stats(backtrackCount: nat, attemptsCount: nat, constraintChecks: nat)

  class SudokuSolver {
    const debug: bool
    const maxBacktracks: int
    var backtrackCount: nat
    var constraintChecks: nat
    var attemptsCount: nat

    /** Every backtrack follows an attempt, and every attempt is checked. */
    predicate Valid()
      reads this
    {
      backtrackCount <= attemptsCount <= constraintChecks
    }

    constructor (debug: bool := false, maxBacktracks: int := 1000000)
      ensures this.debug == debug && this.maxBacktracks == maxBacktracks
      ensures backtrackCount == 0 && constraintChecks == 0 && attemptsCount == 0
      ensures Valid()
    {
      this.debug := debug;
      this.maxBacktracks := maxBacktracks;
      backtrackCount := 0;
      constraintChecks := 0;
      attemptsCount := 0;
    }

    /** The consistency check: no nonzero value repeats in a row, a column or
        a box. Every call counts one constraint check. */
    method IsValidState(grid: Grid) returns (ok: bool)
      requires IsShape(grid)
      modifies this`constraintChecks
      ensures ok == ValidState(grid)
      ensures constraintChecks == old(constraintChecks) + 1
    {
      constraintChecks := constraintChecks + 1;
      for r := 0 to 9
        invariant constraintChecks == old(constraintChecks) + 1
        invariant forall i :: 0 <= i < r ==> NoRepeat(grid[i])
      {
        var unitOk := HasNoRepeat(grid[r]);
        if !unitOk {
          return false;
        }
      }
      for c := 0 to 9
        invariant constraintChecks == old(constraintChecks) + 1
        invariant forall i :: 0 <= i < c ==> NoRepeat(Column(grid, i))
      {
        var unitOk := HasNoRepeat(Column(grid, c));
        if !unitOk {
          return false;
        }
      }
      for br := 0 to 3
        invariant constraintChecks == old(constraintChecks) + 1
        invariant forall i, j :: 0 <= i < br && 0 <= j < 3 ==> NoRepeat(Box(grid, i, j))
      {
        for bc := 0 to 3
          invariant constraintChecks == old(constraintChecks) + 1
          invariant forall i, j :: (0 <= i < br && 0 <= j < 3) || (i == br && 0 <= j < bc) ==> NoRepeat(Box(grid, i, j))
        {
          var unitOk := HasNoRepeat(Box(grid, br, bc));
          if !unitOk {
            return false;
          }
        }
      }
      return true;
    }

    /** The input check: exactly 9 rows of exactly 9 cells, each in 0..9, and
        a consistent grid. The consistency check (and its counter) is reached
        only when the shape and the range are right. */
    method IsValidInput(grid: Grid) returns (ok: bool)
      modifies this`constraintChecks
      ensures ok == (WellFormed(grid) && ValidState(grid))
      ensures constraintChecks == old(constraintChecks) + (if WellFormed(grid) then 1 else 0)
    {
      if |grid| == 0 || |grid| != 9 {
        return false;
      }
      for i := 0 to 9
        invariant forall r :: 0 <= r < i ==> |grid[r]| == 9
        invariant forall r, c :: 0 <= r < i && 0 <= c < 9 ==> 0 <= grid[r][c] <= 9
      {
        var row := grid[i];
        if |row| == 0 || |row| != 9 {
          return false;
        }
        for j := 0 to 9
          invariant forall c :: 0 <= c < j ==> 0 <= row[c] <= 9
        {
          var cell := row[j];
          if cell < 0 || cell > 9 {
            return false;
          }
        }
      }
      ok := IsValidState(grid);
    }

    /** The candidate set of (row, col), gathered from the row, then the
        column, then the box. */
    method GetPossibleValues(grid: Grid, row: int, col: int) returns (s: set<int>)
      requires IsShape(grid) && InBounds(row, col)
      ensures s == PossibleValues(grid, row, col)
    {
      if grid[row][col] != 0 {
        return {};
      }
      var used: set<int> := set x | x in grid[row];
      used := AddColumn(grid, col, used);
      var boxRow, boxCol := 3 * (row / 3), 3 * (col / 3);
      used := AddBox(grid, boxRow, boxCol, used);
      UsedValuesGathered(grid, row, col, used);
      used := used - {0};
      s := Digits - used;
    }

    /** The candidate query's column loop: adds every value of column `col`. */
    method AddColumn(grid: Grid, col: int, base: set<int>) returns (used: set<int>)
      requires IsShape(grid) && 0 <= col < 9
      ensures used == base + set x | x in Column(grid, col)
    {
      used := base;
      ghost var column := Column(grid, col);
      for r := 0 to 9
        invariant used == base + set x | x in column[..r]
      {
        assert column[..r + 1] == column[..r] + [column[r]];
        ValuesSnoc(column[..r], column[..r + 1], column[r]);
        used := used + {grid[r][col]};
      }
      assert column[..9] == column;
    }

    /** The candidate query's box loops: adds every value of the 3x3 block
        whose corner is (boxRow, boxCol), row by row. */
    method AddBox(grid: Grid, boxRow: int, boxCol: int, base: set<int>) returns (used: set<int>)
      requires IsShape(grid) && 0 <= boxRow <= 6 && 0 <= boxCol <= 6
      ensures used == base + BoxPart(grid, boxRow, boxCol, 3)
    {
      used := base;
      for r := boxRow to boxRow + 3
        invariant used == base + BoxPart(grid, boxRow, boxCol, r - boxRow)
      {
        ghost var done := used;
        for c := boxCol to boxCol + 3
          invariant used == done + RowPart(grid, r, boxCol, c - boxCol)
        {
          used := used + {grid[r][c]};
        }
      }
    }

    /** The degree of (row, col), counted column first, then row, then box. */
    method CountConstraints(grid: Grid, row: int, col: int) returns (n: int)
      requires IsShape(grid) && InBounds(row, col)
      ensures n == Degree(grid, row, col)
    {
      n := 0;
      for r := 0 to 9
        invariant n == EmptyInColumn(grid, row, col, r)
      {
        if r != row && grid[r][col] == 0 {
          n := n + 1;
        }
      }
      ghost var inColumn := n;
      for c := 0 to 9
        invariant n == inColumn + EmptyInRow(grid, row, col, c)
      {
        if c != col && grid[row][c] == 0 {
          n := n + 1;
        }
      }
      ghost var inLines := n;
      var boxRow, boxCol := 3 * (row / 3), 3 * (col / 3);
      for r := boxRow to boxRow + 3
        invariant n == inLines + EmptyInBox(grid, row, col, r - boxRow)
      {
        for c := boxCol to boxCol + 3
          invariant n == inLines + EmptyInBox(grid, row, col, r - boxRow) + EmptyInBoxRow(grid, row, col, r, c - boxCol)
        {
          if (r != row || c != col) && grid[r][c] == 0 {
            n := n + 1;
          }
        }
      }
    }

    /** The degree tie-break: the first candidate whose degree is largest. */
    method ApplyDegreeHeuristic(grid: Grid, candidates: seq<(int, int, set<int>)>) returns (cell: (int, int), options: set<int>)
      requires IsShape(grid) && |candidates| > 0 && AllInBounds(candidates)
      ensures exists k :: 0 <= k < |candidates| && FirstMaximum(grid, candidates, k) &&
                          cell == (candidates[k].0, candidates[k].1) && options == candidates[k].2
    {
      var maxConstraints := -1;
      var best := candidates[0];
      ghost var bestIndex := 0;
      for i := 0 to |candidates|
        invariant 0 <= bestIndex < |candidates| && best == candidates[bestIndex]
        invariant i == 0 ==> maxConstraints == -1 && bestIndex == 0
        invariant i > 0 ==> bestIndex < i && maxConstraints == DegreeAt(grid, candidates, bestIndex)
        invariant forall j :: 0 <= j < i ==> DegreeAt(grid, candidates, j) <= maxConstraints
        invariant forall j :: 0 <= j < bestIndex ==> DegreeAt(grid, candidates, j) < maxConstraints
      {
        var (row, col, opts) := candidates[i];
        var constraints := CountConstraints(grid, row, col);
        if constraints > maxConstraints {
          maxConstraints := constraints;
          best := (row, col, opts);
          bestIndex := i;
        }
      }
      cell, options := (best.0, best.1), best.2;
    }

    /** The cell the search branches on next: an empty cell with the fewest
        candidates (minimum remaining values), ties broken by degree. A cell
        without candidates ends the scan as soon as a second one is met. */
    method FindBestCell(grid: Grid) returns (cell: Option<(int, int)>, options: set<int>)
      requires IsShape(grid)
      ensures cell.None? <==> IsFull(grid)
      ensures cell.None? ==> options == {}
      ensures cell.Some? ==> var (r, c) := cell.value;
        && InBounds(r, c) && grid[r][c] == 0 && options == PossibleValues(grid, r, c)
        && FewestCandidates(grid, CandidateTable(grid), r, c)
        && (options != {} ==> MostConstraining(grid, CandidateTable(grid), r, c))
        && (options == {} ==> ChosenDeadEnd(grid, CandidateTable(grid), r, c))
    {
      var minOptions := 10;
      var candidates: seq<(int, int, set<int>)> := [];
      ghost var t := CandidateTable(grid);
      for row := 0 to 9
        invariant Scanned(grid, t, row, 0, minOptions, candidates)
      {
        for col := 0 to 9
          invariant Scanned(grid, t, row, col, minOptions, candidates)
        {
          if grid[row][col] == 0 {
            var opts := GetPossibleValues(grid, row, col);
            assert opts == t[row][col];
            PossibleValuesAtMostNine(grid, row, col);
            if |opts| < minOptions {
              ScanNewMinimum(grid, t, row, col, minOptions, candidates);
              minOptions := |opts|;
              candidates := [(row, col, opts)];
            } else if |opts| == minOptions {
              if minOptions == 0 {
                SecondDeadEnd(grid, t, row, col);
                return Some((row, col)), opts;
              }
              ScanTie(grid, t, row, col, minOptions, candidates);
              candidates := candidates + [(row, col, opts)];
            } else {
              ScanSkip(grid, t, row, col, minOptions, candidates);
            }
          } else {
            ScanSkip(grid, t, row, col, minOptions, candidates);
          }
        }
        ScanNextRow(grid, t, row, minOptions, candidates);
      }
      ScanDone(grid, t, minOptions, candidates);
      if |candidates| == 0 {
        return None, {};
      }
      if |candidates| > 1 {
        var best, bestOptions := ApplyDegreeHeuristic(grid, candidates);
        var k :| 0 <= k < |candidates| && FirstMaximum(grid, candidates, k) &&
          best == (candidates[k].0, candidates[k].1) && bestOptions == candidates[k].2;
        TiedElement(grid, t, 9, 0, minOptions, k);
        DegreeChoiceIsBest(grid, t, minOptions, k);
        return Some(best), bestOptions;
      }
      var (row, col, bestOptions) := candidates[0];
      TiedElement(grid, t, 9, 0, minOptions, 0);
      OnlyTiedIsBest(grid, t, minOptions);
      return Some((row, col)), bestOptions;
    }

    /** The least-constraining-value order: the candidates of (row, col)
        sorted by how often each already occurs in the grid, rarest first;
        values that occur equally often are taken smallest first. */
    method GetOrderedValues(options: set<int>, grid: Grid, row: int, col: int) returns (ordered: seq<int>)
      requires IsShape(grid)
      ensures forall v :: v in ordered <==> v in options
      ensures |ordered| == |options|
      ensures forall i, j :: 0 <= i < j < |ordered| ==> TriedBefore(grid, ordered[i], ordered[j])
    {
      var counts := CountValues(grid);
      var remaining := options;
      ordered := [];
      while remaining != {}
        invariant remaining <= options
        invariant forall v :: v in ordered <==> v in options && v !in remaining
        invariant |ordered| + |remaining| == |options|
        invariant forall i, j :: 0 <= i < j < |ordered| ==> TriedBefore(grid, ordered[i], ordered[j])
        invariant forall i, w :: 0 <= i < |ordered| && w in remaining ==> TriedBefore(grid, ordered[i], w)
        decreases |remaining|
      {
        var v := LeastTried(remaining, grid, counts);
        ordered := ordered + [v];
        remaining := remaining - {v};
      }
    }

    /** The cells of `cells` that still take `value`, gathered one by one. */
    method FindHolders(grid: Grid, cells: seq<(int, int)>, value: int) returns (possible: seq<(int, int)>)
      requires IsShape(grid) && AllCells(cells)
      ensures possible == Holders(grid, cells, value)
    {
      possible := [];
      for i := 0 to |cells|
        invariant possible == Holders(grid, cells[..i], value)
      {
        var (r, c) := cells[i];
        var opts := GetPossibleValues(grid, r, c);
        if value in opts {
          possible := possible + [(r, c)];
        }
        assert cells[..i + 1][..i] == cells[..i];
      }
      assert cells[..|cells|] == cells;
    }

    /** The naked-single pass: every empty cell met with exactly one
        candidate (in the grid as it is at that moment) gets that candidate.
        It changes the grid exactly when the grid it starts from has a naked
        single, and no solution is lost. */
    method FillNakedSingles(g: array2<int>) returns (changed: bool)
      requires g.Length0 == 9 && g.Length1 == 9
      modifies g
      ensures Narrows(old(Snap(g)), Snap(g))
      ensures changed <==> !NoNakedSingle(old(Snap(g)))
      ensures !changed ==> Snap(g) == old(Snap(g))
      ensures changed ==> |ZeroCells(Snap(g))| < |ZeroCells(old(Snap(g)))|
      ensures NakedFilled(old(Snap(g)), Snap(g))
    {
      ghost var start := Snap(g);
      NarrowsReflexive(start);
      changed := false;
      for row := 0 to 9
        invariant NakedPass(start, Snap(g), changed, Index(row, 0))
      {
        for col := 0 to 9
          invariant NakedPass(start, Snap(g), changed, Index(row, col))
        {
          var grid := Snap(g);
          if grid[row][col] == 0 {
            var possible := GetPossibleValues(grid, row, col);
            if |possible| == 1 {
              NonEmptyHasElement(possible);
              var value :| value in possible;
              Singleton(possible, value);
              Place(g, row, col, value);
              NakedPlaced(start, grid, changed, row, col, value);
              changed := true;
            } else {
              NakedSkipped(start, grid, changed, row, col);
            }
          } else {
            NakedSkipped(start, grid, changed, row, col);
          }
        }
      }
      if !changed {
        SinglesAll(start);
      }
    }

    /** The hidden-single pass over one row: when the row has more than one
        empty cell, each digit the row lacks that only one of those cells
        can take is written there. The empty cells are listed once, before
        the digits are tried, as the Python solver does. */
    method HiddenSinglesInRow(g: array2<int>, row: int) returns (changed: bool)
      requires g.Length0 == 9 && g.Length1 == 9 && 0 <= row < 9
      modifies g
      ensures Narrows(old(Snap(g)), Snap(g))
      ensures changed <==> !RowClear(old(Snap(g)), row, 10)
      ensures !changed ==> Snap(g) == old(Snap(g))
      ensures forall r :: 0 <= r < 9 && r != row ==> Snap(g)[r] == old(Snap(g))[r]
      ensures changed ==> |ZeroCells(Snap(g))| < |ZeroCells(old(Snap(g)))|
      ensures RowPlaced(old(Snap(g)), Snap(g), row, 10)
    {
      ghost var start := Snap(g);
      changed := false;
      var emptyCells := RowEmpties(Snap(g), row, 9);
      if |emptyCells| <= 1 {
        NarrowsReflexive(start);
        RowNoWork(start, row);
      } else {
        RowPassStart(start, row, emptyCells);
        for value := 1 to 10
          invariant RowPass(start, Snap(g), row, emptyCells, changed, value)
        {
          var grid := Snap(g);
          if value !in grid[row] {
            var possibleCells := FindHolders(grid, emptyCells, value);
            if |possibleCells| == 1 {
              var cell := possibleCells[0];
              RowPlacedStep(start, grid, row, emptyCells, changed, value);
              ghost var next := SetCell(grid, cell.0, cell.1, value);
              Place(g, cell.0, cell.1, value);
              assert Snap(g) == next;
              changed := true;
            } else {
              RowSkipStep(start, grid, row, emptyCells, changed, value);
            }
          } else {
            RowSkipStep(start, grid, row, emptyCells, changed, value);
          }
        }
      }
    }

    /** The hidden-single pass over the rows, top to bottom. */
    method HiddenSinglesInRows(g: array2<int>) returns (changed: bool)
      requires g.Length0 == 9 && g.Length1 == 9
      modifies g
      ensures Narrows(old(Snap(g)), Snap(g))
      ensures changed <==> !NoRowHiddenSingle(old(Snap(g)))
      ensures !changed ==> Snap(g) == old(Snap(g))
      ensures changed ==> |ZeroCells(Snap(g))| < |ZeroCells(old(Snap(g)))|
      ensures forall r :: 0 <= r < 9 ==> RowPlaced(old(Snap(g)), Snap(g), r, 10)
    {
      ghost var start := Snap(g);
      NarrowsReflexive(start);
      changed := false;
      for row := 0 to 9
        invariant RowsPass(start, Snap(g), changed, row)
      {
        ghost var before := Snap(g);
        var found := HiddenSinglesInRow(g, row);
        RowsStep(start, before, Snap(g), changed, found, row);
        changed := changed || found;
      }
    }

    /** The hidden-single pass over one column. The column's values are read
        once, before its digits are tried, as the Python solver does; the stale copy
        never matters, because a digit that only one empty cell can take is
        absent from the column as it is. */
    method HiddenSinglesInColumn(g: array2<int>, col: int) returns (changed: bool)
      requires g.Length0 == 9 && g.Length1 == 9 && 0 <= col < 9
      modifies g
      ensures Narrows(old(Snap(g)), Snap(g))
      ensures changed <==> !ColumnClear(old(Snap(g)), col, 10)
      ensures !changed ==> Snap(g) == old(Snap(g))
      ensures forall r, c :: InBounds(r, c) && c != col ==> Snap(g)[r][c] == old(Snap(g))[r][c]
      ensures changed ==> |ZeroCells(Snap(g))| < |ZeroCells(old(Snap(g)))|
      ensures ColumnPlaced(old(Snap(g)), Snap(g), col, 10)
    {
      ghost var start := Snap(g);
      changed := false;
      var emptyCells := ColumnEmpties(Snap(g), col, 9);
      if |emptyCells| <= 1 {
        NarrowsReflexive(start);
        ColumnNoWork(start, col);
      } else {
        ColumnPassStart(start, col, emptyCells);
        var columnValues := Column(Snap(g), col);
        for value := 1 to 10
          invariant ColumnPass(start, Snap(g), col, emptyCells, changed, value)
        {
          var grid := Snap(g);
          if value !in columnValues {
            var possibleCells := FindHolders(grid, emptyCells, value);
            if |possibleCells| == 1 {
              var cell := possibleCells[0];
              ColumnPlacedStep(start, grid, col, emptyCells, changed, value);
              ghost var next := SetCell(grid, cell.0, cell.1, value);
              Place(g, cell.0, cell.1, value);
              assert Snap(g) == next;
              changed := true;
            } else {
              ColumnSkipStep(start, grid, col, emptyCells, changed, value);
            }
          } else {
            ColumnSkipStep(start, grid, col, emptyCells, changed, value);
          }
        }
      }
    }

    /** The hidden-single pass over the columns, left to right. */
    method HiddenSinglesInColumns(g: array2<int>) returns (changed: bool)
      requires g.Length0 == 9 && g.Length1 == 9
      modifies g
      ensures Narrows(old(Snap(g)), Snap(g))
      ensures changed <==> !NoColumnHiddenSingle(old(Snap(g)))
      ensures !changed ==> Snap(g) == old(Snap(g))
      ensures changed ==> |ZeroCells(Snap(g))| < |ZeroCells(old(Snap(g)))|
      ensures forall c :: 0 <= c < 9 ==> ColumnPlaced(old(Snap(g)), Snap(g), c, 10)
    {
      ghost var start := Snap(g);
      NarrowsReflexive(start);
      changed := false;
      for col := 0 to 9
        invariant ColumnsPass(start, Snap(g), changed, col)
      {
        ghost var before := Snap(g);
        var found := HiddenSinglesInColumn(g, col);
        ColumnsStep(start, before, Snap(g), changed, found, col);
        changed := changed || found;
      }
    }

    /** The hidden-single technique: the row pass, then the column pass. It
        changes the grid exactly when the grid it starts from holds a hidden
        single, and no solution is lost. */
    method ApplyHiddenSingles(g: array2<int>) returns (changed: bool)
      requires g.Length0 == 9 && g.Length1 == 9
      modifies g
      ensures Narrows(old(Snap(g)), Snap(g))
      ensures changed <==> !NoHiddenSingle(old(Snap(g)))
      ensures !changed ==> Snap(g) == old(Snap(g))
      ensures changed ==> |ZeroCells(Snap(g))| < |ZeroCells(old(Snap(g)))|
      ensures forall r :: 0 <= r < 9 ==> RowPlaced(old(Snap(g)), Snap(g), r, 10)
      ensures NoRowHiddenSingle(old(Snap(g))) ==>
        forall c :: 0 <= c < 9 ==> ColumnPlaced(old(Snap(g)), Snap(g), c, 10)
    {
      ghost var start := Snap(g);
      changed := HiddenSinglesInRows(g);
      ghost var mid := Snap(g);
      var inColumns := HiddenSinglesInColumns(g);
      NarrowsTransitive(start, mid, Snap(g));
      FewerZeroCells(start, mid);
      FewerZeroCells(mid, Snap(g));
      forall r | 0 <= r < 9 ensures RowPlaced(start, Snap(g), r, 10) {
        RowPlacedRefine(start, mid, Snap(g), r, 10);
      }
      changed := changed || inColumns;
    }

    /** Propagation before the search: up to ten passes, each filling the
        naked singles and, when there were none, applying the hidden singles.
        No solution is lost, and stopping before the tenth pass means a
        fixpoint was reached. The Python solver always reports success. */
    method Preprocess(g: array2<int>) returns (done: bool, ghost passes: nat)
      requires g.Length0 == 9 && g.Length1 == 9
      modifies g
      ensures done
      ensures Narrows(old(Snap(g)), Snap(g))
      ensures 1 <= passes <= 10
      ensures passes < 10 ==> NoNakedSingle(Snap(g)) && NoHiddenSingle(Snap(g))
      ensures passes - 1 <= |ZeroCells(old(Snap(g)))| - |ZeroCells(Snap(g))|
    {
      ghost var start := Snap(g);
      NarrowsReflexive(start);
      var changed := true;
      var iterations := 0;
      while changed && iterations < 10
        invariant 0 <= iterations <= 10
        invariant iterations == 0 ==> changed
        invariant Narrows(start, Snap(g))
        invariant !changed ==> NoNakedSingle(Snap(g)) && NoHiddenSingle(Snap(g))
        invariant (if changed then iterations else iterations - 1) <= |ZeroCells(start)| - |ZeroCells(Snap(g))|
        decreases 10 - iterations
      {
        changed := false;
        iterations := iterations + 1;
        ghost var before := Snap(g);
        changed := FillNakedSingles(g);
        NarrowsTransitive(start, before, Snap(g));
        if !changed {
          changed := ApplyHiddenSingles(g);
          NarrowsTransitive(start, before, Snap(g));
        }
      }
      passes := iterations;
      return true, passes;
    }

    /** The backtracking search. It stops at once when the backtrack budget
        is used up; otherwise it picks the cell the heuristics choose, tries
        its candidates in the value order, checks consistency after each
        write (one attempt and one check each), and undoes the write after a
        failed branch (one backtrack when the branch was searched). On
        failure the grid is as it was; when the budget was never used up,
        failure means the grid has no solution. */
    method SolveRecursive(g: array2<int>) returns (ok: bool)
      requires g.Length0 == 9 && g.Length1 == 9
      modifies g, this`backtrackCount, this`attemptsCount, this`constraintChecks
      ensures ok ==> IsFull(Snap(g)) && Refines(old(Snap(g)), Snap(g))
      ensures ok ==> ValidState(Snap(g)) || Snap(g) == old(Snap(g))
      ensures InRange(old(Snap(g))) ==> InRange(Snap(g))
      ensures !ok ==> Snap(g) == old(Snap(g))
      ensures !ok && backtrackCount < maxBacktracks ==> forall s :: !IsSolution(old(Snap(g)), s)
      ensures old(backtrackCount) < maxBacktracks && IsFull(old(Snap(g))) ==> ok
      ensures old(backtrackCount) >= maxBacktracks ==>
                !ok && backtrackCount == old(backtrackCount) && attemptsCount == old(attemptsCount) &&
                constraintChecks == old(constraintChecks)
      ensures IsFull(old(Snap(g))) ==>
                backtrackCount == old(backtrackCount) && attemptsCount == old(attemptsCount) &&
                constraintChecks == old(constraintChecks)
      ensures old(backtrackCount) <= backtrackCount
      ensures constraintChecks - old(constraintChecks) == attemptsCount - old(attemptsCount)
      ensures backtrackCount - old(backtrackCount) <= attemptsCount - old(attemptsCount)
      decreases |ZeroCells(Snap(g))|, 2
    {
      if backtrackCount >= maxBacktracks {
        return false;
      }
      var grid := Snap(g);
      var cell, options := FindBestCell(grid);
      if cell.None? {
        RefinesReflexive(grid);
        return true;
      }
      var (row, col) := cell.value;
      if options == {} {
        NoCandidateNoSolution(grid, row, col);
        return false;
      }
      var ordered := GetOrderedValues(options, grid, row, col);
      forall v | v in ordered ensures 1 <= v <= 9 {
        assert v in options;
        DigitRange(v);
      }
      ok := TryInOrder(g, row, col, ordered);
      if !ok && backtrackCount < maxBacktracks {
        TriedAll(grid, row, col, ordered);
      }
    }

    /** The loop over the ordered candidates of the empty cell (row, col):
        stops at the first value whose trial solves the grid. When none
        does, the grid is as before and, while the budget lasts, no
        solution has any of `ordered` in that cell. */
    method TryInOrder(g: array2<int>, row: int, col: int, ordered: seq<int>) returns (ok: bool)
      requires g.Length0 == 9 && g.Length1 == 9 && InBounds(row, col)
      requires Snap(g)[row][col] == 0 && forall v :: v in ordered ==> 1 <= v <= 9
      modifies g, this`backtrackCount, this`attemptsCount, this`constraintChecks
      ensures ok ==> IsFull(Snap(g)) && Refines(old(Snap(g)), Snap(g)) && ValidState(Snap(g))
      ensures ok ==> (InRange(old(Snap(g))) ==> InRange(Snap(g)))
      ensures !ok ==> Snap(g) == old(Snap(g))
      ensures !ok && backtrackCount < maxBacktracks ==> Excluded(old(Snap(g)), row, col, ordered)
      ensures old(backtrackCount) <= backtrackCount
      ensures constraintChecks - old(constraintChecks) == attemptsCount - old(attemptsCount)
      ensures backtrackCount - old(backtrackCount) <= attemptsCount - old(attemptsCount)
      decreases |ZeroCells(Snap(g))|, 1
    {
      ghost var grid := Snap(g);
      for i := 0 to |ordered|
        invariant Snap(g) == grid
        invariant old(backtrackCount) <= backtrackCount
        invariant constraintChecks - old(constraintChecks) == attemptsCount - old(attemptsCount)
        invariant backtrackCount - old(backtrackCount) <= attemptsCount - old(attemptsCount)
        invariant backtrackCount < maxBacktracks ==> Excluded(grid, row, col, ordered[..i])
      {
        var value := ordered[i];
        assert value in ordered;
        var solved := TryValue(g, row, col, value);
        if solved {
          return true;
        }
        if backtrackCount < maxBacktracks {
          ExcludeValue(grid, row, col, value, ordered[..i]);
          assert ordered[..i + 1] == ordered[..i] + [value];
        }
      }
      assert ordered[..|ordered|] == ordered;
      return false;
    }

    /** One trial of the search: writes `value` into the empty cell
        (row, col), counts the attempt and, when the grid stays consistent,
        searches on from there; a failed search counts a backtrack. On
        failure the cell is emptied again, and while the budget lasts the
        grid with `value` written there has no solution. */
    method TryValue(g: array2<int>, row: int, col: int, value: int) returns (solved: bool)
      requires g.Length0 == 9 && g.Length1 == 9 && InBounds(row, col) && 1 <= value <= 9
      requires Snap(g)[row][col] == 0
      modifies g, this`backtrackCount, this`attemptsCount, this`constraintChecks
      ensures solved ==> IsFull(Snap(g)) && Refines(old(Snap(g)), Snap(g)) && ValidState(Snap(g))
      ensures solved ==> (InRange(old(Snap(g))) ==> InRange(Snap(g)))
      ensures !solved ==> Snap(g) == old(Snap(g))
      ensures !solved && backtrackCount < maxBacktracks ==>
                forall s :: !IsSolution(SetCell(old(Snap(g)), row, col, value), s)
      ensures old(backtrackCount) <= backtrackCount
      ensures constraintChecks - old(constraintChecks) == attemptsCount - old(attemptsCount)
      ensures backtrackCount - old(backtrackCount) <= attemptsCount - old(attemptsCount)
      decreases |ZeroCells(Snap(g))|, 0
    {
      ghost var grid := Snap(g);
      solved := false;
      Place(g, row, col, value);
      ghost var placed := Snap(g);
      attemptsCount := attemptsCount + 1;
      var valid := IsValidState(Snap(g));
      if valid {
        FillShrinksZeroCells(grid, row, col, value);
        solved := SolveRecursive(g);
        if solved {
          SearchStepSolved(grid, row, col, value, Snap(g));
          return;
        }
        backtrackCount := backtrackCount + 1;
      } else {
        InvalidNoSolution(placed);
      }
      Place(g, row, col, 0);
      ClearRestores(grid, row, col, value);
    }

    /** Solves a puzzle. An input that is not 9 rows of 9 cells in 0..9
        forming a consistent grid is refused (the Python solver raises ValueError)
        before the counters are reset. Otherwise the counters start from
        zero, a copy of the grid is propagated and searched, and the solved
        copy (a solution of the input) or no grid is returned; no grid
        while the budget lasted means the puzzle has no solution. */
    method Solve(grid: Grid) returns (outcome: Outcome)
      modifies this
      ensures outcome.InvalidInput? <==> !(WellFormed(grid) && ValidState(grid))
      ensures outcome.InvalidInput? ==>
                backtrackCount == old(backtrackCount) && attemptsCount == old(attemptsCount) &&
                constraintChecks == old(constraintChecks) + (if WellFormed(grid) then 1 else 0)
      ensures !outcome.InvalidInput? ==> backtrackCount <= attemptsCount == constraintChecks
      ensures !outcome.InvalidInput? && (maxBacktracks <= 0 || IsFull(grid)) ==>
                backtrackCount == 0 && attemptsCount == 0 && constraintChecks == 0
      ensures outcome.Solved? ==> IsSolution(grid, outcome.solution)
      ensures outcome.Unsolved? && backtrackCount < maxBacktracks ==> forall s :: !IsSolution(grid, s)
      ensures !outcome.InvalidInput? && maxBacktracks <= 0 ==> outcome.Unsolved?
      ensures !outcome.InvalidInput? && maxBacktracks > 0 && IsFull(grid) ==> outcome == Solved(grid)
      ensures old(Valid()) ==> Valid()
    {
      var ok := IsValidInput(grid);
      if !ok {
        return InvalidInput;
      }
      backtrackCount := 0;
      constraintChecks := 0;
      attemptsCount := 0;
      var g := Copy(grid);
      var done;
      ghost var passes;
      done, passes := Preprocess(g);
      ghost var propagated := Snap(g);
      var success := SolveRecursive(g);
      if success {
        SearchFound(grid, propagated, Snap(g));
        return Solved(Snap(g));
      }
      if backtrackCount < maxBacktracks {
        forall s ensures !IsSolution(grid, s) {
          NarrowsSameSolutions(grid, propagated, s);
        }
      }
      if IsFull(grid) {
        RefinesFull(grid, propagated);
      }
      return Unsolved;
    }

    /** The statistics query: the three counters (the solve time is not
        modelled); in a consistent solver they are ordered. */
    function GetStats(): (s: Stats)
      reads this
      ensures s.backtrackCount == backtrackCount && s.attemptsCount == attemptsCount
      ensures s.constraintChecks == constraintChecks
      ensures Valid() ==> s.backtrackCount <= s.attemptsCount <= s.constraintChecks
    {
      Stats(backtrackCount, attemptsCount, constraintChecks)
    }
  }

  // ----- the search -----

  /** The working copy of a grid (a deep copy: a fresh 9x9 array). */
  method Copy(grid: Grid) returns (g: array2<int>)
    requires IsShape(grid)
    ensures fresh(g) && g.Length0 == 9 && g.Length1 == 9 && Snap(g) == grid
  {
    g := new int[9, 9];
    for r := 0 to 9
      invariant forall i, j :: 0 <= i < r && 0 <= j < 9 ==> g[i, j] == grid[i][j]
    {
      for c := 0 to 9
        invariant forall i, j :: 0 <= i < r && 0 <= j < 9 ==> g[i, j] == grid[i][j]
        invariant forall j :: 0 <= j < c ==> g[r, j] == grid[r][j]
      {
        g[r, c] := grid[r][c];
      }
    }
    SameCells(Snap(g), grid);
  }

  /** No solution has any of `vals` at (row, col). */
  ghost predicate Excluded(g: Grid, row: int, col: int, vals: seq<int>)
    requires IsShape(g) && InBounds(row, col)
  {
    forall s :: IsSolution(g, s) ==> s[row][col] !in vals
  }

  /** An empty cell without candidates leaves no solution. */
  lemma NoCandidateNoSolution(g: Grid, row: int, col: int)
    requires IsShape(g) && InBounds(row, col) && g[row][col] == 0 && PossibleValues(g, row, col) == {}
    ensures forall s :: !IsSolution(g, s)
  {
    forall s ensures !IsSolution(g, s) {
      if IsSolution(g, s) {
        SolutionValueIsCandidate(g, s, row, col);
      }
    }
  }

  /** An inconsistent grid has no solution. */
  lemma InvalidNoSolution(g: Grid)
    requires IsShape(g) && !ValidState(g)
    ensures forall s :: !IsSolution(g, s)
  {
    forall s ensures !IsSolution(g, s) {
      if IsSolution(g, s) {
        RefinedValid(g, s);
      }
    }
  }

  /** Clearing the cell just written restores the grid. */
  lemma ClearRestores(g: Grid, row: int, col: int, v: int)
    requires IsShape(g) && InBounds(row, col) && g[row][col] == 0
    ensures SetCell(SetCell(g, row, col, v), row, col, 0) == g
  {
    SameCells(SetCell(SetCell(g, row, col, v), row, col, 0), g);
  }

  /** A solution with `v` at the empty cell (row, col) is a solution of the
      grid with `v` written there. */
  lemma SolutionWithValue(g: Grid, row: int, col: int, v: int, s: Grid)
    requires IsShape(g) && InBounds(row, col) && g[row][col] == 0 && IsSolution(g, s)
    ensures s[row][col] == v ==> IsSolution(SetCell(g, row, col, v), s)
  {
    var h := SetCell(g, row, col, v);
    if s[row][col] == v {
      forall r, c | InBounds(r, c) ensures h[r][c] == 0 || s[r][c] == h[r][c] {
        if r != row || c != col {
          assert h[r][c] == g[r][c];
        }
      }
    }
  }

  /** A value whose branch has no solution is excluded too. */
  lemma ExcludeValue(g: Grid, row: int, col: int, v: int, vals: seq<int>)
    requires IsShape(g) && InBounds(row, col) && g[row][col] == 0 && Excluded(g, row, col, vals)
    requires forall s :: !IsSolution(SetCell(g, row, col, v), s)
    ensures Excluded(g, row, col, vals + [v])
  {
    forall s | IsSolution(g, s) ensures s[row][col] !in vals + [v] {
      SolutionWithValue(g, row, col, v, s);
    }
  }

  /** When every candidate of the empty cell (row, col) is excluded, the grid
      has no solution. */
  lemma TriedAll(g: Grid, row: int, col: int, vals: seq<int>)
    requires IsShape(g) && InBounds(row, col) && g[row][col] == 0 && Excluded(g, row, col, vals)
    requires forall v :: v in PossibleValues(g, row, col) ==> v in vals
    ensures forall s :: !IsSolution(g, s)
  {
    forall s ensures !IsSolution(g, s) {
      if IsSolution(g, s) {
        SolutionValueIsCandidate(g, s, row, col);
      }
    }
  }

  /** A successful branch: writing a candidate into the empty cell made a
      consistent grid, and the search completed it to `final`. */
  lemma SearchStepSolved(grid: Grid, row: int, col: int, v: int, final: Grid)
    requires IsShape(grid) && InBounds(row, col) && grid[row][col] == 0 && 1 <= v <= 9 && IsShape(final)
    requires var placed := SetCell(grid, row, col, v);
      ValidState(placed) && IsFull(final) && Refines(placed, final) &&
      (ValidState(final) || final == placed) && (InRange(placed) ==> InRange(final))
    ensures IsFull(final) && Refines(grid, final) && ValidState(final)
    ensures InRange(grid) ==> InRange(final)
  {
    var placed := SetCell(grid, row, col, v);
    SetCellRefines(grid, row, col, v);
    RefinesTransitive(grid, placed, final);
  }

  /** A successful solve: the search completed the propagated grid, so the
      result is a solution of the input. */
  lemma SearchFound(grid: Grid, propagated: Grid, final: Grid)
    requires IsShape(grid) && IsShape(propagated) && IsShape(final)
    requires WellFormed(grid) && ValidState(grid) && Narrows(grid, propagated)
    requires IsFull(final) && Refines(propagated, final) && (ValidState(final) || final == propagated)
    requires InRange(propagated) ==> InRange(final)
    ensures IsSolution(grid, final)
    ensures IsFull(grid) ==> final == grid
  {
    RefinesTransitive(grid, propagated, final);
    if IsFull(grid) {
      RefinesFull(grid, final);
    }
  }

  // ----- propagation helpers -----

  /** Writes `v` into cell (row, col) of the working grid. */
  method Place(g: array2<int>, row: int, col: int, v: int)
    requires g.Length0 == 9 && g.Length1 == 9 && InBounds(row, col)
    modifies g
    ensures Snap(g) == SetCell(old(Snap(g)), row, col, v)
  {
    ghost var before := Snap(g);
    g[row, col] := v;
    SameCells(Snap(g), SetCell(before, row, col, v));
  }

  /** No empty cell among the first `n` in row-major order has exactly one candidate. */
  ghost predicate SinglesBefore(g: Grid, n: int)
    requires IsShape(g)
  {
    forall r, c :: InBounds(r, c) && Index(r, c) < n && g[r][c] == 0 ==> |PossibleValues(g, r, c)| != 1
  }

  /** The scan of the naked-single pass moves on by one cell. */
  lemma SinglesStep(g: Grid, row: int, col: int)
    requires IsShape(g) && InBounds(row, col) && SinglesBefore(g, Index(row, col))
    requires g[row][col] != 0 || |PossibleValues(g, row, col)| != 1
    ensures SinglesBefore(g, Index(row, col) + 1)
  {
    forall r, c | InBounds(r, c) && Index(r, c) < Index(row, col) + 1 && g[r][c] == 0
      ensures |PossibleValues(g, r, c)| != 1
    {
      if Index(r, c) == Index(row, col) {
        assert r == row && c == col;
      }
    }
  }

  /** What the naked-single pass has established once it has visited the
      cells before index `n`, starting from `start`: no solution lost; when
      nothing was written, the grid is `start` and none of those cells was
      a naked single; when something was, `start` had a naked single and
      fewer cells are empty; and every naked single of `start` among those
      cells is settled. */
  ghost predicate NakedPass(start: Grid, grid: Grid, changed: bool, n: int)
    requires IsShape(start) && IsShape(grid)
  {
    Narrows(start, grid) &&
    (!changed ==> grid == start && SinglesBefore(start, n)) &&
    (changed ==> !NoNakedSingle(start) && |ZeroCells(grid)| < |ZeroCells(start)|) &&
    NakedFilledBefore(start, grid, n)
  }

  /** The pass writes the only candidate of (row, col). */
  lemma NakedPlaced(start: Grid, grid: Grid, changed: bool, row: int, col: int, v: int)
    requires IsShape(start) && IsShape(grid) && InBounds(row, col)
    requires NakedPass(start, grid, changed, Index(row, col))
    requires grid[row][col] == 0 && PossibleValues(grid, row, col) == {v}
    ensures NakedPass(start, SetCell(grid, row, col, v), true, Index(row, col) + 1)
  {
    var h := SetCell(grid, row, col, v);
    NakedSingle(grid, row, col, v);
    NarrowsTransitive(start, grid, h);
    NakedFilledRefine(start, grid, h, Index(row, col));
    PlaceProgress(start, grid, row, col, v);
    NakedFilledExtend(start, h, row, col);
    if !changed {
      assert !NoNakedSingle(start) by {
        assert start[row][col] == 0 && |PossibleValues(start, row, col)| == 1;
      }
    }
  }

  /** The pass leaves (row, col) alone: it is filled, or its candidates
      are not exactly one. */
  lemma NakedSkipped(start: Grid, grid: Grid, changed: bool, row: int, col: int)
    requires IsShape(start) && IsShape(grid) && InBounds(row, col)
    requires NakedPass(start, grid, changed, Index(row, col))
    requires grid[row][col] != 0 || |PossibleValues(grid, row, col)| != 1
    ensures NakedPass(start, grid, changed, Index(row, col) + 1)
  {
    if grid[row][col] == 0 && start[row][col] == 0 && |PossibleValues(start, row, col)| == 1 {
      NakedCell(start, grid, row, col);
    }
    NakedFilledExtend(start, grid, row, col);
    if !changed {
      SinglesStep(start, row, col);
    }
  }

  /** Past the last cell, the scan has covered the whole grid. */
  lemma SinglesAll(g: Grid)
    requires IsShape(g) && SinglesBefore(g, 81)
    ensures NoNakedSingle(g)
  {
    forall r, c | InBounds(r, c) && g[r][c] == 0 ensures |PossibleValues(g, r, c)| != 1 {
      assert Index(r, c) < 81;
    }
  }

  /** One placement of the row pass: the only holder of `v` among the row's
      listed empty cells is a cell of the row with `v` as a candidate;
      writing `v` there loses no solution and keeps the row's empty cells
      listed; and when nothing has changed yet, `v` is a hidden single of
      the row in the grid the pass started from. */
  lemma RowHiddenStep(start: Grid, grid: Grid, row: int, cells: seq<(int, int)>, v: int)
    requires IsShape(start) && IsShape(grid) && 0 <= row < 9 && 1 <= v <= 9
    requires cells == RowEmpties(start, row, 9) && |cells| > 1 && RowListed(grid, row, cells)
    requires v !in grid[row] && |Holders(grid, cells, v)| == 1
    ensures var p := Holders(grid, cells, v)[0];
      InBounds(p.0, p.1) && p.0 == row && grid[p.0][p.1] == 0 && Narrows(grid, SetCell(grid, p.0, p.1, v)) &&
      RowListed(SetCell(grid, p.0, p.1, v), row, cells) &&
      (grid == start ==> !RowClear(start, row, 10))
  {
    var p := Holders(grid, cells, v)[0];
    assert p in Holders(grid, cells, v);
    HiddenSingleInRow(grid, row, cells, v);
    var h := SetCell(grid, p.0, p.1, v);
    forall c | 0 <= c < 9 && h[row][c] == 0 ensures (row, c) in cells {
      assert grid[row][c] == 0;
    }
    if grid == start {
      assert RowHiddenSingle(start, row, v);
    }
  }

  /** The same for a column. */
  lemma ColumnHiddenStep(start: Grid, grid: Grid, col: int, cells: seq<(int, int)>, v: int)
    requires IsShape(start) && IsShape(grid) && 0 <= col < 9 && 1 <= v <= 9
    requires cells == ColumnEmpties(start, col, 9) && |cells| > 1 && ColumnListed(grid, col, cells)
    requires |Holders(grid, cells, v)| == 1
    requires grid == start ==> v !in Column(start, col)
    ensures var p := Holders(grid, cells, v)[0];
      InBounds(p.0, p.1) && p.1 == col && grid[p.0][p.1] == 0 && Narrows(grid, SetCell(grid, p.0, p.1, v)) &&
      ColumnListed(SetCell(grid, p.0, p.1, v), col, cells) &&
      (grid == start ==> !ColumnClear(start, col, 10))
  {
    var p := Holders(grid, cells, v)[0];
    assert p in Holders(grid, cells, v);
    HiddenSingleInColumn(grid, col, cells, v);
    var h := SetCell(grid, p.0, p.1, v);
    forall r | 0 <= r < 9 && h[r][col] == 0 ensures (r, col) in cells {
      assert grid[r][col] == 0;
    }
    if grid == start {
      assert ColumnHiddenSingle(start, col, v);
    }
  }

  /** What the pass over row `row` has established once it has tried the
      digits below `n`, starting from `start`: no solution lost, the row's
      empty cells still listed, the other rows untouched; when nothing was
      written, the grid is `start` and none of those digits was a hidden
      single; when something was, one was and fewer cells are empty; and
      every hidden single of the row among those digits is settled. */
  ghost predicate RowPass(start: Grid, grid: Grid, row: int, cells: seq<(int, int)>, changed: bool, n: int)
    requires IsShape(start) && IsShape(grid) && 0 <= row < 9
  {
    Narrows(start, grid) && RowListed(grid, row, cells) &&
    (forall r :: 0 <= r < 9 && r != row ==> grid[r] == start[r]) &&
    (!changed ==> grid == start && RowClear(start, row, n)) &&
    (changed ==> !RowClear(start, row, 10) && |ZeroCells(grid)| < |ZeroCells(start)|) &&
    RowPlaced(start, grid, row, n)
  }

  /** What the pass over the rows has established once it has visited the
      rows before `n`, starting from `start`: no solution lost, the rows from
      `n` on untouched; when nothing was written, the grid is `start` and
      none of those rows had a hidden single; when something was, one had
      and fewer cells are empty; and every hidden single of those rows is
      settled. */
  ghost predicate RowsPass(start: Grid, grid: Grid, changed: bool, n: int)
    requires IsShape(start) && IsShape(grid) && 0 <= n <= 9
  {
    Narrows(start, grid) &&
    (forall r :: n <= r < 9 ==> grid[r] == start[r]) &&
    (!changed ==> grid == start && RowsClear(start, n)) &&
    (changed ==> !NoRowHiddenSingle(start) && |ZeroCells(grid)| < |ZeroCells(start)|) &&
    (forall r :: 0 <= r < n ==> RowPlaced(start, grid, r, 10))
  }

  /** The pass over row `row` takes the grid from `before` to `after`. */
  lemma RowsStep(start: Grid, before: Grid, after: Grid, changed: bool, found: bool, row: int)
    requires IsShape(start) && IsShape(before) && IsShape(after) && 0 <= row < 9
    requires RowsPass(start, before, changed, row)
    requires Narrows(before, after) && (found <==> !RowClear(before, row, 10)) && (!found ==> after == before)
    requires (forall r :: 0 <= r < 9 && r != row ==> after[r] == before[r])
    requires (found ==> |ZeroCells(after)| < |ZeroCells(before)|) && RowPlaced(before, after, row, 10)
    ensures RowsPass(start, after, changed || found, row + 1)
  {
    NarrowsTransitive(start, before, after);
    RowPlacedThrough(start, before, after, row);
    forall r | 0 <= r < row ensures RowPlaced(start, after, r, 10) {
      RowPlacedRefine(start, before, after, r, 10);
    }
    FewerZeroCells(start, before);
    FewerZeroCells(before, after);
    if !changed && !found {
      RowsClearStep(start, row);
    }
  }

  /** Before any digit is tried. */
  lemma RowPassStart(start: Grid, row: int, cells: seq<(int, int)>)
    requires IsShape(start) && 0 <= row < 9 && cells == RowEmpties(start, row, 9)
    ensures RowPass(start, start, row, cells, false, 1)
  {
    NarrowsReflexive(start);
  }

  /** The row pass writes `v` into its only holder. */
  lemma RowPlacedStep(start: Grid, grid: Grid, row: int, cells: seq<(int, int)>, changed: bool, v: int)
    requires IsShape(start) && IsShape(grid) && 0 <= row < 9 && 1 <= v <= 9
    requires cells == RowEmpties(start, row, 9) && |cells| > 1
    requires RowPass(start, grid, row, cells, changed, v)
    requires v !in grid[row] && |Holders(grid, cells, v)| == 1
    ensures var p := Holders(grid, cells, v)[0];
      InBounds(p.0, p.1) && RowPass(start, SetCell(grid, p.0, p.1, v), row, cells, true, v + 1)
  {
    var p := Holders(grid, cells, v)[0];
    RowHiddenStep(start, grid, row, cells, v);
    var h := SetCell(grid, p.0, p.1, v);
    NarrowsTransitive(start, grid, h);
    PlaceProgress(start, grid, p.0, p.1, v);
    RowPlacedRefine(start, grid, h, row, v);
    assert h[row][p.1] == v;
    RowPlacedExtend(start, h, row, v);
  }

  /** The row pass writes nothing for `v`. */
  lemma RowSkipStep(start: Grid, grid: Grid, row: int, cells: seq<(int, int)>, changed: bool, v: int)
    requires IsShape(start) && IsShape(grid) && 0 <= row < 9 && 1 <= v <= 9
    requires cells == RowEmpties(start, row, 9) && |cells| > 1
    requires RowPass(start, grid, row, cells, changed, v)
    requires v in grid[row] || |Holders(grid, cells, v)| != 1
    ensures RowPass(start, grid, row, cells, changed, v + 1)
  {
    RowSkipSettled(start, grid, row, cells, v);
    RowPlacedExtend(start, grid, row, v);
    if !changed {
      assert !RowHiddenSingle(start, row, v);
      RowClearStep(start, row, v);
    }
  }

  /** The column counterpart of `RowPass`. */
  ghost predicate ColumnPass(start: Grid, grid: Grid, col: int, cells: seq<(int, int)>, changed: bool, n: int)
    requires IsShape(start) && IsShape(grid) && 0 <= col < 9
  {
    Narrows(start, grid) && ColumnListed(grid, col, cells) &&
    (forall r, c :: InBounds(r, c) && c != col ==> grid[r][c] == start[r][c]) &&
    (!changed ==> grid == start && ColumnClear(start, col, n)) &&
    (changed ==> !ColumnClear(start, col, 10) && |ZeroCells(grid)| < |ZeroCells(start)|) &&
    ColumnPlaced(start, grid, col, n)
  }

  /** The column counterpart of `RowsPass`. */
  ghost predicate ColumnsPass(start: Grid, grid: Grid, changed: bool, n: int)
    requires IsShape(start) && IsShape(grid) && 0 <= n <= 9
  {
    Narrows(start, grid) &&
    (forall r, c :: InBounds(r, c) && n <= c ==> grid[r][c] == start[r][c]) &&
    (!changed ==> grid == start && ColumnsClear(start, n)) &&
    (changed ==> !NoColumnHiddenSingle(start) && |ZeroCells(grid)| < |ZeroCells(start)|) &&
    (forall c :: 0 <= c < n ==> ColumnPlaced(start, grid, c, 10))
  }

  /** The pass over column `col` takes the grid from `before` to `after`. */
  lemma ColumnsStep(start: Grid, before: Grid, after: Grid, changed: bool, found: bool, col: int)
    requires IsShape(start) && IsShape(before) && IsShape(after) && 0 <= col < 9
    requires ColumnsPass(start, before, changed, col)
    requires Narrows(before, after) && (found <==> !ColumnClear(before, col, 10)) && (!found ==> after == before)
    requires (forall r, c :: InBounds(r, c) && c != col ==> after[r][c] == before[r][c])
    requires (found ==> |ZeroCells(after)| < |ZeroCells(before)|) && ColumnPlaced(before, after, col, 10)
    ensures ColumnsPass(start, after, changed || found, col + 1)
  {
    NarrowsTransitive(start, before, after);
    ColumnPlacedThrough(start, before, after, col);
    forall c | 0 <= c < col ensures ColumnPlaced(start, after, c, 10) {
      ColumnPlacedRefine(start, before, after, c, 10);
    }
    FewerZeroCells(start, before);
    FewerZeroCells(before, after);
    if !changed && !found {
      ColumnsClearStep(start, col);
    }
  }

  /** Before any digit is tried. */
  lemma ColumnPassStart(start: Grid, col: int, cells: seq<(int, int)>)
    requires IsShape(start) && 0 <= col < 9 && cells == ColumnEmpties(start, col, 9)
    ensures ColumnPass(start, start, col, cells, false, 1)
  {
    NarrowsReflexive(start);
  }

  /** The column pass writes `v` into its only holder; `v` is tested
      against the column as it was when the pass began. */
  lemma ColumnPlacedStep(start: Grid, grid: Grid, col: int, cells: seq<(int, int)>, changed: bool, v: int)
    requires IsShape(start) && IsShape(grid) && 0 <= col < 9 && 1 <= v <= 9
    requires cells == ColumnEmpties(start, col, 9) && |cells| > 1
    requires ColumnPass(start, grid, col, cells, changed, v)
    requires v !in Column(start, col) && |Holders(grid, cells, v)| == 1
    ensures var p := Holders(grid, cells, v)[0];
      InBounds(p.0, p.1) && ColumnPass(start, SetCell(grid, p.0, p.1, v), col, cells, true, v + 1)
  {
    var p := Holders(grid, cells, v)[0];
    ColumnHiddenStep(start, grid, col, cells, v);
    var h := SetCell(grid, p.0, p.1, v);
    NarrowsTransitive(start, grid, h);
    PlaceProgress(start, grid, p.0, p.1, v);
    ColumnPlacedRefine(start, grid, h, col, v);
    assert Column(h, col)[p.0] == v;
    ColumnPlacedExtend(start, h, col, v);
  }

  /** The column pass writes nothing for `v`. */
  lemma ColumnSkipStep(start: Grid, grid: Grid, col: int, cells: seq<(int, int)>, changed: bool, v: int)
    requires IsShape(start) && IsShape(grid) && 0 <= col < 9 && 1 <= v <= 9
    requires cells == ColumnEmpties(start, col, 9) && |cells| > 1
    requires ColumnPass(start, grid, col, cells, changed, v)
    requires v in Column(start, col) || |Holders(grid, cells, v)| != 1
    ensures ColumnPass(start, grid, col, cells, changed, v + 1)
  {
    ColumnSkipSettled(start, grid, col, cells, v);
    ColumnPlacedExtend(start, grid, col, v);
    if !changed {
      assert !ColumnHiddenSingle(start, col, v);
      ColumnClearStep(start, col, v);
    }
  }

  // ----- the value order -----

  /** The count recorded for `v`, 0 when it has none. */
  function Get(counts: map<int, nat>, v: int): nat {
    if v in counts then counts[v] else 0
  }

  /** `counts` records how often each nonzero value occurs in `cells`, and
      nothing for 0. */
  ghost predicate Tally(counts: map<int, nat>, cells: seq<int>) {
    0 !in counts && forall v :: v != 0 ==> Get(counts, v) == multiset(cells)[v]
  }

  /** How often each nonzero value occurs in the grid, counted cell by cell. */
  method CountValues(grid: Grid) returns (counts: map<int, nat>)
    requires IsShape(grid)
    ensures Tally(counts, Flatten(grid))
  {
    counts := map[];
    for r := 0 to 9
      invariant Tally(counts, Flatten(grid[..r]))
    {
      ghost var done := Flatten(grid[..r]);
      for c := 0 to 9
        invariant Tally(counts, done + grid[r][..c])
      {
        var val := grid[r][c];
        TallyCell(counts, done, grid[r], c);
        if val != 0 {
          counts := counts[val := Get(counts, val) + 1];
        }
      }
      FlattenNextRow(grid, r);
    }
    assert grid[..9] == grid;
  }

  /** The flattened prefix grows by one whole row. */
  lemma FlattenNextRow(grid: Grid, r: int)
    requires 0 <= r < |grid|
    ensures Flatten(grid[..r + 1]) == Flatten(grid[..r]) + grid[r][..|grid[r]|]
  {
    assert grid[..r + 1][..r] == grid[..r];
  }

  /** Counting cell `c` of a row extends the counted prefix of the row by one. */
  lemma TallyCell(counts: map<int, nat>, done: seq<int>, row: seq<int>, c: int)
    requires 0 <= c < |row| && Tally(counts, done + row[..c])
    ensures row[c] != 0 ==> Tally(counts[row[c] := Get(counts, row[c]) + 1], done + row[..c + 1])
    ensures row[c] == 0 ==> Tally(counts, done + row[..c + 1])
  {
    assert done + row[..c + 1] == done + row[..c] + [row[c]];
    TallyStep(counts, done + row[..c], row[c]);
  }

  /** Counting one more cell. */
  lemma TallyStep(counts: map<int, nat>, cells: seq<int>, x: int)
    requires Tally(counts, cells)
    ensures x != 0 ==> Tally(counts[x := Get(counts, x) + 1], cells + [x])
    ensures x == 0 ==> Tally(counts, cells + [x])
  {
    assert multiset(cells + [x]) == multiset(cells) + multiset{x};
  }

  /** A tally of the whole grid gives each value's frequency. */
  lemma TallyFrequency(counts: map<int, nat>, grid: Grid)
    requires Tally(counts, Flatten(grid))
    ensures forall v :: Get(counts, v) == Frequency(grid, v)
  {
  }

  /** The value of `s` tried first. */
  method LeastTried(s: set<int>, grid: Grid, counts: map<int, nat>) returns (v: int)
    requires s != {} && Tally(counts, Flatten(grid))
    ensures v in s && forall w :: w in s && w != v ==> TriedBefore(grid, v, w)
  {
    TallyFrequency(counts, grid);
    NonEmptyHasElement(s);
    v :| v in s;
    var rest := s - {v};
    while rest != {}
      invariant rest <= s && v in s && v !in rest
      invariant forall w :: w in s && w !in rest && w != v ==> TriedBefore(grid, v, w)
      decreases |rest|
    {
      NonEmptyHasElement(rest);
      var w :| w in rest;
      if Get(counts, w) < Get(counts, v) || (Get(counts, w) == Get(counts, v) && w < v) {
        v := w;
      }
      rest := rest - {w};
    }
  }

  lemma HeadIn(s: seq<int>)
    ensures s == [] || s[0] in s
  {
  }

  /** The head of a sequence in strict try order comes before every other element. */
  lemma HeadFirst(grid: Grid, a: seq<int>, v: int)
    requires forall i, j :: 0 <= i < j < |a| ==> TriedBefore(grid, a[i], a[j])
    requires v in a
    ensures v == a[0] || TriedBefore(grid, a[0], v)
  {
    var k :| 0 <= k < |a| && a[k] == v;
    if k != 0 {
      assert TriedBefore(grid, a[0], a[k]);
    }
  }

  /** The try order is determined: two sequences of the same values, each in
      strict try order, are equal. */
  lemma {:induction false} TryOrderUnique(grid: Grid, a: seq<int>, b: seq<int>)
    requires forall v :: v in a <==> v in b
    requires forall i, j :: 0 <= i < j < |a| ==> TriedBefore(grid, a[i], a[j])
    requires forall i, j :: 0 <= i < j < |b| ==> TriedBefore(grid, b[i], b[j])
    ensures a == b
    decreases |a|
  {
    if a == [] {
      assert forall v :: v !in b;
      HeadIn(b);
    } else {
      assert a[0] in a && a[0] in b && |b| > 0;
      assert b[0] in b;
      HeadFirst(grid, a, b[0]);
      HeadFirst(grid, b, a[0]);
      assert a[0] == b[0];
      forall v ensures v in a[1..] <==> v in b[1..] {
        if v in a[1..] {
          var k :| 1 <= k < |a| && a[k] == v;
          assert TriedBefore(grid, a[0], a[k]) && v in a && v in b;
          var n :| 0 <= n < |b| && b[n] == v;
          assert n != 0 && b[1..][n - 1] == v;
        }
        if v in b[1..] {
          var k :| 1 <= k < |b| && b[k] == v;
          assert TriedBefore(grid, b[0], b[k]) && v in b && v in a;
          var n :| 0 <= n < |a| && a[n] == v;
          assert n != 0 && a[1..][n - 1] == v;
        }
      }
      TryOrderUnique(grid, a[1..], b[1..]);
      assert a == [a[0]] + a[1..] && b == [b[0]] + b[1..];
    }
  }

  /** The state of the cell scan at scan point (row, col): the smallest
      candidate count met so far (10 before any empty cell) and the list of
      empty cells met so far that have that many candidates. */
  ghost predicate Scanned(grid: Grid, t: seq<seq<set<int>>>, row: int, col: int, minOptions: int, candidates: seq<(int, int, set<int>)>)
    requires IsShape(grid)
  {
    && IsTable(t) && ScanPoint(row, col)
    && 0 <= minOptions <= 10
    && candidates == Tied(grid, t, row, col, minOptions)
    && (minOptions < 10 ==> |candidates| >= 1)
    && (minOptions == 0 ==> |candidates| == 1)
    && forall r, c :: InBounds(r, c) && Index(r, c) < Index(row, col) && grid[r][c] == 0 ==> minOptions <= |t[r][c]|
  }

  /** An empty cell with fewer candidates than the minimum so far starts a new tie list. */
  lemma ScanNewMinimum(grid: Grid, t: seq<seq<set<int>>>, row: int, col: int, m: int, candidates: seq<(int, int, set<int>)>)
    requires IsShape(grid) && Scanned(grid, t, row, col, m, candidates) && InBounds(row, col)
    requires grid[row][col] == 0 && |t[row][col]| < m
    ensures Scanned(grid, t, row, col + 1, |t[row][col]|, [(row, col, t[row][col])])
  {
    var n := |t[row][col]|;
    TiedEmpty(grid, t, row, col, n);
    assert Tied(grid, t, row, col + 1, n) == [(row, col, t[row][col])];
    forall r, c | InBounds(r, c) && Index(r, c) < Index(row, col + 1) && grid[r][c] == 0
      ensures n <= |t[r][c]|
    {
      if r != row || c != col {
        assert Index(r, c) < Index(row, col);
      }
    }
  }

  /** An empty cell with as many candidates as the minimum joins the tie list. */
  lemma ScanTie(grid: Grid, t: seq<seq<set<int>>>, row: int, col: int, m: int, candidates: seq<(int, int, set<int>)>)
    requires IsShape(grid) && Scanned(grid, t, row, col, m, candidates) && InBounds(row, col)
    requires grid[row][col] == 0 && |t[row][col]| == m && 0 < m < 10
    ensures Scanned(grid, t, row, col + 1, m, candidates + [(row, col, t[row][col])])
  {
    assert Tied(grid, t, row, col + 1, m) == candidates + [(row, col, t[row][col])];
    forall r, c | InBounds(r, c) && Index(r, c) < Index(row, col + 1) && grid[r][c] == 0
      ensures m <= |t[r][c]|
    {
      if r != row || c != col {
        assert Index(r, c) < Index(row, col);
      }
    }
  }

  /** A filled cell, or one with more candidates than the minimum, changes nothing. */
  lemma ScanSkip(grid: Grid, t: seq<seq<set<int>>>, row: int, col: int, m: int, candidates: seq<(int, int, set<int>)>)
    requires IsShape(grid) && Scanned(grid, t, row, col, m, candidates) && InBounds(row, col)
    requires grid[row][col] != 0 || |t[row][col]| > m
    ensures Scanned(grid, t, row, col + 1, m, candidates)
  {
    assert Tied(grid, t, row, col + 1, m) == candidates;
    forall r, c | InBounds(r, c) && Index(r, c) < Index(row, col + 1) && grid[r][c] == 0
      ensures m <= |t[r][c]|
    {
      if r != row || c != col {
        assert Index(r, c) < Index(row, col);
      }
    }
  }

  lemma ScanNextRow(grid: Grid, t: seq<seq<set<int>>>, row: int, m: int, candidates: seq<(int, int, set<int>)>)
    requires IsShape(grid) && 0 <= row < 9 && Scanned(grid, t, row, 9, m, candidates)
    ensures Scanned(grid, t, row + 1, 0, m, candidates)
  {
  }

  /** At the end of the scan the tie list is empty exactly when the grid is
      full, and otherwise holds the cells with the fewest candidates. */
  lemma ScanDone(grid: Grid, t: seq<seq<set<int>>>, m: int, candidates: seq<(int, int, set<int>)>)
    requires IsShape(grid) && Scanned(grid, t, 9, 0, m, candidates)
    requires forall r, c :: InBounds(r, c) ==> |t[r][c]| <= 9
    ensures candidates == [] <==> IsFull(grid)
    ensures candidates != [] ==> m < 10 && candidates == Tied(grid, t, 9, 0, m)
    ensures forall r, c :: InBounds(r, c) && grid[r][c] == 0 ==> m <= |t[r][c]|
    ensures AllInBounds(candidates)
  {
    forall k | 0 <= k < |candidates| ensures InBounds(candidates[k].0, candidates[k].1) {
      TiedElement(grid, t, 9, 0, m, k);
    }
    forall r, c | InBounds(r, c) && grid[r][c] == 0 ensures m <= |t[r][c]| {
      assert Index(r, c) < Index(9, 0);
    }
    if candidates != [] {
      TiedElement(grid, t, 9, 0, m, 0);
    } else {
      assert m == 10;
    }
  }

  predicate AllInBounds(candidates: seq<(int, int, set<int>)>) {
    forall k :: 0 <= k < |candidates| ==> InBounds(candidates[k].0, candidates[k].1)
  }

  /** The degree of the `k`-th candidate. */
  function DegreeAt(grid: Grid, candidates: seq<(int, int, set<int>)>, k: int): nat
    requires IsShape(grid) && AllInBounds(candidates) && 0 <= k < |candidates|
  {
    Degree(grid, candidates[k].0, candidates[k].1)
  }

  /** The `k`-th candidate has the largest degree, and every earlier one a smaller degree. */
  predicate FirstMaximum(grid: Grid, candidates: seq<(int, int, set<int>)>, k: int)
    requires IsShape(grid) && AllInBounds(candidates) && 0 <= k < |candidates|
  {
    forall j :: 0 <= j < |candidates| ==>
      DegreeAt(grid, candidates, j) <= DegreeAt(grid, candidates, k) &&
      (j < k ==> DegreeAt(grid, candidates, j) < DegreeAt(grid, candidates, k))
  }

  /** No empty cell has fewer candidates than (row, col), where `t` gives
      the candidate set of every cell. */
  ghost predicate FewestCandidates(grid: Grid, t: seq<seq<set<int>>>, row: int, col: int)
    requires IsShape(grid) && IsTable(t) && InBounds(row, col)
  {
    forall r, c :: InBounds(r, c) && grid[r][c] == 0 ==> |t[row][col]| <= |t[r][c]|
  }

  /** Among the empty cells with as many candidates as (row, col), none has a
      larger degree, and each one earlier in row-major order a smaller one. */
  ghost predicate MostConstraining(grid: Grid, t: seq<seq<set<int>>>, row: int, col: int)
    requires IsShape(grid) && IsTable(t) && InBounds(row, col)
  {
    forall r, c :: InBounds(r, c) && grid[r][c] == 0 && |t[r][c]| == |t[row][col]| ==>
      && Degree(grid, r, c) <= Degree(grid, row, col)
      && (Index(r, c) < Index(row, col) ==> Degree(grid, r, c) < Degree(grid, row, col))
  }

  /** (row, col) is the only empty cell without candidates, or the second one
      in row-major order. */
  ghost predicate ChosenDeadEnd(grid: Grid, t: seq<seq<set<int>>>, row: int, col: int)
    requires IsShape(grid) && IsTable(t)
  {
    var d := Tied(grid, t, 9, 0, 0);
    (|d| == 1 && (row, col) == (d[0].0, d[0].1)) || (|d| >= 2 && (row, col) == (d[1].0, d[1].1))
  }

  /** A dead end met when exactly one dead end lies before it is the second one. */
  lemma SecondDeadEnd(grid: Grid, t: seq<seq<set<int>>>, row: int, col: int)
    requires IsShape(grid) && IsTable(t) && InBounds(row, col) && grid[row][col] == 0 && |t[row][col]| == 0
    requires |Tied(grid, t, row, col, 0)| == 1
    ensures ChosenDeadEnd(grid, t, row, col)
  {
    TiedComplete(grid, t, 9, 0, 0, row, col);
    var d := Tied(grid, t, 9, 0, 0);
    var k :| 0 <= k < |d| && d[k].0 == row && d[k].1 == col;
    TiedPrefix(grid, t, 9, 0, 0, k);
    assert d[..k] == Tied(grid, t, row, col, 0);
    assert k == 1;
  }

  /** The degree winner among all cells tied on `m` candidates is the most constraining cell. */
  lemma DegreeChoiceIsBest(grid: Grid, t: seq<seq<set<int>>>, m: int, k: int)
    requires IsShape(grid) && IsTable(t)
    requires var cs := Tied(grid, t, 9, 0, m);
      AllInBounds(cs) && 0 <= k < |cs| && FirstMaximum(grid, cs, k)
    ensures var cs := Tied(grid, t, 9, 0, m); MostConstraining(grid, t, cs[k].0, cs[k].1)
  {
    var cs := Tied(grid, t, 9, 0, m);
    TiedElement(grid, t, 9, 0, m, k);
    var (row, col, o) := cs[k];
    forall r, c | InBounds(r, c) && grid[r][c] == 0 && |t[r][c]| == |t[row][col]|
      ensures Degree(grid, r, c) <= Degree(grid, row, col) &&
        (Index(r, c) < Index(row, col) ==> Degree(grid, r, c) < Degree(grid, row, col))
    {
      DegreeChoiceBeats(grid, t, m, k, r, c);
    }
  }

  /** One tied cell against the degree winner. */
  lemma DegreeChoiceBeats(grid: Grid, t: seq<seq<set<int>>>, m: int, k: int, r: int, c: int)
    requires IsShape(grid) && IsTable(t)
    requires var cs := Tied(grid, t, 9, 0, m);
      AllInBounds(cs) && 0 <= k < |cs| && FirstMaximum(grid, cs, k) && |cs[k].2| == m
    requires InBounds(r, c) && grid[r][c] == 0 && |t[r][c]| == m
    ensures var cs := Tied(grid, t, 9, 0, m);
      Degree(grid, r, c) <= Degree(grid, cs[k].0, cs[k].1) &&
      (Index(r, c) < Index(cs[k].0, cs[k].1) ==> Degree(grid, r, c) < Degree(grid, cs[k].0, cs[k].1))
  {
    var cs := Tied(grid, t, 9, 0, m);
    TiedComplete(grid, t, 9, 0, m, r, c);
    var j :| 0 <= j < |cs| && cs[j].0 == r && cs[j].1 == c;
    if k < j {
      TiedOrdered(grid, t, 9, 0, m, k, j);
    }
    FirstMaximumBeats(grid, cs, k, j);
  }

  /** Against the first maximum, an entry never has a larger degree, and an
      entry placed earlier in row-major order has a smaller one. */
  lemma FirstMaximumBeats(grid: Grid, cs: seq<(int, int, set<int>)>, k: int, j: int)
    requires IsShape(grid) && AllInBounds(cs) && 0 <= k < |cs| && 0 <= j < |cs| && FirstMaximum(grid, cs, k)
    requires k < j ==> Index(cs[k].0, cs[k].1) < Index(cs[j].0, cs[j].1)
    ensures DegreeAt(grid, cs, j) <= DegreeAt(grid, cs, k)
    ensures Index(cs[j].0, cs[j].1) < Index(cs[k].0, cs[k].1) ==> DegreeAt(grid, cs, j) < DegreeAt(grid, cs, k)
  {
  }

  /** When a single cell is tied on `m` candidates, it is the most
      constraining cell, and with no candidates it is the only dead end. */
  lemma OnlyTiedIsBest(grid: Grid, t: seq<seq<set<int>>>, m: int)
    requires IsShape(grid) && IsTable(t)
    requires |Tied(grid, t, 9, 0, m)| == 1
    ensures var cs := Tied(grid, t, 9, 0, m);
      InBounds(cs[0].0, cs[0].1) && MostConstraining(grid, t, cs[0].0, cs[0].1) &&
      (m == 0 ==> ChosenDeadEnd(grid, t, cs[0].0, cs[0].1))
  {
    var cs := Tied(grid, t, 9, 0, m);
    TiedElement(grid, t, 9, 0, m, 0);
    var (row, col, o) := cs[0];
    forall r, c | InBounds(r, c) && grid[r][c] == 0 && |t[r][c]| == |t[row][col]|
      ensures r == row && c == col
    {
      TiedComplete(grid, t, 9, 0, m, r, c);
      var k :| 0 <= k < |cs| && cs[k].0 == r && cs[k].1 == c;
      assert k == 0;
    }
  }

  /** Appending a value adds it to the values of a sequence. */
  lemma ValuesSnoc(s: seq<int>, t: seq<int>, v: int)
    requires t == s + [v]
    ensures (set x | x in t) == (set x | x in s) + {v}
  {
  }

  /** The values of the first `m` cells of row `r` from column `c0` on. */
  ghost function RowPart(grid: Grid, r: int, c0: int, m: int): set<int>
    requires IsShape(grid) && 0 <= r < 9 && 0 <= c0 && 0 <= m && c0 + m <= 9
  {
    if m == 0 then {} else RowPart(grid, r, c0, m - 1) + {grid[r][c0 + m - 1]}
  }

  /** The values of the first `n` three-cell row pieces of the block with corner (r0, c0). */
  ghost function BoxPart(grid: Grid, r0: int, c0: int, n: int): set<int>
    requires IsShape(grid) && 0 <= r0 && 0 <= n && r0 + n <= 9 && 0 <= c0 <= 6
  {
    if n == 0 then {} else BoxPart(grid, r0, c0, n - 1) + RowPart(grid, r0 + n - 1, c0, 3)
  }

  /** A three-cell row piece holds its three values. */
  lemma RowPartThree(grid: Grid, r: int, c0: int)
    requires IsShape(grid) && 0 <= r < 9 && 0 <= c0 <= 6
    ensures RowPart(grid, r, c0, 3) == {grid[r][c0], grid[r][c0 + 1], grid[r][c0 + 2]}
  {
    assert RowPart(grid, r, c0, 1) == {grid[r][c0]};
    assert RowPart(grid, r, c0, 2) == {grid[r][c0], grid[r][c0 + 1]};
  }

  /** The whole block is the set of the box's values. */
  lemma BoxPartIsBox(grid: Grid, br: int, bc: int)
    requires IsShape(grid) && 0 <= br < 3 && 0 <= bc < 3
    ensures BoxPart(grid, 3 * br, 3 * bc, 3) == set x | x in Box(grid, br, bc)
  {
    var r0, c0 := 3 * br, 3 * bc;
    var b := Box(grid, br, bc);
    assert BoxPart(grid, r0, c0, 1) == RowPart(grid, r0, c0, 3);
    assert BoxPart(grid, r0, c0, 2) == RowPart(grid, r0, c0, 3) + RowPart(grid, r0 + 1, c0, 3);
    RowPartThree(grid, r0, c0);
    RowPartThree(grid, r0 + 1, c0);
    RowPartThree(grid, r0 + 2, c0);
    assert b == [grid[r0][c0], grid[r0][c0 + 1], grid[r0][c0 + 2],
                 grid[r0 + 1][c0], grid[r0 + 1][c0 + 1], grid[r0 + 1][c0 + 2],
                 grid[r0 + 2][c0], grid[r0 + 2][c0 + 1], grid[r0 + 2][c0 + 2]];
  }

  /** What the candidate query gathers, with 0 removed, is the set of used values. */
  lemma UsedValuesGathered(grid: Grid, row: int, col: int, used: set<int>)
    requires IsShape(grid) && InBounds(row, col)
    requires used == (set x | x in grid[row]) + (set x | x in Column(grid, col)) + BoxPart(grid, 3 * (row / 3), 3 * (col / 3), 3)
    ensures used - {0} == UsedValues(grid, row, col)
  {
    BoxPartIsBox(grid, row / 3, col / 3);
  }
}
