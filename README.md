# Sudoku solver: a verified model

This project models the engine of a 9x9 Sudoku solver in Dafny. It has three parts:

- **Solver.** The object that checks an input grid, propagates naked and hidden singles, and runs a backtracking search. The search picks a cell with the fewest candidates, breaks ties by the degree heuristic, and tries the rarest digits first. The object keeps three counters: backtracks, attempts and constraint checks.
- **Validator.** Static checks on a finished grid: completeness, every row, column and box sorting to 1..9, and the clue count.
- **Formatter.** The 81-character row-major text form of a grid, and its parser.

A grid is a `seq<seq<int>>` in which 0 marks an empty cell. The solver works on a copy of the caller's grid, held in a 9x9 `array2<int>` and written cell by cell, as the Python solver writes its working list in place. The caller's grid is a value, so it is never changed.

The modules are:

- `Grids` (grid.dfy): shape, units, consistency, refinement.
- `Constraints` (constraints.dfy): candidates, degree, digit frequency, the tie lists of the cell scan.
- `Propagation` (propagation.dfy): naked and hidden singles and why they are sound.
- `Solver` (solver.dfy): the solver object.
- `Validator` (validator.dfy) and `Formatter` (formatter.dfy).
- `Wrappers` (wrappers.dfy): `Option` and `Result`.

Key terms used below:

- A **solution** of a puzzle is a full grid of digits with no repeat in any unit that keeps every clue (`Grids.IsSolution`).
- Propagation **narrows** a grid (`Constraints.Narrows`): it keeps the clues, the digit range and the consistency, and the new grid has exactly the same solutions.

## Model

| member | source | states |
|---|---|---|
| Solver.SudokuSolver.constructor | src/solver.py:9-15 | the debug flag and the backtrack budget are stored, all three counters start at 0 |
| Solver.SudokuSolver.IsValidState | src/solver.py:62-97 | true exactly when no nonzero value repeats in any row, column or box; each call adds exactly one constraint check |
| Solver.HasNoRepeat | src/solver.py:67-73 | the per-unit "seen" scan accepts a unit exactly when no nonzero value occurs twice in it |
| Solver.SudokuSolver.IsValidInput | src/solver.py:48-60 | accepts exactly the grids of 9 rows of 9 cells in 0..9 that are consistent; the consistency check, and so its counter, is reached only for a well-shaped grid |
| Solver.SudokuSolver.GetPossibleValues | src/solver.py:170-193 | the candidate set of the cell, as the set difference of 1..9 and the values of its row, column and box (see Constraints.PossibleValuesSpec) |
| Solver.SudokuSolver.AddColumn | src/solver.py:180-182 | the column loop adds exactly the values of the column to what was gathered |
| Solver.SudokuSolver.AddBox | src/solver.py:184-188 | the nested box loops add exactly the values of the 3x3 block at the given corner, row by row |
| Constraints.PossibleValues | src/solver.py:170-193 | the candidate set holds only digits and is empty for a filled cell |
| Constraints.PossibleValuesSpec | src/solver.py:170-193 | v is a candidate exactly when the cell is empty, 1 <= v <= 9 and no cell sharing a unit holds v |
| Constraints.PossibleValuesShrink | src/solver.py:170-193 | filling cells only removes candidates: a cell of a grid that keeps another grid's clues has no candidate it lacked before |
| Constraints.PlacementKeepsValid | src/solver.py:170-193 | in a consistent grid, writing a digit into an empty cell keeps it consistent exactly when the digit is a candidate |
| Constraints.PossibleValuesAtMostNine | src/solver.py:193 | a candidate set has at most nine elements, so the scan's starting minimum of 10 is beaten by every empty cell |
| Constraints.SolutionValueIsCandidate | src/solver.py:170-193 | whatever a solution puts into an empty cell is a candidate of that cell |
| Constraints.NarrowsSameSolutions | src/solver.py:99-168 | a narrowed grid has exactly the solutions of the grid it came from |
| Constraints.NarrowsTransitive | src/solver.py:105-124 | narrowing steps compose, so a whole propagation run narrows |
| Constraints.ForcedPlacement | src/solver.py:116 | writing a candidate that every solution agrees on narrows the grid |
| Constraints.NakedSingle | src/solver.py:112-117 | writing the only candidate of a cell narrows the grid |
| Constraints.CandidateTable | src/solver.py:203-206 | the candidate sets of all 81 cells, each of at most nine values |
| Constraints.TiedElement | src/solver.py:203-211 | each entry of the tie list is an empty cell before the scan point with the given number of candidates, paired with its candidate set |
| Constraints.TiedOrdered | src/solver.py:203-211 | the tie list is in row-major order |
| Constraints.TiedComplete | src/solver.py:203-211 | every empty cell before the scan point with the given number of candidates is in the tie list |
| Constraints.TiedPrefix | src/solver.py:210-214 | the tie list before its k-th entry is the tie list of the scan up to that entry |
| Constraints.TiedEmpty | src/solver.py:207-209 | when no earlier empty cell has the given count, the tie list is empty |
| Solver.SudokuSolver.CountConstraints | src/solver.py:234-248 | the inner count of the degree heuristic equals the cell's degree: the other empty cells of its column, of its row and of its box, each unit counted separately |
| Constraints.DegreeCounts | src/solver.py:234-248 | the degree is the size of the set of other empty cells of the column, plus that of the row, plus those of the box's three rows |
| Solver.SudokuSolver.ApplyDegreeHeuristic | src/solver.py:228-254 | returns an entry of the tie list whose degree is the largest, with every earlier entry of smaller degree (the first maximum wins) |
| Solver.SudokuSolver.FindBestCell | src/solver.py:195-226 | no cell exactly when the grid is full. Otherwise an empty cell with its candidate set, and no empty cell has fewer candidates. With candidates, it is the most constraining of the cells tied on that count. With none, it is the only dead end or the second one in row-major order (the early return) |
| Solver.ScanNewMinimum | src/solver.py:207-209 | a cell with fewer candidates than the minimum so far restarts the tie list with itself |
| Solver.ScanTie | src/solver.py:210-211 | a cell with as many candidates as the minimum joins the tie list |
| Solver.ScanSkip | src/solver.py:205-211 | filled cells and cells with more candidates leave the scan state alone |
| Solver.ScanDone | src/solver.py:216-217 | after the scan the tie list is empty exactly when the grid is full, and otherwise it is the full tie list of cells with the minimum count |
| Solver.SecondDeadEnd | src/solver.py:213-214 | a dead end met after exactly one earlier dead end is the second dead end, which the scan returns at once |
| Solver.DegreeChoiceIsBest | src/solver.py:220-222 | the degree winner of the full tie list is the most constraining cell: no tied cell has a larger degree, and tied cells earlier in the scan have a smaller one |
| Solver.OnlyTiedIsBest | src/solver.py:224-226 | a single tied cell is trivially the most constraining one |
| Solver.SudokuSolver.GetOrderedValues | src/solver.py:295-307 | a permutation of the candidate set (same values, same size), ordered by how often each digit occurs in the grid, rarest first |
| Solver.CountValues | src/solver.py:298-303 | the count of each digit equals its number of occurrences in the grid |
| Solver.LeastTried | src/solver.py:306 | the chosen value is in the set and is tried no later than any other value of the set |
| Solver.TryOrderUnique | src/solver.py:306 | two orderings of the same values that both follow the try order are equal, so the order is fully determined |
| Propagation.RowEmpties | src/solver.py:133 | the listed cells are exactly the empty cells of the row |
| Propagation.ColumnEmpties | src/solver.py:151 | the listed cells are exactly the empty cells of the column |
| Propagation.Holders | src/solver.py:137-140 | the cells of the list that still have the value as a candidate, and no others |
| Solver.SudokuSolver.FindHolders | src/solver.py:137-140 | the loop that gathers the cells able to take the value computes the holder list |
| Propagation.HiddenSingleInRow | src/solver.py:132-147 | when the listed cells cover the row's empty cells and only one of them can take v, v is a candidate there and writing it narrows the grid |
| Propagation.HiddenSingleInColumn | src/solver.py:150-166 | the same for a column |
| Propagation.SolutionDigitInRow | src/solver.py:136-144 | a solution puts a digit the row lacks into one of the row's empty cells that has it as a candidate |
| Propagation.SolutionDigitInColumn | src/solver.py:155-163 | the same for a column |
| Propagation.HoldersShrink | src/solver.py:137-140 | filling cells never adds a cell to the holders of a value |
| Propagation.NakedCell | src/solver.py:112-117 | a naked single of the starting grid that the pass meets empty without exactly one candidate has no candidate left |
| Propagation.RowNoHolder | src/solver.py:136-147 | a hidden single of the starting row that has no single holder when its digit is tried is settled: no empty cell of the row can take it any more |
| Propagation.ColumnNoHolder | src/solver.py:155-166 | the same for a column |
| Propagation.RowPlacedThrough | src/solver.py:132-147 | when earlier rows were written but this row was not, what this row's pass settles for the grid it starts from it settles for the grid the whole pass started from |
| Propagation.ColumnPlacedThrough | src/solver.py:150-166 | the same for a column |
| Solver.SudokuSolver.FillNakedSingles | src/solver.py:110-117 | one row-major pass writing every empty cell with a single candidate, judged on the grid as it is then. The grid narrows. It changes exactly when the starting grid had a naked single, and then it has fewer empty cells; otherwise it is untouched. Every naked single of the starting grid ends filled or without any candidate |
| Solver.SudokuSolver.HiddenSinglesInRow | src/solver.py:132-147 | one row. With more than one empty cell, each digit the row lacks that only one empty cell can take is written there. The grid narrows and no other row changes. It changes exactly when the row held a hidden single, and then it has fewer empty cells. Every hidden single of the row in the starting grid ends settled: the row holds the digit, or none of its empty cells can take it |
| Solver.SudokuSolver.HiddenSinglesInRows | src/solver.py:132-147 | all rows in turn. The grid narrows. It changes exactly when some row held a hidden single, and then it has fewer empty cells. Every hidden single of every row of the starting grid ends settled |
| Solver.SudokuSolver.HiddenSinglesInColumn | src/solver.py:150-166 | one column, with its values read once before the digits are tried. The grid narrows and no other column changes. It changes exactly when the column held a hidden single, and then it has fewer empty cells. Every hidden single of the column in the starting grid ends settled |
| Solver.SudokuSolver.HiddenSinglesInColumns | src/solver.py:150-166 | all columns in turn. The grid narrows. It changes exactly when some column held a hidden single, and then it has fewer empty cells. Every hidden single of every column of the starting grid ends settled |
| Solver.SudokuSolver.ApplyHiddenSingles | src/solver.py:127-168 | rows then columns. The grid narrows. The result is true exactly when the starting grid held a hidden single, and then the grid has fewer empty cells; false leaves the grid untouched. Every row hidden single of the starting grid ends settled, and so does every column hidden single when no row held one |
| Solver.SudokuSolver.Preprocess | src/solver.py:99-125 | always reports success and takes between 1 and 10 passes. The grid narrows, so clues stay, consistency stays and no solution is lost. Every pass but the last fills at least one cell, so the empty cells drop by at least the pass count minus one. Stopping before the tenth pass means no naked or hidden single is left |
| Solver.SudokuSolver.SolveRecursive | src/solver.py:256-293 | with the budget used up, it returns false and changes nothing. True means the grid is full, keeps the entry grid's clues and is consistent (or was already full on entry). False restores the entry grid exactly, and while the budget lasts it means the entry grid has no solution. A grid full on entry costs no attempt, check or backtrack. Backtracks never outnumber attempts, and every attempt is one constraint check. Termination is on the number of empty cells |
| Solver.SudokuSolver.TryInOrder | src/solver.py:275-293 | the loop over the ordered candidates. True means the grid is full, keeps the clues it had on entry and is consistent. False restores the grid exactly, and while the backtrack budget lasts it means no solution puts any of the tried values in the cell. Backtracks never outnumber attempts, and every attempt is one constraint check |
| Solver.SudokuSolver.TryValue | src/solver.py:276-291 | one trial: write, count the attempt, check consistency, search on, then count a backtrack and clear the cell on failure. Failure restores the grid and, within budget, the grid with that value has no solution |
| Solver.Place | src/solver.py:116 | writing one cell of the working grid changes exactly that cell |
| Solver.Copy | src/solver.py:30 | the working grid is a fresh 9x9 array holding the caller's grid |
| Solver.SudokuSolver.Solve | src/solver.py:17-46 | refuses exactly the grids that are not 9x9 over 0..9 and consistent, without resetting the counters. Otherwise the counters restart from 0, so with a zero budget or a full input they all end at 0, and a returned grid is a solution of the input. No grid while the budget lasted means there is no solution. A zero budget yields no grid. A full valid input with a positive budget comes back unchanged. Afterwards backtracks <= attempts == checks |
| Solver.SudokuSolver.GetStats | src/solver.py:309-316 | the three counters; under the object invariant Valid(), which every method keeps, backtracks <= attempts <= checks |
| Solver.NoCandidateNoSolution | src/solver.py:216-217 | an empty cell without candidates leaves the grid without a solution, so returning false at once loses nothing |
| Solver.InvalidNoSolution | src/solver.py:280 | an inconsistent grid has no solution, so skipping the search after a failed check loses nothing |
| Solver.ClearRestores | src/solver.py:291 | clearing the cell just written gives back the grid from before the write |
| Solver.ExcludeValue | src/solver.py:276-291 | a value whose trial found no solution is ruled out for the cell in every solution |
| Solver.TriedAll | src/solver.py:275-293 | once every candidate of a cell is ruled out, the grid has no solution |
| Solver.SearchStepSolved | src/solver.py:284-285 | a solved branch gives a full, consistent grid that keeps the clues of the grid before the write |
| Grids.ValidStateIffNoConflict | src/solver.py:62-97 | the unit-by-unit check is equivalent to "no two distinct cells sharing a unit hold the same nonzero value" |
| Grids.FillShrinksZeroCells | src/solver.py:276 | writing a digit into an empty cell removes exactly that cell from the empty cells, which is what makes the search terminate |
| Grids.FewerZeroCells | src/solver.py:99-168 | a grid that keeps another grid's clues has no more empty cells than it |
| Grids.PlaceProgress | src/solver.py:116 | a write into an empty cell, after writes that kept the clues, leaves fewer empty cells than the pass started with |
| Grids.RefinesTransitive | src/solver.py:256-293 | keeping clues composes across writes |
| Grids.RefinedValid | src/solver.py:280-285 | a grid that a consistent grid refines is itself consistent |
| Grids.SolutionRowHasDigit | src/validator.py:29-31 | every row of a solution holds every digit |
| Grids.SolutionColumnHasDigit | src/validator.py:34-37 | every column of a solution holds every digit |
| Validator.IsComplete | src/validator.py:8-14 | true exactly when no cell of any row, of any shape, is 0 |
| Validator.CheckConstraints | src/validator.py:26-49 | every row is tested, however many. With fewer than nine rows that all pass, reading a column fails (an index error). True exactly when all rows pass, there are at least nine, and the first nine form a full grid of digits with no repeat in any unit |
| Validator.IsValidSolution | src/validator.py:17-23 | false for any grid with an empty cell. Otherwise the constraint check's verdict, with the same error and the same meaning of true |
| Validator.DigitPermutationIff | src/validator.py:30 | a unit sorts to 1..9 exactly when it has nine cells, all digits, none repeated |
| Validator.UnitsPermutationIff | src/validator.py:28-49 | once the rows sort to 1..9, the columns and boxes do too exactly when the grid is consistent |
| Validator.ValidSolutionIffValidState | src/validator.py:17-49 | on a 9x9 grid of digits the validator accepts exactly the grids the solver's consistency check accepts |
| Validator.SolutionIsValid | src/validator.py:17-23 | every solution of a puzzle passes the validator, which is what the solver tests assert of solver output |
| Validator.CountClues | src/validator.py:52-54 | the clue count is the number of cells, over all rows, minus the number of zeros |
| Validator.RowClues | src/validator.py:54 | the nonzero cells of one row: its length minus its zeros |
| Validator.CluesBound | src/validator.py:52-54 | a 9x9 grid has at most 81 clues, exactly 81 when full, and is complete exactly when full |
| Formatter.IntToString | src/utils.py:40 | decimal text of an int, with a leading minus exactly for negatives and digits after it; a digit 0..9 becomes its single character |
| Formatter.NatToString | src/utils.py:40 | at least one decimal digit, no leading zero |
| Formatter.NatToStringValue | src/utils.py:40 | reading the decimal text back gives the number |
| Formatter.IntToStringValue | src/utils.py:40 | reading the text of any integer back, minus sign included, gives the integer |
| Formatter.CellsToString | src/utils.py:40 | cells in 0..9 give one digit character per cell, in order |
| Formatter.GridToString | src/utils.py:38-40 | a 9x9 grid over 0..9 becomes 81 digit characters, cell (r, c) at index 9r + c |
| Formatter.CellValue | src/utils.py:53 | '.' and '0' read as 0, any other digit as its value |
| Formatter.ParseCellsSpec | src/utils.py:48-54 | reading cells succeeds exactly when every character is a digit or '.', with one cell per character; otherwise the error names the first bad character |
| Formatter.ParseGrid | src/utils.py:43-56 | a length other than 81 is refused first, and is the only WrongLength case. Otherwise the parse succeeds exactly on digits and dots, giving a 9x9 grid over 0..9 with cell (r, c) read from character 9r + c, or fails at the first bad character |
| Formatter.StringToGrid | src/utils.py:43-56 | the nested row and cell loops compute exactly the reading of the string |
| Formatter.ReadRow | src/utils.py:50-53 | the inner loop reads the nine cells of row i as the whole reading does, or stops at the first bad character with the whole reading's error |
| Formatter.RoundTrip | src/utils.py:38-56 | writing a 9x9 grid over 0..9 and reading it back gives the grid |
| Formatter.ReverseRoundTrip | src/utils.py:38-56 | reading 81 digits and dots and writing the grid again gives the string with its dots as zeros |
| Formatter.ParsePrefixError | src/utils.py:49-53 | the first bad character decides the result, so returning at it is the whole parse |

## Left out

- Timing: the solve time and the clock are not modelled. Only the integer counters are.
- Debug output: all tracing prints of the solver, and the pretty printer of the formatter, are console output.
- main.py, quick_test.py and tests/test_puzzles.py are interactive and benchmark drivers, and are not part of this model.
- Concrete outcomes on the puzzle collection are not modelled, because they depend on running the full search. The puzzle collection module is not part of this model. The model proves soundness, restore-on-failure and "no solution" on failure within budget. It does not prove that the search finds every solution within a given budget.
- Non-integer cells, `None` grids and booleans used as integers do not arise in typed Dafny. A grid that is not 9 rows of 9 cells in 0..9 is refused exactly as the Python solver refuses it.
- Solver.SudokuSolver.Solve: the `ValueError` the Python solver raises for a refused grid is the `InvalidInput` outcome.
- Solver.Copy: the deep copy is a fresh array filled from the caller's grid. Aliasing inside the caller's nested lists is not modelled.
- Solver.SudokuSolver.GetOrderedValues: values that occur equally often are put in ascending order. The Python solver sorts stably over the iteration order of a Python set, which is not ascending in general.
- Solver.SudokuSolver.ApplyHiddenSingles: the column hidden singles are stated settled only when the rows held none. After a row write, the column pass works on a changed grid, and what it settles is stated against that grid by HiddenSinglesInColumns.
- Solver.SudokuSolver.Preprocess: the pass count is a ghost result. The fixpoint is stated only for runs that stop before the tenth pass, because the Python solver gives no guarantee when it stops at the cap.
- Formatter.CellValue: Python's `int` also accepts non-ASCII decimal digits (for example Arabic-Indic digits). The model accepts only '0'..'9' and '.', and treats every other character as an error.
- Validator.CheckConstraints: the unit test sorts the unit and compares it with 1..9. The model uses the equivalent multiset equality.
- Validator.CheckConstraints: a row that is not a list (or a ragged grid whose column read raises for another reason) cannot be represented. Once the rows pass, they all have nine cells, so the only failure left is too few rows.
