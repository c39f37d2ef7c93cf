/** The validator's static checks on a grid given as a list of rows of any
    shape: completeness, the permutation test on rows, columns and boxes,
    and the clue count. */
module Validator {
  import opened Wrappers
  import opened Grids

  /** What a unit must sort to: the digits one to nine, once each. */
  const DigitBag: multiset<int> := multiset{1, 2, 3, 4, 5, 6, 7, 8, 9}

  /** Sorting `u` gives 1..9: `u` is a permutation of the nine digits. */
  predicate IsDigitPermutation(u: seq<int>) {
    multiset(u) == DigitBag
  }

  /** Every row, however many there are, is a permutation of the digits. */
  predicate RowsArePermutations(g: Grid) {
    forall r :: 0 <= r < |g| ==> IsDigitPermutation(g[r])
  }

  /** A 9x9 grid of digits in which no digit repeats in a unit. */
  predicate SolvedGrid(h: Grid) {
    IsShape(h) && IsFull(h) && InRange(h) && ValidState(h)
  }

  /** The columns and boxes are read from the first nine rows; a grid with
      fewer rows makes that read fail. */
  datatype ValidatorError = IndexError

  /** No cell of any row is 0. */
  function IsComplete(g: Grid): (b: bool)
    ensures b <==> forall r, c :: 0 <= r < |g| && 0 <= c < |g[r]| ==> g[r][c] != 0
  {
    if g == [] then true
    else
      assert forall r :: 0 < r < |g| ==> g[1..][r - 1] == g[r];
      0 !in g[0] && IsComplete(g[1..])
  }

  /** The constraint check. The rows are tested first, all of them; then
      the nine columns and the nine boxes of the first nine rows. When every
      row passes but there are fewer than nine, reading a column fails. */
  function CheckConstraints(g: Grid): (r: Result<bool, ValidatorError>)
    ensures r.Err? <==> RowsArePermutations(g) && |g| < 9
    ensures r == Ok(true) <==> RowsArePermutations(g) && |g| >= 9 && SolvedGrid(g[..9])
  {
    if !RowsArePermutations(g) then Ok(false)
    else if |g| < 9 then Err(IndexError)
    else
      var h := g[..9];
      assert forall r :: 0 <= r < 9 ==> h[r] == g[r] && |multiset(h[r])| == |h[r]|;
      UnitsPermutationIff(h);
      Ok((forall c :: 0 <= c < 9 ==> IsDigitPermutation(Column(h, c))) &&
         (forall br, bc :: 0 <= br < 3 && 0 <= bc < 3 ==> IsDigitPermutation(Box(h, br, bc))))
  }

  /** A completed grid that passes the constraint check. Any empty cell
      makes it fail without the check being run. */
  function IsValidSolution(g: Grid): (r: Result<bool, ValidatorError>)
    ensures !IsComplete(g) ==> r == Ok(false)
    ensures r.Err? <==> RowsArePermutations(g) && |g| < 9
    ensures r == Ok(true) <==> RowsArePermutations(g) && |g| >= 9 && SolvedGrid(g[..9])
  {
    if !IsComplete(g) then
      PermutationRowsComplete(g);
      Ok(false)
    else CheckConstraints(g)
  }

  /** The nonzero cells of one row. */
  function RowClues(row: seq<int>): (n: nat)
    ensures n == |row| - multiset(row)[0]
  {
    if row == [] then 0
    else
      var k := |row| - 1;
      assert row == row[..k] + [row[k]];
      RowClues(row[..k]) + (if row[k] != 0 then 1 else 0)
  }

  /** The nonzero cells of the whole grid. */
  function CountClues(g: Grid): (n: nat)
    ensures n == |Flatten(g)| - multiset(Flatten(g))[0]
  {
    if g == [] then 0
    else CountClues(g[..|g| - 1]) + RowClues(g[|g| - 1])
  }

  /** A value other than 0 occurs at most once in a unit without repeats. */
  lemma {:induction false} NoRepeatCount(u: seq<int>, x: int)
    requires NoRepeat(u) && x != 0
    ensures multiset(u)[x] <= 1
  {
    if u != [] {
      var t := u[1..];
      assert u == [u[0]] + t;
      forall i, j | 0 <= i < j < |t| && t[i] != 0 ensures t[i] != t[j] {
        assert t[i] == u[i + 1] && t[j] == u[j + 1];
      }
      NoRepeatCount(t, x);
      if u[0] == x {
        forall j | 0 <= j < |t| ensures t[j] != x {
          assert t[j] == u[j + 1];
        }
        assert x !in t;
      }
    }
  }

  /** Two equal cells of a unit count twice. */
  lemma TwoOccurrences(u: seq<int>, i: int, j: int)
    requires 0 <= i < j < |u|
    ensures u[i] == u[j] ==> multiset(u)[u[i]] >= 2
  {
    var a, b := u[..j], u[j..];
    assert u == a + b;
    assert u[i] == a[i] && u[j] == b[0];
    assert u[i] in multiset(a) && u[j] in multiset(b);
  }

  /** Nine digits with no repeat. */
  predicate DigitUnit(u: seq<int>) {
    |u| == 9 && (forall i :: 0 <= i < 9 ==> 1 <= u[i] <= 9) && NoRepeat(u)
  }

  /** How often each value occurs in the nine digits. */
  lemma DigitBagCount(x: int)
    ensures DigitBag[x] == if 1 <= x <= 9 then 1 else 0
  {
  }

  /** A permutation of the digits is nine digits with no repeat. */
  lemma PermutationIsDigitUnit(u: seq<int>)
    requires IsDigitPermutation(u)
    ensures DigitUnit(u)
  {
    assert |u| == |multiset(u)| == |DigitBag| == 9;
    forall i | 0 <= i < |u| ensures 1 <= u[i] <= 9 {
      assert u[i] in multiset(u);
      DigitBagCount(u[i]);
    }
    forall i, j | 0 <= i < j < |u| && u[i] != 0 ensures u[i] != u[j] {
      TwoOccurrences(u, i, j);
      DigitBagCount(u[i]);
    }
  }

  /** Nine digits with no repeat are a permutation of the digits. */
  lemma DigitUnitIsPermutation(u: seq<int>)
    requires DigitUnit(u)
    ensures IsDigitPermutation(u)
  {
    DistinctDigitsCover(u);
    forall x ensures multiset(u)[x] == DigitBag[x] {
      DigitBagCount(x);
      if 1 <= x <= 9 {
        NoRepeatCount(u, x);
        assert x in u;
      } else {
        assert x !in u;
      }
    }
    assert multiset(u) == DigitBag;
  }

  /** A unit sorts to 1..9 exactly when it has nine digits and none repeats. */
  lemma DigitPermutationIff(u: seq<int>)
    ensures IsDigitPermutation(u) <==> DigitUnit(u)
  {
    if IsDigitPermutation(u) {
      PermutationIsDigitUnit(u);
    }
    if DigitUnit(u) {
      DigitUnitIsPermutation(u);
    }
  }

  /** Rows that are permutations of the digits hold digits without a repeat. */
  lemma PermutationRows(h: Grid)
    requires IsShape(h) && forall r :: 0 <= r < 9 ==> IsDigitPermutation(h[r])
    ensures forall r :: 0 <= r < 9 ==> NoRepeat(h[r])
    ensures IsFull(h) && InRange(h)
  {
    forall r | 0 <= r < 9 ensures DigitUnit(h[r]) {
      PermutationIsDigitUnit(h[r]);
    }
  }

  /** On a grid of digits a column sorts to 1..9 exactly when no digit repeats in it. */
  lemma ColumnsPermutationIff(h: Grid)
    requires IsShape(h) && IsFull(h) && InRange(h)
    ensures (forall c :: 0 <= c < 9 ==> IsDigitPermutation(Column(h, c))) <==>
            (forall c :: 0 <= c < 9 ==> NoRepeat(Column(h, c)))
  {
    forall c | 0 <= c < 9
      ensures IsDigitPermutation(Column(h, c)) <==> NoRepeat(Column(h, c))
    {
      DigitPermutationIff(Column(h, c));
    }
  }

  /** On a grid of digits a box sorts to 1..9 exactly when no digit repeats in it. */
  lemma BoxesPermutationIff(h: Grid)
    requires IsShape(h) && IsFull(h) && InRange(h)
    ensures (forall br, bc :: 0 <= br < 3 && 0 <= bc < 3 ==> IsDigitPermutation(Box(h, br, bc))) <==>
            (forall br, bc :: 0 <= br < 3 && 0 <= bc < 3 ==> NoRepeat(Box(h, br, bc)))
  {
    forall br, bc | 0 <= br < 3 && 0 <= bc < 3
      ensures IsDigitPermutation(Box(h, br, bc)) <==> NoRepeat(Box(h, br, bc))
    {
      forall k | 0 <= k < 9 ensures 1 <= Box(h, br, bc)[k] <= 9 {
        BoxCell(br, bc, k);
      }
      DigitPermutationIff(Box(h, br, bc));
    }
  }

  /** Once every row of a 9x9 grid is a permutation of the digits, its
      columns and boxes are too exactly when the grid is consistent. */
  lemma UnitsPermutationIff(h: Grid)
    requires IsShape(h) && forall r :: 0 <= r < 9 ==> IsDigitPermutation(h[r])
    ensures (&& (forall c :: 0 <= c < 9 ==> IsDigitPermutation(Column(h, c)))
             && (forall br, bc :: 0 <= br < 3 && 0 <= bc < 3 ==> IsDigitPermutation(Box(h, br, bc))))
            <==> SolvedGrid(h)
  {
    PermutationRows(h);
    ColumnsPermutationIff(h);
    BoxesPermutationIff(h);
  }

  /** Rows that are permutations of the digits hold no 0. */
  lemma PermutationRowsComplete(g: Grid)
    ensures RowsArePermutations(g) ==> IsComplete(g)
  {
    if RowsArePermutations(g) {
      forall r, c | 0 <= r < |g| && 0 <= c < |g[r]| ensures g[r][c] != 0 {
        DigitPermutationIff(g[r]);
      }
    }
  }

  /** On a 9x9 grid of digits the validator and the solver's consistency
      check agree: the grid is a valid solution exactly when no digit
      repeats in a row, a column or a box. */
  lemma ValidSolutionIffValidState(g: Grid)
    requires IsShape(g) && forall r, c :: InBounds(r, c) ==> 1 <= g[r][c] <= 9
    ensures IsValidSolution(g) == Ok(true) <==> ValidState(g)
  {
    assert g[..9] == g;
    assert IsFull(g) && InRange(g);
    if ValidState(g) {
      forall r | 0 <= r < 9 ensures IsDigitPermutation(g[r]) {
        DigitUnitIsPermutation(g[r]);
      }
      assert SolvedGrid(g[..9]);
    }
  }

  /** Every solution of a puzzle passes the validator. */
  lemma SolutionIsValid(p: Grid, s: Grid)
    requires IsShape(p) && IsSolution(p, s)
    ensures IsValidSolution(s) == Ok(true)
  {
    ValidSolutionIffValidState(s);
  }

  /** A 9x9 grid has between 0 and 81 clues, all 81 exactly when it is
      full, and it is complete exactly when it is full. */
  lemma CluesBound(g: Grid)
    requires IsShape(g)
    ensures CountClues(g) <= 81
    ensures CountClues(g) == 81 <==> IsFull(g)
    ensures IsComplete(g) <==> IsFull(g)
  {
    var f := Flatten(g);
    FlattenCells(g);
    if IsFull(g) {
      forall i | 0 <= i < 81 ensures f[i] != 0 {
        IndexBack(i);
        assert f[9 * (i / 9) + i % 9] == g[i / 9][i % 9];
      }
      assert 0 !in f;
    }
    if 0 !in multiset(f) {
      forall r, c | InBounds(r, c) ensures g[r][c] != 0 {
        assert f[9 * r + c] == g[r][c];
      }
    }
  }
}
