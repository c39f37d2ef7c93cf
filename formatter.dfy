/** The compact text form of a grid: 81 characters in row-major order, one
    per cell, with '.' accepted for an empty cell when reading. */
module Formatter {
  import opened Wrappers
  import opened Grids

  /** Why a string does not read as a grid. */
  datatype ParseError =
    | WrongLength          // the string is not 81 characters long
    | NotADigit(ch: char)  // the first character that is neither a digit nor '.'

  predicate IsDigitChar(ch: char) {
    '0' <= ch <= '9'
  }

  /** The character of a single digit. */
  function DigitChar(d: int): (ch: char)
    requires 0 <= d <= 9
    ensures IsDigitChar(ch) && ch as int - '0' as int == d
  {
    ('0' as int + d) as char
  }

  /** The decimal digits of `n`, most significant first, without leading zeros. */
  function NatToString(n: nat): (s: string)
    ensures |s| >= 1 && forall k :: 0 <= k < |s| ==> IsDigitChar(s[k])
    ensures n < 10 ==> s == [DigitChar(n)]
    ensures n >= 10 ==> s[0] != '0'
  {
    if n < 10 then [DigitChar(n)] else NatToString(n / 10) + [DigitChar(n % 10)]
  }

  /** The number a string of decimal digits denotes. */
  function DecimalValue(s: string): nat
    requires forall k :: 0 <= k < |s| ==> IsDigitChar(s[k])
  {
    if s == [] then 0
    else
      var d := s[|s| - 1];
      assert IsDigitChar(d);
      DecimalValue(s[..|s| - 1]) * 10 + (d as int - '0' as int)
  }

  /** Reading the digits of a natural number back gives the number. */
  lemma {:induction false} NatToStringValue(n: nat)
    ensures DecimalValue(NatToString(n)) == n
  {
    if n >= 10 {
      NatToStringValue(n / 10);
      var s := NatToString(n);
      assert s[..|s| - 1] == NatToString(n / 10);
    }
  }

  /** The decimal text of an integer, with a minus sign when it is negative. */
  function IntToString(n: int): (s: string)
    ensures |s| >= 1 && (s[0] == '-' <==> n < 0)
    ensures forall k :: 0 < k < |s| ==> IsDigitChar(s[k])
    ensures 0 <= n <= 9 ==> s == [DigitChar(n)]
  {
    if n < 0 then "-" + NatToString(-n) else NatToString(n)
  }

  /** The integer a decimal text with an optional leading minus denotes. */
  function SignedValue(s: string): int
    requires |s| >= 1 && forall k :: 0 < k < |s| ==> IsDigitChar(s[k])
    requires s[0] != '-' ==> IsDigitChar(s[0])
  {
    if s[0] == '-' then
      assert forall k :: 0 <= k < |s| - 1 ==> s[1..][k] == s[k + 1];
      -(DecimalValue(s[1..]) as int)
    else DecimalValue(s)
  }

  /** Reading the text of an integer back, sign included, gives the integer. */
  lemma IntToStringValue(n: int)
    ensures SignedValue(IntToString(n)) == n
  {
    if n < 0 {
      NatToStringValue(-n);
      assert IntToString(n)[1..] == NatToString(-n);
    } else {
      NatToStringValue(n);
    }
  }

  /** The text of the cells, one after the other. */
  function CellsToString(cells: seq<int>): (s: string)
    ensures (forall k :: 0 <= k < |cells| ==> 0 <= cells[k] <= 9) ==>
              |s| == |cells| && forall k :: 0 <= k < |cells| ==> s[k] == DigitChar(cells[k])
  {
    if cells == [] then ""
    else CellsToString(cells[..|cells| - 1]) + IntToString(cells[|cells| - 1])
  }

  /** The cells of the grid, row after row, each as its decimal text; a
      grid of 0..9 becomes 81 digits, cell (r, c) at index 9 * r + c. */
  function GridToString(g: Grid): (s: string)
    ensures WellFormed(g) ==>
      && |s| == 81
      && (forall k :: 0 <= k < 81 ==> IsDigitChar(s[k]))
      && forall r, c :: InBounds(r, c) ==> s[9 * r + c] == DigitChar(g[r][c])
  {
    if WellFormed(g) then FlattenDigits(g); CellsToString(Flatten(g))
    else CellsToString(Flatten(g))
  }

  /** A grid of 0..9 flattens to 81 values in 0..9, cell (r, c) at index
      9 * r + c. */
  lemma FlattenDigits(g: Grid)
    requires WellFormed(g)
    ensures var f := Flatten(g);
      |f| == 81 && (forall k :: 0 <= k < 81 ==> 0 <= f[k] <= 9) &&
      forall r, c :: InBounds(r, c) ==> f[9 * r + c] == g[r][c]
  {
    var f := Flatten(g);
    FlattenCells(g);
    forall k | 0 <= k < 81 ensures 0 <= f[k] <= 9 {
      IndexBack(k);
      assert f[9 * (k / 9) + k % 9] == g[k / 9][k % 9];
    }
  }

  /** A character that reads as a cell. */
  predicate IsCellChar(ch: char) {
    ch == '.' || IsDigitChar(ch)
  }

  /** The cell a character reads as: '.' and '0' are empty, a digit its value. */
  function CellValue(ch: char): (v: int)
    requires IsCellChar(ch)
    ensures 0 <= v <= 9
    ensures (v == 0 <==> ch == '.' || ch == '0') && (IsDigitChar(ch) ==> DigitChar(v) == ch)
  {
    if ch == '.' then 0 else ch as int - '0' as int
  }

  /** The cells of a string, read left to right; the first character that
      does not read as a cell is the error. */
  function ParseCells(s: string): (r: Result<seq<int>, ParseError>)
    ensures r.Ok? ==> |r.value| == |s|
  {
    if s == [] then Ok([])
    else
      var last := s[|s| - 1];
      match ParseCells(s[..|s| - 1])
      case Err(e) => Err(e)
      case Ok(cells) => if IsCellChar(last) then Ok(cells + [CellValue(last)]) else Err(NotADigit(last))
  }

  /** Reading cells succeeds exactly on a string of cell characters and
      gives one cell per character; otherwise the error names the first
      character that is not a cell. */
  lemma {:induction false} ParseCellsSpec(s: string)
    ensures ParseCells(s).Ok? <==> forall k :: 0 <= k < |s| ==> IsCellChar(s[k])
    ensures ParseCells(s).Ok? ==> var cells := ParseCells(s).value;
      |cells| == |s| && forall k :: 0 <= k < |s| ==> cells[k] == CellValue(s[k])
    ensures ParseCells(s).Err? ==>
      exists k :: 0 <= k < |s| && !IsCellChar(s[k]) && ParseCells(s).error == NotADigit(s[k]) &&
                  forall m :: 0 <= m < k ==> IsCellChar(s[m])
  {
    if s != [] {
      var init := s[..|s| - 1];
      ParseCellsSpec(init);
      assert forall k :: 0 <= k < |s| - 1 ==> init[k] == s[k];
    }
  }

  /** Nine rows of nine cells from 81 cells in row-major order. */
  function Unflatten(cells: seq<int>): (g: Grid)
    requires |cells| == 81
    ensures IsShape(g) && forall r, c :: InBounds(r, c) ==> g[r][c] == cells[9 * r + c]
  {
    seq(9, r requires 0 <= r < 9 => seq(9, c requires 0 <= c < 9 => cells[9 * r + c]))
  }

  /** What reading a string as a grid gives: a wrong length is refused
      first, then the first character that is not a cell. Reading succeeds
      on 81 cell characters and gives a grid of 0..9 whose cell (r, c) is
      read from character 9 * r + c; it fails with WrongLength exactly when
      the length is not 81, and otherwise with the first character that
      does not read as a cell. */
  function ParseGrid(s: string): (r: Result<Grid, ParseError>)
    ensures r == Err(WrongLength) <==> |s| != 81
    ensures r.Ok? <==> |s| == 81 && forall k :: 0 <= k < 81 ==> IsCellChar(s[k])
    ensures r.Ok? ==> WellFormed(r.value) && forall i, j :: InBounds(i, j) ==> r.value[i][j] == CellValue(s[9 * i + j])
    ensures |s| == 81 && r.Err? ==>
      exists k :: 0 <= k < 81 && !IsCellChar(s[k]) && r == Err(NotADigit(s[k])) &&
                  forall m :: 0 <= m < k ==> IsCellChar(s[m])
  {
    ParseCellsSpec(s);
    if |s| != 81 then Err(WrongLength)
    else match ParseCells(s)
      case Err(e) => Err(e)
      case Ok(cells) => ReadCells(s, cells); Ok(Unflatten(cells))
  }

  /** 81 cells read from 81 characters form a grid of 0..9 whose cell
      (r, c) is read from character 9 * r + c. */
  lemma ReadCells(s: string, cells: seq<int>)
    requires |s| == 81 && |cells| == 81
    requires forall k :: 0 <= k < 81 ==> IsCellChar(s[k]) && cells[k] == CellValue(s[k])
    ensures var g := Unflatten(cells);
      WellFormed(g) && forall r, c :: InBounds(r, c) ==> g[r][c] == CellValue(s[9 * r + c])
  {
    var g := Unflatten(cells);
    forall r, c | InBounds(r, c) ensures 0 <= g[r][c] <= 9 && g[r][c] == CellValue(s[9 * r + c]) {
      IndexDivMod(r, c);
    }
  }

  /** Writing a grid of 0..9 and reading it back gives the grid. */
  lemma RoundTrip(g: Grid)
    requires WellFormed(g)
    ensures ParseGrid(GridToString(g)) == Ok(g)
  {
    var s := GridToString(g);
    var h := ParseGrid(s).value;
    forall r, c | InBounds(r, c) ensures h[r][c] == g[r][c] {
      assert s[9 * r + c] == DigitChar(g[r][c]);
    }
    SameCells(h, g);
  }

  /** `s` with every '.' written as '0'. */
  function DotsAsZeros(s: string): (t: string)
    ensures |t| == |s| && forall k :: 0 <= k < |s| ==> t[k] == if s[k] == '.' then '0' else s[k]
  {
    seq(|s|, k requires 0 <= k < |s| => if s[k] == '.' then '0' else s[k])
  }

  /** Reading 81 cell characters and writing the grid again gives the
      string with its dots as zeros. */
  lemma ReverseRoundTrip(s: string)
    requires |s| == 81 && forall k :: 0 <= k < 81 ==> IsCellChar(s[k])
    ensures ParseGrid(s).Ok? && GridToString(ParseGrid(s).value) == DotsAsZeros(s)
  {
    var g := ParseGrid(s).value;
    var t := GridToString(g);
    forall k | 0 <= k < 81 ensures t[k] == DotsAsZeros(s)[k] {
      IndexBack(k);
      var r, c := k / 9, k % 9;
      assert t[9 * r + c] == DigitChar(g[r][c]);
      assert g[r][c] == CellValue(s[9 * r + c]);
    }
  }

  /** Reads a grid from its text, row by row, building each row cell by
      cell; a wrong length or a character that is not a cell is an error. */
  method StringToGrid(s: string) returns (r: Result<Grid, ParseError>)
    ensures r == ParseGrid(s)
  {
    if |s| != 81 {
      return Err(WrongLength);
    }
    var grid: Grid := [];
    for i := 0 to 9
      invariant |grid| == i && forall k :: 0 <= k < i ==> |grid[k]| == 9
      invariant ParseCells(s[..9 * i]) == Ok(Flatten(grid))
    {
      var row := ReadRow(s, i, Flatten(grid));
      if row.Err? {
        return Err(row.error);
      }
      FlattenSnoc(grid, row.value);
      grid := grid + [row.value];
    }
    assert s[..81] == s;
    ParsedRows(s, grid);
    return Ok(grid);
  }

  /** The inner loop of the reading: the nine cells of row `i`, or the
      error of the whole reading at its first bad character. */
  method ReadRow(s: string, i: int, ghost done: seq<int>) returns (r: Result<seq<int>, ParseError>)
    requires |s| == 81 && 0 <= i < 9 && ParseCells(s[..9 * i]) == Ok(done)
    ensures r.Ok? ==> |r.value| == 9 && ParseCells(s[..9 * i + 9]) == Ok(done + r.value)
    ensures r.Err? ==> ParseGrid(s) == Err(r.error)
  {
    var row: seq<int> := [];
    assert done + row == done;
    for j := 0 to 9
      invariant |row| == j
      invariant ParseCells(s[..9 * i + j]) == Ok(done + row)
    {
      var ch := s[i * 9 + j];
      if !IsCellChar(ch) {
        ParsePrefixError(s, 9 * i + j + 1);
        return Err(NotADigit(ch));
      }
      ParseStep(s, 9 * i + j, done + row);
      assert done + row + [CellValue(ch)] == done + (row + [CellValue(ch)]);
      row := row + [CellValue(ch)];
    }
    return Ok(row);
  }

  lemma FlattenSnoc(g: Grid, row: seq<int>)
    ensures Flatten(g + [row]) == Flatten(g) + row
  {
    assert (g + [row])[..|g|] == g;
  }

  /** Rows whose cells are the parse of the whole string are its grid. */
  lemma ParsedRows(s: string, grid: Grid)
    requires |s| == 81 && |grid| == 9 && (forall k :: 0 <= k < 9 ==> |grid[k]| == 9)
    requires ParseCells(s) == Ok(Flatten(grid))
    ensures ParseGrid(s) == Ok(grid)
  {
    FlattenCells(grid);
    var cells := Flatten(grid);
    forall a, b | InBounds(a, b) ensures Unflatten(cells)[a][b] == grid[a][b] {
    }
    SameCells(Unflatten(cells), grid);
  }

  /** One more cell character extends the parse by its cell. */
  lemma ParseStep(s: string, n: int, cells: seq<int>)
    requires 0 <= n < |s| && ParseCells(s[..n]) == Ok(cells) && IsCellChar(s[n])
    ensures ParseCells(s[..n + 1]) == Ok(cells + [CellValue(s[n])])
  {
    assert s[..n + 1][..n] == s[..n];
  }

  /** A prefix that ends in its first bad character decides the whole parse. */
  lemma ParsePrefixError(s: string, n: int)
    requires |s| == 81 && 0 < n <= 81 && ParseCells(s[..n - 1]).Ok? && !IsCellChar(s[n - 1])
    ensures ParseGrid(s) == Err(NotADigit(s[n - 1]))
  {
    var p := s[..n];
    assert p[..n - 1] == s[..n - 1];
    assert ParseCells(p) == Err(NotADigit(s[n - 1]));
    ParseCellsExtend(s, n);
  }

  /** An error in a prefix is the error of the whole string. */
  lemma {:induction false} ParseCellsExtend(s: string, n: int)
    requires 0 <= n <= |s| && ParseCells(s[..n]).Err?
    ensures ParseCells(s) == ParseCells(s[..n])
    decreases |s| - n
  {
    if n < |s| {
      var p := s[..n + 1];
      assert p[..n] == s[..n];
      assert ParseCells(p) == ParseCells(s[..n]);
      ParseCellsExtend(s, n + 1);
    } else {
      assert s[..n] == s;
    }
  }
}
