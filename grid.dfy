/**
  The 9x9 board that both start screens work on: its shape, the item index
  the collection view uses for a cell, digit counts, the row/column/box scans
  and the completion checks.
 */
module Grid {
  import opened Wrappers

  /** board[row][column]; 0 is a blank cell. */
  type Board = seq<seq<int>>

  predicate IsCell(row: int, column: int) {
    0 <= row < 9 && 0 <= column < 9
  }

  predicate IsBoard(g: Board) {
    |g| == 9 && forall r :: 0 <= r < 9 ==> |g[r]| == 9
  }

  /** Every cell is blank (0) or holds a digit 1-9. */
  ghost predicate IsDigitBoard(g: Board) {
    IsBoard(g) && forall r, c :: IsCell(r, c) ==> 0 <= g[r][c] <= 9
  }

  /** Every cell holds a digit 1-9, as a solution does. */
  ghost predicate IsSolutionBoard(g: Board) {
    IsBoard(g) && forall r, c :: IsCell(r, c) ==> 1 <= g[r][c] <= 9
  }

  // The collection view lists the 81 cells row by row: item row * 9 + column.

  function RowOf(index: int): int { index / 9 }

  function ColumnOf(index: int): int { index % 9 }

  function IndexOf(row: int, column: int): int { row * 9 + column }

  /** An item index of the 81-cell grid names a cell, and naming it again gives the same item. */
  lemma IndexCell(index: int)
    requires 0 <= index < 81
    ensures IsCell(RowOf(index), ColumnOf(index))
    ensures IndexOf(RowOf(index), ColumnOf(index)) == index
  {
  }

  /** A cell's item index lies in the grid and decodes back to the cell. */
  lemma CellIndex(row: int, column: int)
    requires IsCell(row, column)
    ensures 0 <= IndexOf(row, column) < 81
    ensures RowOf(IndexOf(row, column)) == row && ColumnOf(IndexOf(row, column)) == column
  {
  }

  /** The board with one cell overwritten. */
  function Set(g: Board, row: int, column: int, v: int): (g': Board)
    requires IsBoard(g) && IsCell(row, column)
    ensures IsBoard(g')
    ensures g'[row][column] == v
    ensures forall r, c :: IsCell(r, c) && (r != row || c != column) ==> g'[r][c] == g[r][c]
  {
    g[row := g[row][column := v]]
  }

  /** A digit board stays a digit board when a cell is given a value 0-9. */
  lemma SetKeepsDigits(g: Board, row: int, column: int, v: int)
    requires IsDigitBoard(g) && IsCell(row, column) && 0 <= v <= 9
    ensures IsDigitBoard(Set(g, row, column, v))
  {
  }

  // ---------------------------------------------------------------------
  // Digit counts (countNumberOccurrences, and the numberCounts tally of toggleNumberButtons)

  /** How many entries of s equal d. */
  function Occurrences(s: seq<int>, d: int): nat
  {
    if s == [] then 0 else Occurrences(s[..|s| - 1], d) + (if s[|s| - 1] == d then 1 else 0)
  }

  /** How many cells of the first `rows` rows of g hold d. */
  function CountRows(g: Board, d: int, rows: nat): nat
    requires rows <= |g|
  {
    if rows == 0 then 0 else CountRows(g, d, rows - 1) + Occurrences(g[rows - 1], d)
  }

  /** How many of the 81 cells hold d. */
  function Count(g: Board, d: int): nat
    requires IsBoard(g)
  {
    CountRows(g, d, 9)
  }

  lemma {:induction false} OccurrencesBound(s: seq<int>, d: int)
    ensures Occurrences(s, d) <= |s|
  {
    if s != [] {
      OccurrencesBound(s[..|s| - 1], d);
    }
  }

  /** d occurs at least once exactly when some entry equals it. */
  lemma {:induction false} OccurrencesPositive(s: seq<int>, d: int)
    ensures Occurrences(s, d) > 0 <==> exists i :: 0 <= i < |s| && s[i] == d
  {
    if s != [] {
      var init := s[..|s| - 1];
      OccurrencesPositive(init, d);
      if exists i :: 0 <= i < |init| && init[i] == d {
        var i :| 0 <= i < |init| && init[i] == d;
        assert s[i] == d;
      }
      if exists i :: 0 <= i < |s| && s[i] == d {
        var i :| 0 <= i < |s| && s[i] == d;
        if i < |init| {
          assert init[i] == d;
        }
      }
    }
  }

  /** When entry k holds d, d occurs more than once exactly when another entry holds it too. */
  lemma {:induction false} OccurrencesAboveOne(s: seq<int>, k: int, d: int)
    requires 0 <= k < |s| && s[k] == d
    ensures Occurrences(s, d) > 1 <==> exists i :: 0 <= i < |s| && i != k && s[i] == d
  {
    var n := |s| - 1;
    var init := s[..n];
    if k == n {
      OccurrencesPositive(init, d);
      if exists i :: 0 <= i < |init| && init[i] == d {
        var i :| 0 <= i < |init| && init[i] == d;
        assert s[i] == d;
      }
      if exists i :: 0 <= i < |s| && i != k && s[i] == d {
        var i :| 0 <= i < |s| && i != k && s[i] == d;
        assert init[i] == d;
      }
    } else {
      assert init[k] == d;
      OccurrencesAboveOne(init, k, d);
      if s[n] == d {
        OccurrencesPositive(init, d);
      } else {
        if exists i :: 0 <= i < |init| && i != k && init[i] == d {
          var i :| 0 <= i < |init| && i != k && init[i] == d;
          assert s[i] == d;
        }
        if exists i :: 0 <= i < |s| && i != k && s[i] == d {
          var i :| 0 <= i < |s| && i != k && s[i] == d;
          assert init[i] == d;
        }
      }
    }
  }

  /** Overwriting one entry moves one occurrence from the old value to the new one. */
  lemma {:induction false} OccurrencesUpdate(s: seq<int>, i: int, v: int, d: int)
    requires 0 <= i < |s|
    ensures Occurrences(s[i := v], d)
            == Occurrences(s, d) - (if s[i] == d then 1 else 0) + (if v == d then 1 else 0)
  {
    var n := |s| - 1;
    assert s[i := v][..n] == if i < n then s[..n][i := v] else s[..n];
    if i < n {
      OccurrencesUpdate(s[..n], i, v, d);
    }
  }

  lemma {:induction false} CountRowsUpdate(g: Board, rows: nat, row: int, column: int, v: int, d: int)
    requires IsBoard(g) && IsCell(row, column) && rows <= 9
    ensures CountRows(Set(g, row, column, v), d, rows)
            == CountRows(g, d, rows)
               + (if row < rows then (if v == d then 1 else 0) - (if g[row][column] == d then 1 else 0) else 0)
  {
    if rows > 0 {
      CountRowsUpdate(g, rows - 1, row, column, v, d);
      if rows - 1 == row {
        OccurrencesUpdate(g[row], column, v, d);
      } else {
        assert Set(g, row, column, v)[rows - 1] == g[rows - 1];
      }
    }
  }

  /** The count of d after a single commit is the old count, less the overwritten
      value if it was d, plus the new value if it is d. */
  lemma CountAfterSet(g: Board, row: int, column: int, v: int, d: int)
    requires IsBoard(g) && IsCell(row, column)
    ensures Count(Set(g, row, column, v), d)
            == Count(g, d) - (if g[row][column] == d then 1 else 0) + (if v == d then 1 else 0)
  {
    CountRowsUpdate(g, 9, row, column, v, d);
  }

  lemma {:induction false} CountRowsBound(g: Board, d: int, rows: nat)
    requires IsBoard(g) && rows <= 9
    ensures CountRows(g, d, rows) <= 9 * rows
  {
    if rows > 0 {
      CountRowsBound(g, d, rows - 1);
      OccurrencesBound(g[rows - 1], d);
    }
  }

  /** No digit occupies more than the 81 cells. */
  lemma CountBound(g: Board, d: int)
    requires IsBoard(g)
    ensures Count(g, d) <= 81
  {
    CountRowsBound(g, d, 9);
  }

  /** countNumberOccurrences: the two nested loops over the grid count the cells holding `number`. */
  method CountNumberOccurrences(g: Board, number: int) returns (count: nat)
    requires IsBoard(g)
    ensures count == Count(g, number)
  {
    count := 0;
    var row := 0;
    while row < 9
      invariant 0 <= row <= 9
      invariant count == CountRows(g, number, row)
    {
      var col := 0;
      while col < 9
        invariant 0 <= col <= 9
        invariant count == CountRows(g, number, row) + Occurrences(g[row][..col], number)
      {
        assert g[row][..col + 1][..col] == g[row][..col];
        if g[row][col] == number {
          count := count + 1;
        }
        col := col + 1;
      }
      assert g[row][..9] == g[row];
      row := row + 1;
    }
  }

  /** The numberCounts dictionary of toggleNumberButtons: one pass over the grid that
      tallies every nonzero value; entry d (1-9) ends as the count of d. */
  method TallyDigits(g: Board) returns (counts: seq<nat>)
    requires IsDigitBoard(g)
    ensures |counts| == 10
    ensures forall d :: 1 <= d <= 9 ==> counts[d] == Count(g, d)
  {
    counts := seq(10, _ => 0);
    var row := 0;
    while row < 9
      invariant 0 <= row <= 9 && |counts| == 10
      invariant forall d :: 1 <= d <= 9 ==> counts[d] == CountRows(g, d, row)
    {
      var col := 0;
      while col < 9
        invariant 0 <= col <= 9 && |counts| == 10
        invariant forall d :: 1 <= d <= 9 ==>
                    counts[d] == CountRows(g, d, row) + Occurrences(g[row][..col], d)
      {
        assert g[row][..col + 1][..col] == g[row][..col];
        var num := g[row][col];
        if num > 0 {
          counts := counts[num := counts[num] + 1];
        }
        col := col + 1;
      }
      assert g[row][..9] == g[row];
      row := row + 1;
    }
  }

  // ---------------------------------------------------------------------
  // Row, column and box scans

  /** Top-left coordinate of the 3x3 box containing row or column x. */
  function BoxStart(x: int): int { (x / 3) * 3 }

  predicate InRow(g: Board, d: int, row: int)
    requires IsBoard(g) && 0 <= row < 9
  {
    exists c :: 0 <= c < 9 && g[row][c] == d
  }

  predicate InColumn(g: Board, d: int, column: int)
    requires IsBoard(g) && 0 <= column < 9
  {
    exists r :: 0 <= r < 9 && g[r][column] == d
  }

  predicate InBox(g: Board, d: int, row: int, column: int)
    requires IsBoard(g) && IsCell(row, column)
  {
    exists r, c :: BoxStart(row) <= r < BoxStart(row) + 3 && BoxStart(column) <= c < BoxStart(column) + 3
                   && g[r][c] == d
  }

  /** d appears somewhere in the cell's row, column or box, the cell itself included. */
  predicate Conflicts(g: Board, d: int, row: int, column: int)
    requires IsBoard(g) && IsCell(row, column)
  {
    InRow(g, d, row) || InColumn(g, d, column) || InBox(g, d, row, column)
  }

  /** d appears in the cell's row, column or box at some cell other than the cell itself. */
  predicate ConflictsWithPeer(g: Board, d: int, row: int, column: int)
    requires IsBoard(g) && IsCell(row, column)
  {
    (exists c :: 0 <= c < 9 && c != column && g[row][c] == d)
    || (exists r :: 0 <= r < 9 && r != row && g[r][column] == d)
    || (exists r, c :: BoxStart(row) <= r < BoxStart(row) + 3 && BoxStart(column) <= c < BoxStart(column) + 3
                       && (r != row || c != column) && g[r][c] == d)
  }

  /** The scan that includes the cell itself differs from the peers-only scan exactly
      when the cell already holds d: on a blank cell and a digit the two agree. */
  lemma ConflictsIncludeSelf(g: Board, d: int, row: int, column: int)
    requires IsBoard(g) && IsCell(row, column)
    ensures Conflicts(g, d, row, column) <==> ConflictsWithPeer(g, d, row, column) || g[row][column] == d
  {
    if g[row][column] == d {
      assert InRow(g, d, row) by { assert g[row][column] == d; }
    }
  }

  /** isNumberConflicting: scans the row, then the column, then the box, returning on the first hit. */
  method IsNumberConflicting(g: Board, number: int, row: int, column: int) returns (conflict: bool)
    requires IsBoard(g) && IsCell(row, column)
    ensures conflict == Conflicts(g, number, row, column)
  {
    for c := 0 to 9
      invariant forall c' :: 0 <= c' < c ==> g[row][c'] != number
    {
      if g[row][c] == number {
        return true;
      }
    }
    for r := 0 to 9
      invariant forall r' :: 0 <= r' < r ==> g[r'][column] != number
    {
      if g[r][column] == number {
        return true;
      }
    }
    var boxRow := (row / 3) * 3;
    var boxCol := (column / 3) * 3;
    for r := boxRow to boxRow + 3
      invariant forall r', c' :: boxRow <= r' < r && boxCol <= c' < boxCol + 3 ==> g[r'][c'] != number
    {
      for c := boxCol to boxCol + 3
        invariant forall c' :: boxCol <= c' < c ==> g[r][c'] != number
        invariant forall r', c' :: boxRow <= r' < r && boxCol <= c' < boxCol + 3 ==> g[r'][c'] != number
      {
        if g[r][c] == number {
          return true;
        }
      }
    }
    return false;
  }

  // ---------------------------------------------------------------------
  // Completion

  /** Every cell equals the solution's cell. */
  ghost predicate Solved(g: Board, solution: Board)
    requires IsBoard(g) && IsBoard(solution)
  {
    forall r, c :: IsCell(r, c) ==> g[r][c] == solution[r][c]
  }

  /** On two boards, cell-wise agreement is plain equality. */
  lemma SolvedIsEquality(g: Board, solution: Board)
    requires IsBoard(g) && IsBoard(solution)
    ensures Solved(g, solution) <==> g == solution
  {
    if Solved(g, solution) {
      forall r | 0 <= r < 9 ensures g[r] == solution[r] {
        assert forall c :: 0 <= c < 9 ==> g[r][c] == solution[r][c];
      }
    }
  }

  /** isPuzzleCompleted: false at the first cell that differs from the solution. */
  method IsPuzzleCompleted(g: Board, solution: Board) returns (done: bool)
    requires IsBoard(g) && IsBoard(solution)
    ensures done == Solved(g, solution)
  {
    for row := 0 to 9
      invariant forall r, c :: 0 <= r < row && 0 <= c < 9 ==> g[r][c] == solution[r][c]
    {
      for col := 0 to 9
        invariant forall c :: 0 <= c < col ==> g[row][c] == solution[row][c]
      {
        if g[row][col] != solution[row][col] {
          return false;
        }
      }
    }
    return true;
  }

  // ---------------------------------------------------------------------
  // Sections: the row, column and box checked after a commit

  datatype Section = Row | Column | Box

  /** Coordinates of the k-th cell (0-8) of section `index` (0-8), in the order the
      source lists them; box `index` starts at ((index / 3) * 3, (index % 3) * 3). */
  function SectionCell(kind: Section, index: int, k: int): (int, int)
  {
    match kind
    case Row => (index, k)
    case Column => (k, index)
    case Box => ((index / 3) * 3 + k / 3, (index % 3) * 3 + k % 3)
  }

  lemma SectionCellInGrid(kind: Section, index: int, k: int)
    requires 0 <= index < 9 && 0 <= k < 9
    ensures IsCell(SectionCell(kind, index, k).0, SectionCell(kind, index, k).1)
  {
  }

  /** The item indices of a section's cells, in the source's order. */
  function SectionCells(kind: Section, index: int): (cells: seq<int>)
    requires 0 <= index < 9
    ensures |cells| == 9
    ensures forall k :: 0 <= k < 9 ==> 0 <= cells[k] < 81
  {
    seq(9, k requires 0 <= k < 9 =>
      SectionCellInGrid(kind, index, k);
      IndexOf(SectionCell(kind, index, k).0, SectionCell(kind, index, k).1))
  }

  predicate CellSolved(g: Board, solution: Board, p: (int, int))
    requires IsBoard(g) && IsBoard(solution)
  {
    IsCell(p.0, p.1) && g[p.0][p.1] == solution[p.0][p.1]
  }

  /** All nine cells of the section equal the solution. */
  predicate SectionSolved(g: Board, solution: Board, kind: Section, index: int)
    requires IsBoard(g) && IsBoard(solution) && 0 <= index < 9
  {
    forall k :: 0 <= k < 9 ==> CellSolved(g, solution, SectionCell(kind, index, k))
  }

  /** isSectionComplete: the section's cells when all of them are solved, nothing otherwise. */
  method IsSectionComplete(g: Board, solution: Board, kind: Section, index: int)
    returns (cells: Option<seq<int>>)
    requires IsBoard(g) && IsBoard(solution) && 0 <= index < 9
    ensures cells == if SectionSolved(g, solution, kind, index) then Some(SectionCells(kind, index)) else None
  {
    match kind {
      case Row =>
        var isComplete := forall c | 0 <= c < 9 :: g[index][c] == solution[index][c];
        assert isComplete ==> SectionSolved(g, solution, kind, index);
        assert !isComplete ==> !SectionSolved(g, solution, kind, index) by {
          if !isComplete {
            var c :| 0 <= c < 9 && g[index][c] != solution[index][c];
            assert !CellSolved(g, solution, SectionCell(kind, index, c));
          }
        }
        cells := if isComplete then Some(SectionCells(kind, index)) else None;
      case Column =>
        var isComplete := forall r | 0 <= r < 9 :: g[r][index] == solution[r][index];
        assert isComplete ==> SectionSolved(g, solution, kind, index);
        assert !isComplete ==> !SectionSolved(g, solution, kind, index) by {
          if !isComplete {
            var r :| 0 <= r < 9 && g[r][index] != solution[r][index];
            assert !CellSolved(g, solution, SectionCell(kind, index, r));
          }
        }
        cells := if isComplete then Some(SectionCells(kind, index)) else None;
      case Box =>
        var startRow := (index / 3) * 3;
        var startCol := (index % 3) * 3;
        var isComplete := true;
        for r := startRow to startRow + 3
          invariant isComplete <==> forall r', c' :: startRow <= r' < r && startCol <= c' < startCol + 3 ==> g[r'][c'] == solution[r'][c']
        {
          for c := startCol to startCol + 3
            invariant isComplete <==>
              (forall r', c' :: startRow <= r' < r && startCol <= c' < startCol + 3 ==> g[r'][c'] == solution[r'][c'])
              && (forall c' :: startCol <= c' < c ==> g[r][c'] == solution[r][c'])
          {
            if g[r][c] != solution[r][c] {
              isComplete := false;
              break;
            }
          }
        }
        BoxSolvedByCells(g, solution, index);
        if isComplete {
          var list: seq<int> := [];
          for r := 0 to 3
            invariant list == SectionCells(Box, index)[..3 * r]
          {
            for c := 0 to 3
              invariant list == SectionCells(Box, index)[..3 * r + c]
            {
              BoxCellOffsets(index, 3 * r + c, r, c);
              assert SectionCells(Box, index)[..3 * r + c + 1]
                  == SectionCells(Box, index)[..3 * r + c] + [IndexOf(startRow + r, startCol + c)];
              list := list + [IndexOf(startRow + r, startCol + c)];
            }
          }
          assert SectionCells(Box, index)[..9] == SectionCells(Box, index);
          cells := Some(list);
        } else {
          cells := None;
        }
    }
  }

  /** A box is solved exactly when the 3x3 block of cells starting at its top-left cell is. */
  lemma BoxSolvedByCells(g: Board, solution: Board, index: int)
    requires IsBoard(g) && IsBoard(solution) && 0 <= index < 9
    ensures SectionSolved(g, solution, Box, index) <==>
      forall r, c :: (index / 3) * 3 <= r < (index / 3) * 3 + 3 && (index % 3) * 3 <= c < (index % 3) * 3 + 3
        ==> g[r][c] == solution[r][c]
  {
    var startRow, startCol := (index / 3) * 3, (index % 3) * 3;
    if SectionSolved(g, solution, Box, index) {
      forall r, c | startRow <= r < startRow + 3 && startCol <= c < startCol + 3
        ensures g[r][c] == solution[r][c]
      {
        var k := (r - startRow) * 3 + (c - startCol);
        BoxCellOffsets(index, k, r - startRow, c - startCol);
        assert CellSolved(g, solution, SectionCell(Box, index, k));
      }
    } else {
      var k :| 0 <= k < 9 && !CellSolved(g, solution, SectionCell(Box, index, k));
      BoxCellOffsets(index, k, k / 3, k % 3);
    }
  }

  lemma BoxCellOffsets(index: int, k: int, i: int, j: int)
    requires 0 <= index < 9 && 0 <= i < 3 && 0 <= j < 3 && k == i * 3 + j
    ensures SectionCell(Box, index, k) == ((index / 3) * 3 + i, (index % 3) * 3 + j)
    ensures 0 <= (index / 3) * 3 && (index / 3) * 3 + 3 <= 9 && 0 <= (index % 3) * 3 && (index % 3) * 3 + 3 <= 9
  {
  }

  /** A value 0-8 is three times its quotient by 3 plus its remainder, both 0-2. */
  lemma Div3(x: int)
    requires 0 <= x < 9
    ensures 0 <= x / 3 < 3 && 0 <= x % 3 < 3 && x == (x / 3) * 3 + x % 3
  {
  }

  /** Quotient and remainder by 3 are unique. */
  lemma Div3Unique(q: int, r: int)
    requires 0 <= q < 3 && 0 <= r < 3
    ensures (q * 3 + r) / 3 == q && (q * 3 + r) % 3 == r
  {
  }

  /** The box index animateCompletedSections derives for a cell, (row / 3) * 3 + column / 3. */
  function BoxIndex(row: int, column: int): int
  {
    var boxRow := (row / 3) * 3;
    var boxCol := (column / 3) * 3;
    (boxRow / 3) * 3 + boxCol / 3
  }

  /** The box index of a cell lies in 0-8 and maps back to the box's top-left cell. */
  lemma BoxIndexMapsBack(row: int, column: int)
    requires IsCell(row, column)
    ensures BoxIndex(row, column) == (row / 3) * 3 + column / 3
    ensures 0 <= BoxIndex(row, column) < 9
    ensures (BoxIndex(row, column) / 3) * 3 == BoxStart(row)
    ensures (BoxIndex(row, column) % 3) * 3 == BoxStart(column)
  {
    Div3(row);
    Div3(column);
    var br, bc := row / 3, column / 3;
    Div3Unique(br, 0);
    Div3Unique(bc, 0);
    Div3Unique(br, bc);
  }

  /** The box a cell's box index names contains the cell, at offset
      (row % 3) * 3 + column % 3. */
  lemma BoxIndexContainsCell(row: int, column: int)
    requires IsCell(row, column)
    ensures SectionCell(Box, BoxIndex(row, column), (row % 3) * 3 + column % 3) == (row, column)
  {
    BoxIndexMapsBack(row, column);
    Div3(row);
    Div3(column);
    Div3Unique(row % 3, column % 3);
  }

  /** The sections animateCompletedSections collects after a change at item `index`:
      the cell's row, then its column, then its box, each only when it is solved. */
  method CompletedSections(g: Board, solution: Board, index: int) returns (sections: seq<seq<int>>)
    requires IsBoard(g) && IsBoard(solution) && 0 <= index < 81
    ensures var row, column := RowOf(index), ColumnOf(index);
            sections == (if SectionSolved(g, solution, Row, row) then [SectionCells(Row, row)] else [])
                        + (if SectionSolved(g, solution, Column, column) then [SectionCells(Column, column)] else [])
                        + (if SectionSolved(g, solution, Box, BoxIndex(row, column))
                           then [SectionCells(Box, BoxIndex(row, column))] else [])
  {
    var row := index / 9;
    var column := index % 9;
    BoxIndexMapsBack(row, column);
    sections := [];
    var rowCells := IsSectionComplete(g, solution, Row, row);
    if rowCells.Some? {
      sections := sections + [rowCells.value];
    }
    var columnCells := IsSectionComplete(g, solution, Column, column);
    if columnCells.Some? {
      sections := sections + [columnCells.value];
    }
    var boxCells := IsSectionComplete(g, solution, Box, BoxIndex(row, column));
    if boxCells.Some? {
      sections := sections + [boxCells.value];
    }
  }

  /** A solved board completes every row, column and box. */
  lemma SolvedCompletesSections(g: Board, solution: Board, kind: Section, index: int)
    requires IsBoard(g) && IsBoard(solution) && 0 <= index < 9
    requires Solved(g, solution)
    ensures SectionSolved(g, solution, kind, index)
  {
    forall k | 0 <= k < 9 ensures CellSolved(g, solution, SectionCell(kind, index, k)) {
      SectionCellInGrid(kind, index, k);
    }
  }
}
