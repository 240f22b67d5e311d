/**
  The older game screen (SudokuGame/Controllers/SudokuStartVC.swift). It keeps
  no copy of the givens: a cell counts as a given when it is filled and already
  equals the solution. Undo and redo have no limits or counters, hints have a
  limit, and there are no notes and no scoring.

  The steps are defined on values first (LegacyState and the functions over it),
  their properties are proved as lemmas, and class LegacySession performs each
  step by updating its fields in place.
 */
module Legacy {
  import opened Wrappers
  import opened Grid
  import opened History
  import opened Puzzle

  /** The fields of the screen that its handlers read and write. */
  datatype LegacyState = LegacyState(
    puzzleData: PuzzleData,
    undoStack: seq<Move>,
    redoStack: seq<Move>,
    selectedIndexPath: Option<int>,
    currentNumber: Option<int>,
    hintsUsed: int)

  function Hist(s: LegacyState): History {
    History(s.puzzleData.puzzle, s.undoStack, s.redoStack)
  }

  /** The state with its grid and stacks replaced by those of h. */
  function WithHist(s: LegacyState, h: History): LegacyState {
    s.(puzzleData := s.puzzleData.(puzzle := h.board), undoStack := h.undoStack, redoStack := h.redoStack)
  }

  /** The grid and both stacks hold digits on cells of the board, the solution is a
      solved grid, a selection names one of the 81 cells, and at most the hint limit
      of hints has been used. */
  ghost predicate LegacyValid(s: LegacyState) {
    && Ok(Hist(s))
    && IsSolutionBoard(s.puzzleData.solution)
    && (s.selectedIndexPath.Some? ==> 0 <= s.selectedIndexPath.value < 81)
    && 0 <= s.hintsUsed
    && (s.hintsUsed == 0 || s.hintsUsed <= s.puzzleData.hintLimit)
  }

  /** The screen's test for an initial number: the cell is filled and equals the solution. */
  predicate LooksGiven(s: LegacyState, row: int, column: int)
    requires IsBoard(s.puzzleData.puzzle) && IsBoard(s.puzzleData.solution) && IsCell(row, column)
  {
    s.puzzleData.puzzle[row][column] != 0 && s.puzzleData.puzzle[row][column] == s.puzzleData.solution[row][column]
  }

  /** The screen once the puzzle fetched on load has arrived. */
  function LegacyLoaded(data: PuzzleData): (s: LegacyState)
    requires Loadable(data)
    ensures LegacyValid(s)
  {
    LegacyState(data, [], [], None, None, 0)
  }

  // ---------------------------------------------------------------------
  // The steps

  /** updatePuzzle: the cell's prior value is pushed, redo is cleared, the cell takes number. */
  function UpdateStep(s: LegacyState, number: int, index: int): (r: LegacyState)
    requires LegacyValid(s) && 0 <= number <= 9 && 0 <= index < 81
    ensures LegacyValid(r)
  {
    IndexCell(index);
    WithHist(s, Edit(Hist(s), RowOf(index), ColumnOf(index), number))
  }

  /** numberButtonTapped: ignored without a selection or on a cell that looks like a
      given; otherwise the digit becomes the current number and is written with a
      record for undo. */
  function EnterNumber(s: LegacyState, number: int): (r: LegacyState)
    requires LegacyValid(s) && 1 <= number <= 9
    ensures LegacyValid(r)
  {
    if s.selectedIndexPath.None? then s
    else
      var index := s.selectedIndexPath.value;
      IndexCell(index);
      if LooksGiven(s, RowOf(index), ColumnOf(index)) then s
      else WithHist(s, Edit(Hist(s), RowOf(index), ColumnOf(index), number)).(currentNumber := Some(number))
  }

  /** undoTapped: ignored on an empty stack, otherwise the last record is undone. */
  function UndoStep(s: LegacyState): (r: LegacyState)
    requires LegacyValid(s)
    ensures LegacyValid(r)
  {
    if |s.undoStack| == 0 then s else WithHist(s, Undo(Hist(s)))
  }

  /** redoTapped: ignored on an empty stack, otherwise the last redo record is applied. */
  function RedoStep(s: LegacyState): (r: LegacyState)
    requires LegacyValid(s)
    ensures LegacyValid(r)
  {
    if |s.redoStack| == 0 then s else WithHist(s, Redo(Hist(s)))
  }

  /** hintTapped shows the "No More Hints" alert: a cell is selected and the limit is used up. */
  predicate NoMoreHints(s: LegacyState) {
    s.selectedIndexPath.Some? && s.hintsUsed >= s.puzzleData.hintLimit
  }

  /** hintTapped: ignored without a selection, refused at the limit, ignored on a cell
      that already holds its solution value; otherwise that value is written with a
      record for undo and one hint is counted. */
  function HintStep(s: LegacyState): (r: LegacyState)
    requires LegacyValid(s)
    ensures LegacyValid(r)
  {
    if s.selectedIndexPath.None? || NoMoreHints(s) then s
    else
      var index := s.selectedIndexPath.value;
      IndexCell(index);
      var row, column := RowOf(index), ColumnOf(index);
      if s.puzzleData.puzzle[row][column] == s.puzzleData.solution[row][column] then s
      else
        WithHist(s, Edit(Hist(s), row, column, s.puzzleData.solution[row][column])).(hintsUsed := s.hintsUsed + 1)
  }

  /** resetTapped followed by the fetch it starts: ignored when the screen has no
      difficulty; otherwise both stacks, the hint count and the selection are cleared,
      and the fetched puzzle, if one arrives, replaces the old one. */
  function ResetStep(s: LegacyState, difficulty: Option<string>, fetched: Option<PuzzleData>): (r: LegacyState)
    requires LegacyValid(s) && (fetched.Some? ==> Loadable(fetched.value))
    ensures LegacyValid(r)
  {
    if difficulty.None? then s
    else LegacyState(if fetched.Some? then fetched.value else s.puzzleData, [], [], None, None, 0)
  }

  /** didSelectItemAt: tapping the selected cell deselects it and forgets the current
      number; tapping another cell selects it. */
  function SelectStep(s: LegacyState, index: int): (r: LegacyState)
    requires LegacyValid(s) && 0 <= index < 81
    ensures LegacyValid(r)
  {
    if s.selectedIndexPath == Some(index) then s.(selectedIndexPath := None, currentNumber := None)
    else s.(selectedIndexPath := Some(index))
  }

  // ---------------------------------------------------------------------
  // What the steps promise

  /** Digit entry is refused exactly without a selection or on a cell that looks like a
      given; an accepted digit is written to the selected cell only, the prior value is
      pushed for undo, redo is emptied and the digit becomes the current number. */
  lemma EntryOutcome(s: LegacyState, number: int)
    requires LegacyValid(s) && 1 <= number <= 9
    ensures var r := EnterNumber(s, number);
            if s.selectedIndexPath.None? then r == s
            else
              var row, column := RowOf(s.selectedIndexPath.value), ColumnOf(s.selectedIndexPath.value);
              IsCell(row, column) &&
              if LooksGiven(s, row, column) then r == s
              else
                && r.puzzleData.puzzle[row][column] == number
                && (forall i, j :: IsCell(i, j) && (i != row || j != column) ==>
                      r.puzzleData.puzzle[i][j] == s.puzzleData.puzzle[i][j])
                && r.undoStack == s.undoStack + [Move(row, column, s.puzzleData.puzzle[row][column])]
                && r.redoStack == []
                && r.currentNumber == Some(number)
                && r.selectedIndexPath == s.selectedIndexPath && r.hintsUsed == s.hintsUsed
                && r.puzzleData.solution == s.puzzleData.solution
  {
    if s.selectedIndexPath.Some? {
      IndexCell(s.selectedIndexPath.value);
    }
  }

  /** Once a cell holds its solution value it looks like a given, so every later digit
      on it is refused: a correct entry cannot be overwritten from the keypad. */
  lemma CorrectEntryLocksCell(s: LegacyState, number: int, later: int)
    requires LegacyValid(s) && 1 <= number <= 9 && 1 <= later <= 9 && s.selectedIndexPath.Some?
    requires number == s.puzzleData.solution[RowOf(s.selectedIndexPath.value)][ColumnOf(s.selectedIndexPath.value)]
    ensures EnterNumber(EnterNumber(s, number), later) == EnterNumber(s, number)
  {
    var index := s.selectedIndexPath.value;
    IndexCell(index);
    var r := EnterNumber(s, number);
    assert r.puzzleData.puzzle[RowOf(index)][ColumnOf(index)] == number;
    assert LooksGiven(r, RowOf(index), ColumnOf(index));
  }

  /** Undo on an empty stack changes nothing; otherwise it writes the top record's value
      to that record's cell only, pops the record and pushes the cell's prior value onto
      redo, with no limit and no counter, and the selection is kept. */
  lemma UndoOutcome(s: LegacyState)
    requires LegacyValid(s)
    ensures var r := UndoStep(s);
            if |s.undoStack| == 0 then r == s
            else
              var m := s.undoStack[|s.undoStack| - 1];
              && r.puzzleData.puzzle[m.row][m.column] == m.number
              && (forall i, j :: IsCell(i, j) && (i != m.row || j != m.column) ==>
                    r.puzzleData.puzzle[i][j] == s.puzzleData.puzzle[i][j])
              && r.undoStack == s.undoStack[..|s.undoStack| - 1]
              && r.redoStack == s.redoStack + [Move(m.row, m.column, s.puzzleData.puzzle[m.row][m.column])]
              && r.selectedIndexPath == s.selectedIndexPath && r.currentNumber == s.currentNumber
              && r.hintsUsed == s.hintsUsed
  {
    if |s.undoStack| > 0 {
      UndoWritesTop(Hist(s));
    }
  }

  /** Redo is the mirror image of undo. */
  lemma RedoOutcome(s: LegacyState)
    requires LegacyValid(s)
    ensures var r := RedoStep(s);
            if |s.redoStack| == 0 then r == s
            else
              var m := s.redoStack[|s.redoStack| - 1];
              && r.puzzleData.puzzle[m.row][m.column] == m.number
              && (forall i, j :: IsCell(i, j) && (i != m.row || j != m.column) ==>
                    r.puzzleData.puzzle[i][j] == s.puzzleData.puzzle[i][j])
              && r.redoStack == s.redoStack[..|s.redoStack| - 1]
              && r.undoStack == s.undoStack + [Move(m.row, m.column, s.puzzleData.puzzle[m.row][m.column])]
              && r.selectedIndexPath == s.selectedIndexPath && r.currentNumber == s.currentNumber
              && r.hintsUsed == s.hintsUsed
  {
  }

  /** Undo followed by redo gives back the whole state. */
  lemma UndoThenRedo(s: LegacyState)
    requires LegacyValid(s) && |s.undoStack| > 0
    ensures RedoStep(UndoStep(s)) == s
  {
    RedoUndoRoundTrip(Hist(s));
    assert Hist(UndoStep(s)) == Undo(Hist(s));
  }

  /** Redo followed by undo gives back the whole state. */
  lemma RedoThenUndo(s: LegacyState)
    requires LegacyValid(s) && |s.redoStack| > 0
    ensures UndoStep(RedoStep(s)) == s
  {
    UndoRedoRoundTrip(Hist(s));
    assert Hist(RedoStep(s)) == Redo(Hist(s));
  }

  /** Undoing an accepted digit puts the grid and the undo stack back as they were; redo
      then holds only the digit. */
  lemma UndoAfterEntry(s: LegacyState, number: int)
    requires LegacyValid(s) && 1 <= number <= 9 && EnterNumber(s, number) != s
    ensures var r := UndoStep(EnterNumber(s, number));
            && r.puzzleData == s.puzzleData && r.undoStack == s.undoStack
            && |r.redoStack| == 1 && r.redoStack[0].number == number
  {
    var index := s.selectedIndexPath.value;
    IndexCell(index);
    UndoAfterEdit(Hist(s), RowOf(index), ColumnOf(index), number);
    assert Hist(EnterNumber(s, number)) == Edit(Hist(s), RowOf(index), ColumnOf(index), number);
  }

  /** A hint without a selection changes nothing; at the limit it changes nothing and
      the alert is shown; on a cell that already holds its solution value it changes
      nothing; otherwise that cell only takes its solution value, the prior value is
      pushed for undo, redo is emptied and the hint count goes up by one. */
  lemma HintOutcome(s: LegacyState)
    requires LegacyValid(s)
    ensures var r := HintStep(s);
            if s.selectedIndexPath.None? then r == s && !NoMoreHints(s)
            else if s.hintsUsed >= s.puzzleData.hintLimit then r == s && NoMoreHints(s)
            else
              var row, column := RowOf(s.selectedIndexPath.value), ColumnOf(s.selectedIndexPath.value);
              IsCell(row, column) &&
              if s.puzzleData.puzzle[row][column] == s.puzzleData.solution[row][column] then r == s
              else
                && r.puzzleData.puzzle[row][column] == s.puzzleData.solution[row][column]
                && (forall i, j :: IsCell(i, j) && (i != row || j != column) ==>
                      r.puzzleData.puzzle[i][j] == s.puzzleData.puzzle[i][j])
                && r.undoStack == s.undoStack + [Move(row, column, s.puzzleData.puzzle[row][column])]
                && r.redoStack == []
                && r.hintsUsed == s.hintsUsed + 1
                && r.selectedIndexPath == s.selectedIndexPath && r.currentNumber == s.currentNumber
  {
    if s.selectedIndexPath.Some? {
      IndexCell(s.selectedIndexPath.value);
    }
  }

  /** However many hints are asked for, the count never passes the limit (a limit of 0
      or less allows none). */
  lemma HintsWithinLimit(s: LegacyState)
    requires LegacyValid(s)
    ensures HintStep(s).hintsUsed <= (if s.puzzleData.hintLimit > 0 then s.puzzleData.hintLimit else 0)
    ensures HintStep(s).hintsUsed == s.hintsUsed || HintStep(s).hintsUsed == s.hintsUsed + 1
  {
    if s.selectedIndexPath.Some? {
      IndexCell(s.selectedIndexPath.value);
    }
  }

  /** Reset with a difficulty empties both stacks, forgets the selection, the current
      number and the hints used, and loads the fetched puzzle when one arrives, as a
      fresh load would; without a difficulty it changes nothing. */
  lemma ResetOutcome(s: LegacyState, difficulty: Option<string>, fetched: Option<PuzzleData>)
    requires LegacyValid(s) && (fetched.Some? ==> Loadable(fetched.value))
    ensures var r := ResetStep(s, difficulty, fetched);
            if difficulty.None? then r == s
            else
              && r.undoStack == [] && r.redoStack == [] && r.hintsUsed == 0
              && r.selectedIndexPath == None && r.currentNumber == None
              && (fetched.Some? ==> r == LegacyLoaded(fetched.value))
              && (fetched.None? ==> r.puzzleData == s.puzzleData)
  {
  }

  /** Tapping a cell twice gives back the selection that was there before, unless that
      selection was the cell itself, which the first tap clears; the grid and stacks
      never change. */
  lemma SelectTwice(s: LegacyState, index: int)
    requires LegacyValid(s) && 0 <= index < 81
    ensures Hist(SelectStep(s, index)) == Hist(s)
    ensures SelectStep(s, index).selectedIndexPath == Some(index) <==> s.selectedIndexPath != Some(index)
    ensures s.selectedIndexPath != Some(index) ==> SelectStep(SelectStep(s, index), index).selectedIndexPath == None
    ensures s.selectedIndexPath != Some(index) ==> SelectStep(SelectStep(s, index), index).currentNumber == None
  {
  }

  // ---------------------------------------------------------------------
  // The givens of the fetched puzzle

  /** The loaded grid's filled cells (the givens) still hold their values, and every
      record on either stack names a cell that was blank when loaded. */
  ghost predicate KeepsLoaded(s: LegacyState, initial: Board)
    requires LegacyValid(s) && IsBoard(initial)
  {
    RespectsGivens(Hist(s), initial)
  }

  /** With no copy of the givens the screen still never overwrites one: digit entry and
      hints are refused on a filled cell equal to the solution. */
  lemma EntryKeepsGivens(s: LegacyState, initial: Board, number: int)
    requires LegacyValid(s) && IsDigitBoard(initial) && GivensAgree(initial, s.puzzleData.solution)
    requires KeepsLoaded(s, initial) && 1 <= number <= 9
    ensures KeepsLoaded(EnterNumber(s, number), initial)
    ensures KeepsLoaded(HintStep(s), initial)
  {
    if s.selectedIndexPath.Some? {
      var index := s.selectedIndexPath.value;
      IndexCell(index);
      var row, column := RowOf(index), ColumnOf(index);
      if initial[row][column] != 0 {
        assert s.puzzleData.puzzle[row][column] == s.puzzleData.solution[row][column];
      } else {
        EditKeepsGivens(Hist(s), initial, row, column, number);
        EditKeepsGivens(Hist(s), initial, row, column, s.puzzleData.solution[row][column]);
      }
    }
  }

  /** Undo and redo only write the cells their records name, which were blank when loaded. */
  lemma UndoRedoKeepGivens(s: LegacyState, initial: Board)
    requires LegacyValid(s) && IsDigitBoard(initial) && KeepsLoaded(s, initial)
    ensures KeepsLoaded(UndoStep(s), initial)
    ensures KeepsLoaded(RedoStep(s), initial)
  {
    if |s.undoStack| > 0 {
      UndoKeepsGivens(Hist(s), initial);
    }
    if |s.redoStack| > 0 {
      RedoKeepsGivens(Hist(s), initial);
    }
  }

  /** isValidMove never accepts the value the cell already holds, since its scans
      include the cell itself. */
  lemma OwnValueNeverValid(g: Board, row: int, column: int)
    requires IsBoard(g) && IsCell(row, column)
    ensures Conflicts(g, g[row][column], row, column)
  {
    assert InRow(g, g[row][column], row) by { assert g[row][column] == g[row][column]; }
  }

  // ---------------------------------------------------------------------
  // The screen as an object

  class LegacySession {
    const selectedDifficulty: Option<string>
    var puzzleData: PuzzleData
    var undoStack: seq<Move>
    var redoStack: seq<Move>
    var selectedIndexPath: Option<int>
    var currentNumber: Option<int>
    var hintsUsed: int

    function State(): LegacyState
      reads this
    {
      LegacyState(puzzleData, undoStack, redoStack, selectedIndexPath, currentNumber, hintsUsed)
    }

    ghost predicate Valid()
      reads this
    {
      LegacyValid(State())
    }

    /** The screen once the puzzle fetched in viewDidLoad has arrived. */
    constructor (difficulty: Option<string>, data: PuzzleData)
      requires Loadable(data)
      ensures selectedDifficulty == difficulty
      ensures State() == LegacyLoaded(data)
      ensures Valid()
    {
      selectedDifficulty := difficulty;
      puzzleData := data;
      undoStack := [];
      redoStack := [];
      selectedIndexPath := None;
      currentNumber := None;
      hintsUsed := 0;
    }

    /** Pushes the cell's prior value, clears redo and writes v. */
    method Write(row: int, column: int, v: int)
      requires Valid() && IsCell(row, column) && 0 <= v <= 9
      modifies this
      ensures State() == WithHist(old(State()), Edit(Hist(old(State())), row, column, v))
      ensures Valid()
    {
      undoStack := undoStack + [Move(row, column, puzzleData.puzzle[row][column])];
      redoStack := [];
      puzzleData := puzzleData.(puzzle := Set(puzzleData.puzzle, row, column, v));
    }

    method UpdatePuzzle(number: int, index: int)
      requires Valid() && 0 <= number <= 9 && 0 <= index < 81
      modifies this
      ensures State() == UpdateStep(old(State()), number, index)
      ensures Valid()
    {
      var row := index / 9;
      var column := index % 9;
      Write(row, column, number);
    }

    method NumberButtonTapped(number: int)
      requires Valid() && 1 <= number <= 9
      modifies this
      ensures State() == EnterNumber(old(State()), number)
      ensures Valid()
    {
      if selectedIndexPath.None? {
        return;
      }
      var row := selectedIndexPath.value / 9;
      var column := selectedIndexPath.value % 9;
      if puzzleData.puzzle[row][column] != 0 && puzzleData.solution[row][column] == puzzleData.puzzle[row][column] {
        return;
      }
      currentNumber := Some(number);
      Write(row, column, number);
    }

    method UndoTapped()
      requires Valid()
      modifies this
      ensures State() == UndoStep(old(State()))
      ensures Valid()
    {
      if |undoStack| == 0 {
        return;
      }
      var lastMove := undoStack[|undoStack| - 1];
      undoStack := undoStack[..|undoStack| - 1];
      var currentState := Move(lastMove.row, lastMove.column, puzzleData.puzzle[lastMove.row][lastMove.column]);
      puzzleData := puzzleData.(puzzle := Set(puzzleData.puzzle, lastMove.row, lastMove.column, lastMove.number));
      redoStack := redoStack + [currentState];
    }

    method RedoTapped()
      requires Valid()
      modifies this
      ensures State() == RedoStep(old(State()))
      ensures Valid()
    {
      if |redoStack| == 0 {
        return;
      }
      var lastRedo := redoStack[|redoStack| - 1];
      redoStack := redoStack[..|redoStack| - 1];
      var currentState := Move(lastRedo.row, lastRedo.column, puzzleData.puzzle[lastRedo.row][lastRedo.column]);
      puzzleData := puzzleData.(puzzle := Set(puzzleData.puzzle, lastRedo.row, lastRedo.column, lastRedo.number));
      undoStack := undoStack + [currentState];
    }

    /** Returns whether the "No More Hints" alert is shown. */
    method HintTapped() returns (noMoreHints: bool)
      requires Valid()
      modifies this
      ensures State() == HintStep(old(State()))
      ensures noMoreHints == NoMoreHints(old(State()))
      ensures Valid()
    {
      if selectedIndexPath.None? {
        return false;
      }
      if !(hintsUsed < puzzleData.hintLimit) {
        return true;
      }
      var row := selectedIndexPath.value / 9;
      var column := selectedIndexPath.value % 9;
      var currentValue := puzzleData.puzzle[row][column];
      var correctValue := puzzleData.solution[row][column];
      if currentValue == correctValue {
        return false;
      }
      Write(row, column, correctValue);
      hintsUsed := hintsUsed + 1;
      noMoreHints := false;
    }

    /** resetTapped; `fetched` is what the fetch it starts delivers (None when it fails). */
    method ResetTapped(fetched: Option<PuzzleData>)
      requires Valid() && (fetched.Some? ==> Loadable(fetched.value))
      modifies this
      ensures State() == ResetStep(old(State()), selectedDifficulty, fetched)
      ensures Valid()
    {
      if selectedDifficulty.None? {
        return;
      }
      undoStack := [];
      redoStack := [];
      hintsUsed := 0;
      ForgetSelection();
      if fetched.Some? {
        puzzleData := fetched.value;
      }
    }

    method ForgetSelection()
      modifies this
      ensures State() == old(State()).(selectedIndexPath := None, currentNumber := None)
    {
      selectedIndexPath := None;
      currentNumber := None;
    }

    /** collectionView(_:didSelectItemAt:). */
    method DidSelectItemAt(index: int)
      requires Valid() && 0 <= index < 81
      modifies this
      ensures State() == SelectStep(old(State()), index)
      ensures Valid()
    {
      if selectedIndexPath == Some(index) {
        ForgetSelection();
      } else {
        selectedIndexPath := Some(index);
      }
    }

    /** numberExistsInRow: the row's `contains`. */
    method NumberExistsInRow(number: int, row: int) returns (found: bool)
      requires Valid() && 0 <= row < 9
      ensures found == InRow(puzzleData.puzzle, number, row)
    {
      found := number in puzzleData.puzzle[row];
      if found {
        ghost var c :| 0 <= c < 9 && puzzleData.puzzle[row][c] == number;
      }
    }

    /** numberExistsInColumn: scans the column top to bottom. */
    method NumberExistsInColumn(number: int, column: int) returns (found: bool)
      requires Valid() && 0 <= column < 9
      ensures found == InColumn(puzzleData.puzzle, number, column)
    {
      for r := 0 to 9
        invariant forall r' :: 0 <= r' < r ==> puzzleData.puzzle[r'][column] != number
      {
        if puzzleData.puzzle[r][column] == number {
          return true;
        }
      }
      return false;
    }

    /** numberExistsInBox: scans the 3x3 box row by row. */
    method NumberExistsInBox(number: int, row: int, column: int) returns (found: bool)
      requires Valid() && IsCell(row, column)
      ensures found == InBox(puzzleData.puzzle, number, row, column)
    {
      var g := puzzleData.puzzle;
      var boxRow := (row / 3) * 3;
      var boxColumn := (column / 3) * 3;
      for r := boxRow to boxRow + 3
        invariant forall r', c' :: boxRow <= r' < r && boxColumn <= c' < boxColumn + 3 ==> g[r'][c'] != number
      {
        for c := boxColumn to boxColumn + 3
          invariant forall c' :: boxColumn <= c' < c ==> g[r][c'] != number
        {
          if g[r][c] == number {
            return true;
          }
        }
      }
      return false;
    }

    /** isValidMove: the number is nowhere in the cell's row, column or box, the cell
        itself included. */
    method IsValidMove(number: int, index: int) returns (valid: bool)
      requires Valid() && 0 <= index < 81
      ensures valid == !Conflicts(puzzleData.puzzle, number, RowOf(index), ColumnOf(index))
    {
      IndexCell(index);
      var row := index / 9;
      var column := index % 9;
      var inRow := NumberExistsInRow(number, row);
      var inColumn := NumberExistsInColumn(number, column);
      var inBox := NumberExistsInBox(number, row, column);
      valid := !inRow && !inColumn && !inBox;
    }

    /** The flags cellForItemAt passes to the cell: a filled cell is drawn as initial
        when it equals the solution and as incorrect exactly when it differs from it.
        The duplicate scans run only on filled cells that differ from the solution, so
        they never change the incorrect flag. */
    method CellFlags(index: int) returns (isInitial: bool, isIncorrect: bool)
      requires Valid() && 0 <= index < 81
      ensures var v, sol := puzzleData.puzzle[RowOf(index)][ColumnOf(index)],
                            puzzleData.solution[RowOf(index)][ColumnOf(index)];
              && isInitial == (v != 0 && v == sol)
              && isIncorrect == (v != 0 && v != sol)
    {
      IndexCell(index);
      var row := index / 9;
      var column := index % 9;
      var cellValue := puzzleData.puzzle[row][column];
      var correctValue := puzzleData.solution[row][column];
      isInitial := cellValue != 0 && correctValue == cellValue;
      isIncorrect := false;
      if cellValue != 0 {
        isIncorrect := cellValue != correctValue;
        if !isInitial {
          var duplicated := DuplicateInPeers(puzzleData.puzzle, row, column);
          isIncorrect := isIncorrect || duplicated;
        }
      }
    }
  }

  /** The duplicate scans of cellForItemAt: the cell's value occurs more than once in
      its row, or elsewhere in its column, or elsewhere in its box. */
  method DuplicateInPeers(puzzle: Board, row: int, column: int) returns (duplicated: bool)
    requires IsBoard(puzzle) && IsCell(row, column)
    ensures duplicated == ConflictsWithPeer(puzzle, puzzle[row][column], row, column)
  {
    var cellValue := puzzle[row][column];
    OccurrencesAboveOne(puzzle[row], column, cellValue);
    var sameInRow := Occurrences(puzzle[row], cellValue) > 1;
    var sameInColumn := false;
    for r := 0 to 9
      invariant sameInColumn <==> exists r' :: 0 <= r' < r && r' != row && puzzle[r'][column] == cellValue
    {
      if r != row && puzzle[r][column] == cellValue {
        sameInColumn := true;
        break;
      }
    }
    var sameInBox := false;
    var boxStartRow := (row / 3) * 3;
    var boxStartColumn := (column / 3) * 3;
    for r := boxStartRow to boxStartRow + 3
      invariant sameInBox <==> exists r', c' :: boxStartRow <= r' < r && boxStartColumn <= c' < boxStartColumn + 3
                                               && (r' != row || c' != column) && puzzle[r'][c'] == cellValue
    {
      for c := boxStartColumn to boxStartColumn + 3
        invariant sameInBox <==> exists r', c' :: (boxStartRow <= r' < r || (r' == r && boxStartColumn <= c' < c))
                                                 && boxStartColumn <= c' < boxStartColumn + 3
                                                 && (r' != row || c' != column) && puzzle[r'][c'] == cellValue
      {
        if (r != row || c != column) && puzzle[r][c] == cellValue {
          sameInBox := true;
          break;
        }
      }
    }
    duplicated := sameInRow || sameInColumn || sameInBox;
  }
}
