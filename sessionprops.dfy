/**
  What the handlers of the canonical game screen (Controllers/SudokuStartVC.swift)
  promise, stated about the steps of module GameState: the givens never change,
  every accepted change is recorded for undo, undo and redo exchange records and
  restore the grid, the limits refuse without changing anything, and the end of a
  game is submitted and rewarded at most once.
 */
module SessionProperties {
  import opened Wrappers
  import opened Grid
  import opened History
  import opened Puzzle
  import opened Scoring
  import opened Streak
  import opened GameState

  /** The grid, the stacks and every counter, which the refused and ignored paths keep. */
  predicate SameProgress(a: SessionState, b: SessionState) {
    && HistOf(a) == HistOf(b)
    && a.hintsUsed == b.hintsUsed && a.undoCount == b.undoCount
    && a.redoCount == b.redoCount && a.wrongEntryCount == b.wrongEntryCount
  }

  /** The given cells of the grid. */
  ghost predicate SameGivens(a: SessionState, b: SessionState)
    requires IsBoard(a.initialPuzzle) && IsBoard(a.puzzleData.puzzle) && IsBoard(b.puzzleData.puzzle)
  {
    forall r, c :: IsCell(r, c) && a.initialPuzzle[r][c] != 0 ==>
      b.puzzleData.puzzle[r][c] == a.puzzleData.puzzle[r][c]
  }

  // ---------------------------------------------------------------------
  // Given cells

  /** Two valid states with the same givens snapshot agree on every given cell. */
  lemma ValidKeepsGivens(s: SessionState, t: SessionState)
    requires StateValid(s) && StateValid(t) && t.initialPuzzle == s.initialPuzzle
    ensures SameGivens(s, t)
  {
  }

  /** Digit entry, notes and clear leave the givens snapshot and every given cell as they
      were. */
  lemma EntryKeepsGivens(s: SessionState, number: int)
    requires StateValid(s) && 1 <= number <= 9
    ensures EnterNumber(s, number).initialPuzzle == s.initialPuzzle && SameGivens(s, EnterNumber(s, number))
    ensures ClearCell(s).initialPuzzle == s.initialPuzzle && SameGivens(s, ClearCell(s))
  {
    ValidKeepsGivens(s, EnterNumber(s, number));
    ValidKeepsGivens(s, ClearCell(s));
  }

  /** Undo and redo leave the givens snapshot and every given cell as they were. */
  lemma UndoRedoKeepGivens(s: SessionState)
    requires StateValid(s)
    ensures UndoStep(s).state.initialPuzzle == s.initialPuzzle && SameGivens(s, UndoStep(s).state)
    ensures RedoStep(s).state.initialPuzzle == s.initialPuzzle && SameGivens(s, RedoStep(s).state)
  {
    ValidKeepsGivens(s, UndoStep(s).state);
    ValidKeepsGivens(s, RedoStep(s).state);
  }

  /** A hint leaves the givens snapshot and every given cell as they were. */
  lemma HintKeepsGivens(s: SessionState)
    requires StateValid(s)
    ensures HintStep(s).state.initialPuzzle == s.initialPuzzle && SameGivens(s, HintStep(s).state)
  {
    ValidKeepsGivens(s, HintStep(s).state);
  }

  /** A hint on a given is a no-op: the givens agree with the solution and the grid keeps
      them, so the cell already holds its solution. The handler itself never looks at
      the givens. */
  lemma HintOnGivenIsNoop(s: SessionState)
    requires StateValid(s) && s.selectedIndexPath.Some?
    requires s.initialPuzzle[SelRow(s)][SelColumn(s)] != 0
    ensures HintStep(s).state == s
  {
    IndexCell(s.selectedIndexPath.value);
  }

  // ---------------------------------------------------------------------
  // Digit entry and clear

  /** Digit entry and clear ignore a missing selection and a given cell. */
  lemma EntryIgnoredOffEditable(s: SessionState, number: int)
    requires StateValid(s) && 1 <= number <= 9 && !Editable(s)
    ensures EnterNumber(s, number) == s && ClearCell(s) == s
  {
  }

  /** A digit committed outside notes mode: the cell's prior value is pushed for undo,
      redo is emptied, the cell takes the digit and loses its notes, one wrong entry is
      counted exactly when the digit is not the solution's, and the other counters
      stay as they were. */
  lemma CommitDigit(s: SessionState, number: int)
    requires StateValid(s) && 1 <= number <= 9 && Editable(s) && !s.isNotesMode
    ensures var r, row, column := EnterNumber(s, number), SelRow(s), SelColumn(s);
            && r.puzzleData.puzzle[row][column] == number
            && (forall i, j :: IsCell(i, j) && (i != row || j != column) ==>
                  r.puzzleData.puzzle[i][j] == s.puzzleData.puzzle[i][j])
            && r.undoStack == s.undoStack + [Move(row, column, s.puzzleData.puzzle[row][column])]
            && r.redoStack == []
            && r.cellNotes == s.cellNotes - {s.selectedIndexPath.value}
            && (r.wrongEntryCount == s.wrongEntryCount + 1 <==> number != s.puzzleData.solution[row][column])
            && (r.wrongEntryCount == s.wrongEntryCount <==> number == s.puzzleData.solution[row][column])
            && r.hintsUsed == s.hintsUsed && r.undoCount == s.undoCount && r.redoCount == s.redoCount
            && r.currentNumber == Some(number)
  {
  }

  /** Undoing a committed digit gives back the grid and the undo stack it was entered on. */
  lemma UndoAfterCommit(s: SessionState, number: int)
    requires StateValid(s) && 1 <= number <= 9 && Editable(s) && !s.isNotesMode
    requires s.undoCount < s.puzzleData.undoLimit
    ensures var u := UndoStep(EnterNumber(s, number)).state;
            u.puzzleData.puzzle == s.puzzleData.puzzle && u.undoStack == s.undoStack
            && u.redoStack == [Move(SelRow(s), SelColumn(s), number)]
  {
    UndoAfterEdit(HistOf(s), SelRow(s), SelColumn(s), number);
  }

  /** A digit tapped in notes mode never touches the grid, the stacks or the counters.
      It is refused on a filled cell and for a digit already in the cell's row, column
      or box (a scan that includes the cell, harmless since the cell is blank);
      otherwise the digit's membership in the cell's notes flips and nothing else in
      the notes changes. */
  lemma NoteEntry(s: SessionState, number: int)
    requires StateValid(s) && 1 <= number <= 9 && Editable(s) && s.isNotesMode
    ensures var r, row, column, index := EnterNumber(s, number), SelRow(s), SelColumn(s), s.selectedIndexPath.value;
            && SameProgress(r, s)
            && ((s.puzzleData.puzzle[row][column] != 0 || Conflicts(s.puzzleData.puzzle, number, row, column)) ==> r == s)
            && (s.puzzleData.puzzle[row][column] == 0 && !Conflicts(s.puzzleData.puzzle, number, row, column) ==>
                  && (number in NotesAt(r.cellNotes, index) <==> number !in NotesAt(s.cellNotes, index))
                  && (forall n :: n != number ==> (n in NotesAt(r.cellNotes, index) <==> n in NotesAt(s.cellNotes, index)))
                  && (forall k :: k != index ==> NotesAt(r.cellNotes, k) == NotesAt(s.cellNotes, k)))
  {
  }

  /** Clearing a selected non-given cell: the prior value is pushed for undo, redo is
      emptied, the cell is blanked and loses its notes while every other cell keeps its
      value, no counter changes (the wrong-entry count included) and the current number
      becomes nil. */
  lemma ClearRecordsPrior(s: SessionState)
    requires StateValid(s) && Editable(s)
    ensures var r, row, column := ClearCell(s), SelRow(s), SelColumn(s);
            && r.puzzleData.puzzle[row][column] == 0
            && (forall i, j :: IsCell(i, j) && (i != row || j != column) ==>
                  r.puzzleData.puzzle[i][j] == s.puzzleData.puzzle[i][j])
            && r.undoStack == s.undoStack + [Move(row, column, s.puzzleData.puzzle[row][column])]
            && r.redoStack == []
            && r.cellNotes == s.cellNotes - {s.selectedIndexPath.value}
            && r.hintsUsed == s.hintsUsed && r.undoCount == s.undoCount
            && r.redoCount == s.redoCount && r.wrongEntryCount == s.wrongEntryCount
            && r.currentNumber == None
  {
  }

  // ---------------------------------------------------------------------
  // Undo and redo

  /** undoTapped: at the limit it alerts and changes nothing; on an empty stack it does
      nothing; otherwise it writes the popped value into its cell, pushes the cell's
      current value onto redo, selects the cell, clears the current number and counts one
      undo; the pencil notes are left as they were. */
  lemma UndoOutcome(s: SessionState)
    requires StateValid(s)
    ensures s.undoCount >= s.puzzleData.undoLimit ==> UndoStep(s) == Step(s, UndoLimitReached)
    ensures s.undoCount < s.puzzleData.undoLimit && s.undoStack == [] ==> UndoStep(s) == Step(s, NoAlert)
    ensures s.undoCount < s.puzzleData.undoLimit && s.undoStack != [] ==>
              var m, r := s.undoStack[|s.undoStack| - 1], UndoStep(s).state;
              && UndoStep(s).alert == NoAlert
              && r.puzzleData.puzzle[m.row][m.column] == m.number
              && (forall i, j :: IsCell(i, j) && (i != m.row || j != m.column) ==>
                    r.puzzleData.puzzle[i][j] == s.puzzleData.puzzle[i][j])
              && r.undoStack == s.undoStack[..|s.undoStack| - 1]
              && r.redoStack == s.redoStack + [Move(m.row, m.column, s.puzzleData.puzzle[m.row][m.column])]
              && r.undoCount == s.undoCount + 1
              && r.redoCount == s.redoCount && r.hintsUsed == s.hintsUsed && r.wrongEntryCount == s.wrongEntryCount
              && r.selectedIndexPath == Some(IndexOf(m.row, m.column))
              && r.currentNumber == None
              && r.cellNotes == s.cellNotes
  {
    if s.undoCount < s.puzzleData.undoLimit && s.undoStack != [] {
      UndoWritesTop(HistOf(s));
    }
  }

  /** redoTapped: the mirror image of undoTapped (the redone cell is selected), with the
      redone value as the current number; the pencil notes are left as they were. */
  lemma RedoOutcome(s: SessionState)
    requires StateValid(s)
    ensures s.redoCount >= s.puzzleData.redoLimit ==> RedoStep(s) == Step(s, RedoLimitReached)
    ensures s.redoCount < s.puzzleData.redoLimit && s.redoStack == [] ==> RedoStep(s) == Step(s, NoAlert)
    ensures s.redoCount < s.puzzleData.redoLimit && s.redoStack != [] ==>
              var m, r := s.redoStack[|s.redoStack| - 1], RedoStep(s).state;
              && RedoStep(s).alert == NoAlert
              && r.puzzleData.puzzle[m.row][m.column] == m.number
              && (forall i, j :: IsCell(i, j) && (i != m.row || j != m.column) ==>
                    r.puzzleData.puzzle[i][j] == s.puzzleData.puzzle[i][j])
              && r.redoStack == s.redoStack[..|s.redoStack| - 1]
              && r.undoStack == s.undoStack + [Move(m.row, m.column, s.puzzleData.puzzle[m.row][m.column])]
              && r.redoCount == s.redoCount + 1
              && r.undoCount == s.undoCount && r.hintsUsed == s.hintsUsed && r.wrongEntryCount == s.wrongEntryCount
              && r.selectedIndexPath == Some(IndexOf(m.row, m.column))
              && r.currentNumber == Some(m.number)
              && r.cellNotes == s.cellNotes
  {
  }

  /** A successful undo followed by a redo within its limit gives back the grid and both
      stacks exactly. */
  lemma UndoThenRedoRestores(s: SessionState)
    requires StateValid(s) && s.undoStack != []
    requires s.undoCount < s.puzzleData.undoLimit && s.redoCount < s.puzzleData.redoLimit
    ensures HistOf(RedoStep(UndoStep(s).state).state) == HistOf(s)
  {
    RedoUndoRoundTrip(HistOf(s));
  }

  /** A successful redo followed by an undo within its limit gives back the grid and both
      stacks exactly. */
  lemma RedoThenUndoRestores(s: SessionState)
    requires StateValid(s) && s.redoStack != []
    requires s.redoCount < s.puzzleData.redoLimit && s.undoCount < s.puzzleData.undoLimit
    ensures HistOf(UndoStep(RedoStep(s).state).state) == HistOf(s)
  {
    UndoRedoRoundTrip(HistOf(s));
  }

  // ---------------------------------------------------------------------
  // Hint

  /** hintTapped: without a selection it does nothing; with the hints used up it alerts
      and changes nothing; on a cell that already holds its solution it does nothing;
      otherwise the solution digit is written into that cell alone and becomes the
      current number, its prior value is pushed for undo, redo is emptied, exactly one
      hint is counted (no other counter moves), the pencil notes are left as they were,
      and the last-hint alert comes exactly when that uses up the limit. */
  lemma HintOutcome(s: SessionState)
    requires StateValid(s)
    ensures s.selectedIndexPath.None? ==> HintStep(s) == Step(s, NoAlert)
    ensures s.selectedIndexPath.Some? && s.hintsUsed >= s.puzzleData.hintLimit ==> HintStep(s) == Step(s, NoMoreHints)
    ensures s.selectedIndexPath.Some? && s.hintsUsed < s.puzzleData.hintLimit ==>
              var row, column, r := SelRow(s), SelColumn(s), HintStep(s).state;
              var correct := s.puzzleData.solution[row][column];
              && (s.puzzleData.puzzle[row][column] == correct ==> HintStep(s) == Step(s, NoAlert))
              && (s.puzzleData.puzzle[row][column] != correct ==>
                    && r.puzzleData.puzzle[row][column] == correct
                    && (forall i, j :: IsCell(i, j) && (i != row || j != column) ==>
                          r.puzzleData.puzzle[i][j] == s.puzzleData.puzzle[i][j])
                    && r.undoStack == s.undoStack + [Move(row, column, s.puzzleData.puzzle[row][column])]
                    && r.redoStack == []
                    && r.hintsUsed == s.hintsUsed + 1
                    && r.undoCount == s.undoCount && r.redoCount == s.redoCount
                    && r.wrongEntryCount == s.wrongEntryCount
                    && r.currentNumber == Some(correct)
                    && r.cellNotes == s.cellNotes
                    && (HintStep(s).alert == LastHintUsed <==> r.hintsUsed == s.puzzleData.hintLimit))
  {
  }

  // ---------------------------------------------------------------------
  // Selection

  /** didSelectItemAt: a tap on the selected cell changes nothing (it does not
      deselect); a tap on another cell selects it, makes its digit the current number
      (none for a blank cell), and leaves the grid, stacks, notes and counters alone. */
  lemma SelectOutcome(s: SessionState, index: int)
    requires StateValid(s) && 0 <= index < 81
    ensures s.selectedIndexPath == Some(index) ==> Select(s, index) == s
    ensures s.selectedIndexPath != Some(index) ==>
              var r, value := Select(s, index), s.puzzleData.puzzle[RowOf(index)][ColumnOf(index)];
              && r.selectedIndexPath == Some(index)
              && (r.currentNumber.Some? <==> value != 0)
              && (value != 0 ==> r.currentNumber == Some(value))
              && SameProgress(r, s) && r.cellNotes == s.cellNotes && r.isNotesMode == s.isNotesMode
              && r.puzzleData == s.puzzleData && r.initialPuzzle == s.initialPuzzle && r.ledger == s.ledger
  {
  }

  // ---------------------------------------------------------------------
  // Reset

  /** Reset with a fetched puzzle leaves the screen as a fresh load of that puzzle would,
      except that the one-shot submission flags keep their values. */
  lemma ResetIsFreshLoad(s: SessionState, data: PuzzleData)
    requires StateValid(s) && Loadable(data)
    ensures Reset(s, Some(data)) == Loaded(data, s.ledger).(hasSubmittedGameData := s.hasSubmittedGameData,
                                                           hasSubmittedZeroValues := s.hasSubmittedZeroValues)
  {
  }

  // ---------------------------------------------------------------------
  // End of game

  /** The submitted total is the clamped score, with the +70 streak bonus added after the
      clamp. */
  lemma FinalReportTotal(s: SessionState, difficulty: string, elapsedSeconds: int)
    ensures var base := 100 + TimeBonus(difficulty, elapsedSeconds)
                        - (3 * s.hintsUsed + s.redoCount + s.undoCount + 2 * s.wrongEntryCount);
            FinalReport(s, difficulty, elapsedSeconds).totalPoints
              == (if base > 0 then base else 0) + (if BonusDue(s) then StreakBonus else 0)
  {
  }

  /** Once a game has been finished or abandoned, the streak bonus is no longer due on its
      date: either it was just granted and its flags are set, or it was not due and
      saving the date again changes nothing. */
  lemma NoBonusAfterFinish(s: SessionState, difficulty: string, elapsedSeconds: int)
    requires StateValid(s)
    ensures !BonusDue(CompleteGame(s, difficulty, elapsedSeconds).state)
    ensures !s.hasSubmittedZeroValues ==> !BonusDue(AbandonGame(s, difficulty, elapsedSeconds).state)
  {
    var date := s.puzzleData.puzzleDate;
    var saved := SavePlayedDate(s.ledger, date);
    var awarded := AwardStreak(saved, date);
    assert SavePlayedDate(awarded, date) == awarded;
    if StreakBonusDue(saved, date) {
      StreakBonusOncePerDate(saved, date);
    }
  }

  /** The game is submitted at most once: after navigateToNextScreen, neither a second
      finish nor an exit sends anything, and a second exit is a no-op. */
  lemma SubmittedOnce(s: SessionState, difficulty: string, elapsedSeconds: int, laterSeconds: int)
    requires StateValid(s)
    ensures CompleteGame(CompleteGame(s, difficulty, elapsedSeconds).state, difficulty, laterSeconds).sent == None
    ensures AbandonGame(CompleteGame(s, difficulty, elapsedSeconds).state, difficulty, laterSeconds).sent == None
    ensures var a := AbandonGame(s, difficulty, elapsedSeconds).state;
            AbandonGame(a, difficulty, laterSeconds) == Finish(a, None, false)
    ensures CompleteGame(AbandonGame(s, difficulty, elapsedSeconds).state, difficulty, laterSeconds).sent
            == (if s.hasSubmittedZeroValues then CompleteGame(s, difficulty, laterSeconds).sent else None)
  {
  }

  /** The celebration is shown exactly when the report goes out carrying the +70 bonus. */
  lemma CelebrateWithBonus(s: SessionState, difficulty: string, elapsedSeconds: int)
    requires StateValid(s)
    ensures var f := CompleteGame(s, difficulty, elapsedSeconds);
            f.celebrate <==> f.sent.Some? && BonusDue(s)
  {
  }
}
