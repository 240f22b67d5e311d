/**
  The canonical game screen (Controllers/SudokuStartVC.swift) as an object:
  the handlers update its fields in place, and each one is proved to perform
  the step that module GameState defines for it.
 */
module Session {
  import opened Wrappers
  import opened Grid
  import opened History
  import opened Puzzle
  import opened Scoring
  import opened Streak
  import opened GameState

  class SudokuSession {
    const selectedDifficulty: string
    var puzzleData: PuzzleData
    var initialPuzzle: Board
    var undoStack: seq<Move>
    var redoStack: seq<Move>
    var cellNotes: map<int, set<int>>
    var isNotesMode: bool
    var selectedIndexPath: Option<int>
    var currentNumber: Option<int>
    var hintsUsed: int
    var undoCount: int
    var redoCount: int
    var wrongEntryCount: int
    var hasSubmittedGameData: bool
    var hasSubmittedZeroValues: bool
    /** The `PlayedDates` list and streak flags the screen keeps in persistent storage. */
    var ledger: Ledger

    function State(): SessionState
      reads this
    {
      SessionState(puzzleData, initialPuzzle, undoStack, redoStack, cellNotes, isNotesMode,
                   selectedIndexPath, currentNumber, hintsUsed, undoCount, redoCount, wrongEntryCount,
                   hasSubmittedGameData, hasSubmittedZeroValues, ledger)
    }

    ghost predicate Valid()
      reads this
    {
      StateValid(State())
    }

    /** The screen for a difficulty once its puzzle has arrived: the givens are the
        fetched grid, nothing is selected, and the puzzle's date is saved as played. */
    constructor (difficulty: string, data: PuzzleData, saved: Ledger)
      requires Loadable(data) && NoDuplicates(saved.playedDates)
      ensures Valid()
      ensures selectedDifficulty == difficulty
      ensures State() == Loaded(data, saved)
    {
      selectedDifficulty := difficulty;
      puzzleData := data;
      initialPuzzle := data.puzzle;
      undoStack := [];
      redoStack := [];
      cellNotes := map[];
      isNotesMode := false;
      selectedIndexPath := None;
      currentNumber := None;
      hintsUsed := 0;
      undoCount := 0;
      redoCount := 0;
      wrongEntryCount := 0;
      hasSubmittedGameData := false;
      hasSubmittedZeroValues := false;
      ledger := SavePlayedDate(saved, data.puzzleDate);
    }

    /** Stores an edited history: the working grid and both stacks. */
    method StoreHistory(h: History)
      modifies this
      ensures State() == WithHistory(old(State()), h)
    {
      puzzleData := puzzleData.(puzzle := h.board);
      undoStack := h.undoStack;
      redoStack := h.redoStack;
    }

    /** numberButtonTapped for a digit button. */
    method NumberButtonTapped(number: int)
      requires Valid() && 1 <= number <= 9
      modifies this
      ensures State() == EnterNumber(old(State()), number)
      ensures Valid()
    {
      if selectedIndexPath.None? {
        return;
      }
      var index := selectedIndexPath.value;
      var row := index / 9;
      var column := index % 9;
      if initialPuzzle[row][column] != 0 {
        return;
      }
      if isNotesMode {
        if puzzleData.puzzle[row][column] != 0 {
          return;
        }
        var conflicting := IsNumberConflicting(puzzleData.puzzle, number, row, column);
        if conflicting {
          return;
        }
        var notes := if index in cellNotes then cellNotes[index] else {};
        cellNotes := cellNotes[index := ToggleNote(notes, number)];
      } else {
        var wrong := number != puzzleData.solution[row][column];
        StoreHistory(Edit(HistOf(State()), row, column, number));
        cellNotes := cellNotes - {index};
        if wrong {
          wrongEntryCount := wrongEntryCount + 1;
        }
        currentNumber := Some(number);
      }
    }

    /** clearButtonTapped, the X button. */
    method ClearButtonTapped()
      requires Valid()
      modifies this
      ensures State() == ClearCell(old(State()))
      ensures Valid()
    {
      if selectedIndexPath.None? {
        return;
      }
      var index := selectedIndexPath.value;
      var row := index / 9;
      var column := index % 9;
      if initialPuzzle[row][column] != 0 {
        return;
      }
      StoreHistory(Edit(HistOf(State()), row, column, 0));
      cellNotes := cellNotes - {index};
      currentNumber := None;
    }

    method UndoTapped() returns (alert: Alert)
      requires Valid()
      modifies this
      ensures Step(State(), alert) == UndoStep(old(State()))
      ensures Valid()
    {
      if undoCount >= puzzleData.undoLimit {
        return UndoLimitReached;
      }
      if undoStack == [] {
        return NoAlert;
      }
      var lastMove := undoStack[|undoStack| - 1];
      StoreHistory(Undo(HistOf(State())));
      selectedIndexPath := Some(lastMove.row * 9 + lastMove.column);
      currentNumber := None;
      undoCount := undoCount + 1;
      alert := NoAlert;
    }

    method RedoTapped() returns (alert: Alert)
      requires Valid()
      modifies this
      ensures Step(State(), alert) == RedoStep(old(State()))
      ensures Valid()
    {
      if redoCount >= puzzleData.redoLimit {
        return RedoLimitReached;
      }
      if redoStack == [] {
        return NoAlert;
      }
      var lastRedo := redoStack[|redoStack| - 1];
      StoreHistory(Redo(HistOf(State())));
      currentNumber := Some(lastRedo.number);
      selectedIndexPath := Some(lastRedo.row * 9 + lastRedo.column);
      redoCount := redoCount + 1;
      alert := NoAlert;
    }

    method HintTapped() returns (alert: Alert)
      requires Valid()
      modifies this
      ensures Step(State(), alert) == HintStep(old(State()))
      ensures Valid()
    {
      if selectedIndexPath.None? {
        return NoAlert;
      }
      if hintsUsed >= puzzleData.hintLimit {
        return NoMoreHints;
      }
      var index := selectedIndexPath.value;
      var row := index / 9;
      var column := index % 9;
      var currentValue := puzzleData.puzzle[row][column];
      var correctValue := puzzleData.solution[row][column];
      if currentValue == correctValue {
        return NoAlert;
      }
      StoreHistory(Edit(HistOf(State()), row, column, correctValue));
      hintsUsed := hintsUsed + 1;
      currentNumber := Some(correctValue);
      alert := if hintsUsed == puzzleData.hintLimit then LastHintUsed else NoAlert;
    }

    /** The counters resetTapped zeroes. */
    method ResetCounters()
      modifies this
      ensures State() == old(State()).(hintsUsed := 0, undoCount := 0, redoCount := 0, wrongEntryCount := 0)
    {
      hintsUsed := 0;
      undoCount := 0;
      redoCount := 0;
      wrongEntryCount := 0;
    }

    /** Notes mode, the selection and the notes, as resetTapped clears them. */
    method ClearSelection()
      modifies this
      ensures State() == old(State()).(isNotesMode := false, selectedIndexPath := None,
                                       currentNumber := None, cellNotes := map[])
    {
      isNotesMode := false;
      selectedIndexPath := None;
      currentNumber := None;
      cellNotes := map[];
    }

    /** The completion of the fetch: the puzzle and a copy of its grid as the givens,
        its date saved as played, and the selection cleared. */
    method PuzzleArrived(data: PuzzleData)
      modifies this
      ensures State() == old(State()).(puzzleData := data, initialPuzzle := data.puzzle,
                                       ledger := SavePlayedDate(old(ledger), data.puzzleDate),
                                       selectedIndexPath := None)
    {
      initialPuzzle := data.puzzle;
      puzzleData := data;
      ledger := SavePlayedDate(ledger, data.puzzleDate);
      selectedIndexPath := None;
    }

    /** resetTapped together with the outcome of the fetch it starts. */
    method ResetTapped(fetched: Option<PuzzleData>)
      requires Valid()
      requires fetched.Some? ==> Loadable(fetched.value)
      modifies this
      ensures State() == Reset(old(State()), fetched)
      ensures Valid()
    {
      undoStack := [];
      redoStack := [];
      ResetCounters();
      ClearSelection();
      if fetched.Some? {
        PuzzleArrived(fetched.value);
      }
    }

    method NoteTapped()
      requires Valid()
      modifies this
      ensures State() == ToggleNotesMode(old(State()))
      ensures Valid()
    {
      isNotesMode := !isNotesMode;
    }

    method DidSelectItemAt(index: int)
      requires Valid() && 0 <= index < 81
      modifies this
      ensures State() == Select(old(State()), index)
      ensures Valid()
    {
      if selectedIndexPath == Some(index) {
        return;
      }
      selectedIndexPath := Some(index);
      var cellValue := puzzleData.puzzle[index / 9][index % 9];
      currentNumber := if cellValue != 0 then Some(cellValue) else None;
    }

    /** toggleNumberButtons(enabled:forEmptyCell:), the rule applied when a cell is selected:
        buttons 1-9 then the clear button. Without a selection all are off; digit d is on
        when `enabled` is and d fills fewer than 9 cells; clear is on exactly when the
        selected cell is blank or wrong. */
    method ToggleNumberButtons(enabled: bool) returns (buttons: seq<bool>)
      requires Valid()
      ensures |buttons| == 10
      ensures selectedIndexPath.None? ==> forall i :: 0 <= i < 10 ==> !buttons[i]
      ensures selectedIndexPath.Some? ==>
                forall d :: 1 <= d <= 9 ==> buttons[d - 1] == (enabled && Count(puzzleData.puzzle, d) < 9)
      ensures selectedIndexPath.Some? ==>
                var row, column := RowOf(selectedIndexPath.value), ColumnOf(selectedIndexPath.value);
                buttons[9] == (puzzleData.puzzle[row][column] == 0
                               || puzzleData.puzzle[row][column] != puzzleData.solution[row][column])
    {
      if selectedIndexPath.None? {
        return seq(10, _ => false);
      }
      var numberCounts := TallyDigits(puzzleData.puzzle);
      var row := selectedIndexPath.value / 9;
      var col := selectedIndexPath.value % 9;
      buttons := [];
      for index := 0 to 10
        invariant |buttons| == index
        invariant forall i :: 0 <= i < index && i < 9 ==> buttons[i] == (enabled && Count(puzzleData.puzzle, i + 1) < 9)
        invariant index == 10 ==> buttons[9] == (puzzleData.puzzle[row][col] == 0
                                                 || puzzleData.puzzle[row][col] != puzzleData.solution[row][col])
      {
        if index == 9 {
          var currentCellValue := puzzleData.puzzle[row][col];
          var isCellIncorrect := currentCellValue != 0 && currentCellValue != puzzleData.solution[row][col];
          buttons := buttons + [isCellIncorrect || currentCellValue == 0];
        } else {
          var number := index + 1;
          var isMaxCountReached := numberCounts[number] >= 9;
          buttons := buttons + [enabled && !isMaxCountReached];
        }
      }
    }

    /** isNumberDisabled: a button whose title is a digit is disabled once that digit
        fills 9 cells; the clear button, which has no title, never is. */
    method IsNumberDisabled(title: Option<int>) returns (disabled: bool)
      requires Valid()
      ensures disabled <==> title.Some? && Count(puzzleData.puzzle, title.value) >= 9
    {
      if title.None? {
        return false;
      }
      var count := CountNumberOccurrences(puzzleData.puzzle, title.value);
      disabled := count >= 9;
    }

    /** The refresh that undo, redo, clear and reset end with: every button is set to the
        negation of isNumberDisabled, so digit d is on exactly while it fills fewer than
        9 cells, and clear is on. */
    method RefreshNumberButtons() returns (buttons: seq<bool>)
      requires Valid()
      ensures |buttons| == 10
      ensures forall d :: 1 <= d <= 9 ==> buttons[d - 1] == (Count(puzzleData.puzzle, d) < 9)
      ensures buttons[9]
    {
      buttons := [];
      for index := 0 to 10
        invariant |buttons| == index
        invariant forall i :: 0 <= i < index && i < 9 ==> buttons[i] == (Count(puzzleData.puzzle, i + 1) < 9)
        invariant index == 10 ==> buttons[9]
      {
        var title := if index < 9 then Some(index + 1) else None;
        var disabled := IsNumberDisabled(title);
        buttons := buttons + [!disabled];
      }
    }

    /** isPuzzleCompleted on the working grid. */
    method IsPuzzleCompleted() returns (done: bool)
      requires Valid()
      ensures done <==> puzzleData.puzzle == puzzleData.solution
    {
      done := Grid.IsPuzzleCompleted(puzzleData.puzzle, puzzleData.solution);
      SolvedIsEquality(puzzleData.puzzle, puzzleData.solution);
    }

    /** submitGameData: sends the report unless a report was already sent, and marks the
        game as submitted. */
    method SubmitGameData(report: Submission) returns (sent: Option<Submission>)
      modifies this
      ensures sent == if old(hasSubmittedGameData) then None else Some(report)
      ensures State() == old(State()).(hasSubmittedGameData := true)
    {
      if hasSubmittedGameData {
        return None;
      }
      hasSubmittedGameData := true;
      sent := Some(report);
    }

    /** The report navigateToNextScreen builds: the score with its time bonus and
        deductions, plus the streak bonus when the streak check found it due. */
    method ComposeReport(elapsedSeconds: int, bonusDue: bool) returns (report: Submission)
      requires Valid() && bonusDue == BonusDue(State())
      ensures report == FinalReport(State(), selectedDifficulty, elapsedSeconds)
    {
      var totalScore := GameScore(selectedDifficulty, elapsedSeconds, hintsUsed, redoCount, undoCount, wrongEntryCount);
      if bonusDue {
        totalScore := totalScore + StreakBonus;
      }
      report := GameSubmission(State(), selectedDifficulty, elapsedSeconds, wrongEntryCount * 2,
                               redoCount * 1, undoCount * 1, hintsUsed * 3, totalScore);
    }

    /** navigateToNextScreen at `elapsedSeconds`, returning what it submits, the time
        bonus and whether the streak celebration is shown. */
    method NavigateToNextScreen(elapsedSeconds: int) returns (sent: Option<Submission>, timeBonus: int, celebrate: bool)
      requires Valid()
      modifies this
      ensures timeBonus == TimeBonus(selectedDifficulty, elapsedSeconds)
      ensures Finish(State(), sent, celebrate) == CompleteGame(old(State()), selectedDifficulty, elapsedSeconds)
      ensures Valid()
    {
      timeBonus := TimeBonus(selectedDifficulty, elapsedSeconds);
      var saved, shouldShowStreakCelebration := CheckStreak(ledger, puzzleData.puzzleDate);
      var report := ComposeReport(elapsedSeconds, shouldShowStreakCelebration);
      ledger := AwardStreak(saved, puzzleData.puzzleDate);
      sent := SubmitGameData(report);
      celebrate := sent.Some? && shouldShowStreakCelebration;
    }

    /** The report submitZeroValuesAndExit builds: zero counters, and the streak bonus
        alone as the total when the streak check found it due. */
    method ComposeZeroReport(elapsedSeconds: int, bonusDue: bool) returns (report: Submission)
      requires Valid() && bonusDue == BonusDue(State())
      ensures report == ZeroReport(State(), selectedDifficulty, elapsedSeconds)
    {
      var totalScore := if bonusDue then StreakBonus else 0;
      report := GameSubmission(State(), selectedDifficulty, elapsedSeconds, 0, 0, 0, 0, totalScore);
    }

    /** submitZeroValuesAndExit at `elapsedSeconds`, returning what it submits. */
    method SubmitZeroValuesAndExit(elapsedSeconds: int) returns (sent: Option<Submission>)
      requires Valid()
      modifies this
      ensures Finish(State(), sent, false) == AbandonGame(old(State()), selectedDifficulty, elapsedSeconds)
      ensures Valid()
    {
      if hasSubmittedZeroValues {
        return None;
      }
      var saved, bonusDue := CheckStreak(ledger, puzzleData.puzzleDate);
      var report := ComposeZeroReport(elapsedSeconds, bonusDue);
      hasSubmittedZeroValues := true;
      ledger := AwardStreak(saved, puzzleData.puzzleDate);
      sent := SubmitGameData(report);
      assert State() == AbandonGame(old(State()), selectedDifficulty, elapsedSeconds).state;
    }
  }
}
