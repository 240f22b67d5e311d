/**
  The state of the canonical game screen (Controllers/SudokuStartVC.swift) as a
  value, from the moment its puzzle has been fetched: the working grid, the
  givens snapshot, the undo and redo stacks, the pencil notes, the counters the
  score deducts for, the selection, the one-shot submission flags and the
  persisted streak ledger. Each handler is one atomic step, given here as a
  function from the state before to the state after; the class in module
  Session performs the same steps on its fields.
 */
module GameState {
  import opened Wrappers
  import opened Grid
  import opened History
  import opened Puzzle
  import opened Scoring
  import opened Streak
  import opened TimeFormat

  /** The alerts the handlers present. */
  datatype Alert = NoAlert | UndoLimitReached | RedoLimitReached | NoMoreHints | LastHintUsed

  /** The body of the game-submission request. */
  datatype Submission = Submission(
    riderID: int,
    eventID: string,
    submitDate: int,
    negativePoints: int,
    redo: int,
    undo: int,
    hint: int,
    totalPoints: int,
    timeTaken: string,
    category: string)

  const RiderID := 2

  /** Every field of the screen the model keeps. */
  datatype SessionState = SessionState(
    puzzleData: PuzzleData,
    initialPuzzle: Board,
    undoStack: seq<Move>,
    redoStack: seq<Move>,
    cellNotes: map<int, set<int>>,
    isNotesMode: bool,
    selectedIndexPath: Option<int>,
    currentNumber: Option<int>,
    hintsUsed: int,
    undoCount: int,
    redoCount: int,
    wrongEntryCount: int,
    hasSubmittedGameData: bool,
    hasSubmittedZeroValues: bool,
    ledger: Ledger)

  function HistOf(s: SessionState): History {
    History(s.puzzleData.puzzle, s.undoStack, s.redoStack)
  }

  /** The state with its grid and stacks replaced by those of h. */
  function WithHistory(s: SessionState, h: History): SessionState {
    s.(puzzleData := s.puzzleData.(puzzle := h.board), undoStack := h.undoStack, redoStack := h.redoStack)
  }

  /** How many uses a server limit allows; a limit of 0 or less allows none. */
  function Cap(limit: int): int { if limit > 0 then limit else 0 }

  /** Notes sit only on non-given cells of the grid and hold only digits. */
  ghost predicate NotesOk(notes: map<int, set<int>>, initial: Board)
    requires IsBoard(initial)
  {
    forall k :: k in notes ==>
      && 0 <= k < 81
      && initial[RowOf(k)][ColumnOf(k)] == 0
      && forall n :: n in notes[k] ==> 1 <= n <= 9
  }

  /** The session invariant: the givens agree with the solution and keep their values,
      every record names a non-given cell, and the counters stay within their limits. */
  ghost predicate StateValid(s: SessionState) {
    && IsDigitBoard(s.puzzleData.puzzle)
    && IsSolutionBoard(s.puzzleData.solution)
    && IsDigitBoard(s.initialPuzzle)
    && GivensAgree(s.initialPuzzle, s.puzzleData.solution)
    && Ok(HistOf(s))
    && RespectsGivens(HistOf(s), s.initialPuzzle)
    && (s.selectedIndexPath.Some? ==> 0 <= s.selectedIndexPath.value < 81)
    && NotesOk(s.cellNotes, s.initialPuzzle)
    && 0 <= s.hintsUsed <= Cap(s.puzzleData.hintLimit)
    && 0 <= s.undoCount <= Cap(s.puzzleData.undoLimit)
    && 0 <= s.redoCount <= Cap(s.puzzleData.redoLimit)
    && 0 <= s.wrongEntryCount
    && NoDuplicates(s.ledger.playedDates)
  }

  function SelRow(s: SessionState): int
    requires s.selectedIndexPath.Some?
  {
    RowOf(s.selectedIndexPath.value)
  }

  function SelColumn(s: SessionState): int
    requires s.selectedIndexPath.Some?
  {
    ColumnOf(s.selectedIndexPath.value)
  }

  /** A cell is selected and it is not a given. */
  predicate Editable(s: SessionState) {
    && s.selectedIndexPath.Some?
    && 0 <= s.selectedIndexPath.value < 81
    && IsBoard(s.initialPuzzle)
    && s.initialPuzzle[SelRow(s)][SelColumn(s)] == 0
  }

  /** The notes of a cell; a cell without an entry has none. */
  function NotesAt(notes: map<int, set<int>>, index: int): set<int> {
    if index in notes then notes[index] else {}
  }

  /** Tapping a digit in notes mode flips its membership. */
  function ToggleNote(notes: set<int>, n: int): (r: set<int>)
    ensures n in r <==> n !in notes
    ensures forall m :: m != n ==> (m in r <==> m in notes)
  {
    if n in notes then notes - {n} else notes + {n}
  }

  /** A second tap of the same digit gives back the notes the cell had. */
  lemma ToggleNoteTwice(notes: set<int>, n: int)
    ensures ToggleNote(ToggleNote(notes, n), n) == notes
  {
  }

  /** The submission a finished or abandoned game sends, given its totals. */
  function GameSubmission(s: SessionState, difficulty: string, elapsedSeconds: int,
                          negativePoints: int, redo: int, undo: int, hint: int, totalPoints: int): Submission
  {
    Submission(RiderID, s.puzzleData.eventID, s.puzzleData.puzzleDate, negativePoints, redo, undo, hint,
               totalPoints, FormatTime(elapsedSeconds), difficulty)
  }


  /** The screen once a puzzle has arrived: the givens are a copy of the fetched grid,
      nothing is recorded, counted, noted or selected, and the puzzle's date is saved
      as played. */
  function Loaded(data: PuzzleData, saved: Ledger): (s: SessionState)
    requires Loadable(data) && NoDuplicates(saved.playedDates)
    ensures StateValid(s)
  {
    SessionState(data, data.puzzle, [], [], map[], false, None, None, 0, 0, 0, 0,
                 false, false, SavePlayedDate(saved, data.puzzleDate))
  }

  /** A handler's new state and the alert it presents. */
  datatype Step = Step(state: SessionState, alert: Alert)

  /** The end of a game: the new state, the submission sent (if any) and whether the
      streak celebration is shown. */
  datatype Finish = Finish(state: SessionState, sent: Option<Submission>, celebrate: bool)

  // ---------------------------------------------------------------------
  // The handlers as steps

  /** numberButtonTapped for digit `number`. Nothing happens without a selection or
      on a given. In notes mode a filled cell or a digit already in the cell's row,
      column or box is refused, and otherwise the digit's note flips. Out of notes
      mode the digit is committed: the cell's notes go, the prior value is recorded,
      and a digit other than the solution's counts as a wrong entry. */
  function EnterNumber(s: SessionState, number: int): (r: SessionState)
    requires StateValid(s) && 1 <= number <= 9
    ensures StateValid(r)
  {
    if !Editable(s) then s
    else
      var index := s.selectedIndexPath.value;
      var row, column := RowOf(index), ColumnOf(index);
      if s.isNotesMode then
        if s.puzzleData.puzzle[row][column] != 0 || Conflicts(s.puzzleData.puzzle, number, row, column) then s
        else s.(cellNotes := s.cellNotes[index := ToggleNote(NotesAt(s.cellNotes, index), number)])
      else
        EditKeepsGivens(HistOf(s), s.initialPuzzle, row, column, number);
        var wrong := if number != s.puzzleData.solution[row][column] then 1 else 0;
        WithHistory(s, Edit(HistOf(s), row, column, number)).(
          cellNotes := s.cellNotes - {index},
          wrongEntryCount := s.wrongEntryCount + wrong,
          currentNumber := Some(number))
  }

  /** clearButtonTapped: on a selected non-given cell, the prior value is recorded,
      the cell is blanked and its notes go; anything else is ignored. */
  function ClearCell(s: SessionState): (r: SessionState)
    requires StateValid(s)
    ensures StateValid(r)
  {
    if !Editable(s) then s
    else
      var index := s.selectedIndexPath.value;
      EditKeepsGivens(HistOf(s), s.initialPuzzle, RowOf(index), ColumnOf(index), 0);
      WithHistory(s, Edit(HistOf(s), RowOf(index), ColumnOf(index), 0)).(
        cellNotes := s.cellNotes - {index},
        currentNumber := None)
  }

  /** undoTapped: refused with an alert once the undo limit is used up, ignored on an
      empty stack, and otherwise the last record is undone, its cell selected and one
      undo counted. */
  function UndoStep(s: SessionState): (r: Step)
    requires StateValid(s)
    ensures StateValid(r.state)
  {
    if s.undoCount >= s.puzzleData.undoLimit then Step(s, UndoLimitReached)
    else if s.undoStack == [] then Step(s, NoAlert)
    else
      var m := s.undoStack[|s.undoStack| - 1];
      UndoKeepsGivens(HistOf(s), s.initialPuzzle);
      Step(WithHistory(s, Undo(HistOf(s))).(
             selectedIndexPath := Some(IndexOf(m.row, m.column)),
             currentNumber := None,
             undoCount := s.undoCount + 1),
           NoAlert)
  }

  /** redoTapped: the mirror image of undoTapped; the redone value becomes the
      current number. */
  function RedoStep(s: SessionState): (r: Step)
    requires StateValid(s)
    ensures StateValid(r.state)
  {
    if s.redoCount >= s.puzzleData.redoLimit then Step(s, RedoLimitReached)
    else if s.redoStack == [] then Step(s, NoAlert)
    else
      var m := s.redoStack[|s.redoStack| - 1];
      RedoKeepsGivens(HistOf(s), s.initialPuzzle);
      Step(WithHistory(s, Redo(HistOf(s))).(
             selectedIndexPath := Some(IndexOf(m.row, m.column)),
             currentNumber := Some(m.number),
             redoCount := s.redoCount + 1),
           NoAlert)
  }

  /** hintTapped: needs a selection and an unused hint; a cell that already holds its
      solution is left alone (the givens among them); otherwise the solution digit is
      committed and one hint is counted, with a last-hint alert when that exhausts
      the limit. */
  function HintStep(s: SessionState): (r: Step)
    requires StateValid(s)
    ensures StateValid(r.state)
  {
    if s.selectedIndexPath.None? then Step(s, NoAlert)
    else if s.hintsUsed >= s.puzzleData.hintLimit then Step(s, NoMoreHints)
    else
      var row, column := SelRow(s), SelColumn(s);
      var correct := s.puzzleData.solution[row][column];
      if s.puzzleData.puzzle[row][column] == correct then Step(s, NoAlert)
      else
        EditKeepsGivens(HistOf(s), s.initialPuzzle, row, column, correct);
        Step(WithHistory(s, Edit(HistOf(s), row, column, correct)).(
               hintsUsed := s.hintsUsed + 1,
               currentNumber := Some(correct)),
             if s.hintsUsed + 1 == s.puzzleData.hintLimit then LastHintUsed else NoAlert)
  }

  /** resetTapped followed by the re-fetch it starts: the stacks, the counters, notes
      mode, the selection and the notes are cleared; a fetched puzzle replaces the grid
      and the givens and has its date saved as played, while a failed fetch keeps the
      grid (None). */
  function Reset(s: SessionState, fetched: Option<PuzzleData>): (r: SessionState)
    requires StateValid(s)
    requires fetched.Some? ==> Loadable(fetched.value)
    ensures StateValid(r)
  {
    var cleared := s.(undoStack := [], redoStack := [], hintsUsed := 0, undoCount := 0, redoCount := 0,
                      wrongEntryCount := 0, isNotesMode := false, selectedIndexPath := None,
                      currentNumber := None, cellNotes := map[]);
    match fetched
    case None => cleared
    case Some(p) => cleared.(puzzleData := p, initialPuzzle := p.puzzle,
                             ledger := SavePlayedDate(s.ledger, p.puzzleDate))
  }

  /** noteTapped: flips notes mode. */
  function ToggleNotesMode(s: SessionState): (r: SessionState)
    requires StateValid(s)
    ensures StateValid(r)
  {
    s.(isNotesMode := !s.isNotesMode)
  }

  /** didSelectItemAt: tapping the selected cell again does nothing; another cell becomes
      the selection and its digit, if any, the current number. */
  function Select(s: SessionState, index: int): (r: SessionState)
    requires StateValid(s) && 0 <= index < 81
    ensures StateValid(r)
  {
    if s.selectedIndexPath == Some(index) then s
    else
      var value := s.puzzleData.puzzle[RowOf(index)][ColumnOf(index)];
      s.(selectedIndexPath := Some(index), currentNumber := if value != 0 then Some(value) else None)
  }

  /** The played date saved and the streak bonus granted when due, as both end-of-game
      paths do. */
  function RecordPlay(s: SessionState): (r: SessionState)
    requires StateValid(s)
    ensures StateValid(r)
  {
    var date := s.puzzleData.puzzleDate;
    s.(ledger := AwardStreak(SavePlayedDate(s.ledger, date), date))
  }

  /** Whether the +70 bonus is due once the game's date is saved. */
  predicate BonusDue(s: SessionState) {
    StreakBonusDue(SavePlayedDate(s.ledger, s.puzzleData.puzzleDate), s.puzzleData.puzzleDate)
  }

  /** The report navigateToNextScreen sends: the deductions as counted, and as total
      the clamped score plus the streak bonus when due. */
  function FinalReport(s: SessionState, difficulty: string, elapsedSeconds: int): Submission {
    var score := GameScore(difficulty, elapsedSeconds, s.hintsUsed, s.redoCount, s.undoCount, s.wrongEntryCount);
    GameSubmission(s, difficulty, elapsedSeconds, s.wrongEntryCount * 2, s.redoCount * 1, s.undoCount * 1,
                   s.hintsUsed * 3, score + (if BonusDue(s) then StreakBonus else 0))
  }

  /** The report submitZeroValuesAndExit sends: no deductions, and the streak bonus (if
      due) as the only points. */
  function ZeroReport(s: SessionState, difficulty: string, elapsedSeconds: int): Submission {
    GameSubmission(s, difficulty, elapsedSeconds, 0, 0, 0, 0, if BonusDue(s) then StreakBonus else 0)
  }

  /** navigateToNextScreen at `elapsedSeconds`: the play is recorded and the final report
      is submitted only if no report was sent before; the celebration comes only with
      that submission. */
  function CompleteGame(s: SessionState, difficulty: string, elapsedSeconds: int): (r: Finish)
    requires StateValid(s)
    ensures StateValid(r.state)
  {
    var after := RecordPlay(s).(hasSubmittedGameData := true);
    if s.hasSubmittedGameData then Finish(after, None, false)
    else Finish(after, Some(FinalReport(s, difficulty, elapsedSeconds)), BonusDue(s))
  }

  /** submitZeroValuesAndExit at `elapsedSeconds`: runs once; records the play and sends
      the zero report unless a report was already sent. */
  function AbandonGame(s: SessionState, difficulty: string, elapsedSeconds: int): (r: Finish)
    requires StateValid(s)
    ensures StateValid(r.state)
  {
    if s.hasSubmittedZeroValues then Finish(s, None, false)
    else
      var after := RecordPlay(s).(hasSubmittedZeroValues := true, hasSubmittedGameData := true);
      if s.hasSubmittedGameData then Finish(after, None, false)
      else Finish(after, Some(ZeroReport(s, difficulty, elapsedSeconds)), false)
  }
}
