# Sudoku game screens, modelled in Dafny

This project models the in-memory game logic of an iOS Sudoku app. Its parts:

- **The canonical game screen** (`Controllers/SudokuStartVC.swift`):
  - state: a 9x9 working grid, a fixed solution, and a snapshot of the givens taken when the puzzle arrives;
  - undo and redo stacks of `(row, column, number)` records, with server-supplied limits;
  - pencil notes per cell;
  - the counters the score deducts for (hints, undos, redos, wrong entries);
  - the one-shot submission flags;
  - the persisted played-dates list with its per-date streak flags.

  The handlers are digit entry, notes, clear, undo, redo, hint, reset, selection and the end-of-game paths. The screen also owns:
  - the peer-conflict scan;
  - the digit-count and button-enablement rule;
  - whole-grid and row/column/box completion;
  - the score formula;
  - the seven-day-streak detector and its once-per-date +70 bonus;
  - the `HH:MM:SS` formatter.
- **The legacy game screen** (`SudokuGame/Controllers/SudokuStartVC.swift`). It has no copy of the givens: a cell counts as given when it is filled and equals the solution. Undo and redo are unlimited, the hint count has a limit, and it adds the `isValidMove` scans and the per-cell "incorrect" flag.
- **The daily difficulty gate** (`Controllers/CustomViewController.swift`). The played-difficulties list is emptied on a new day, and each difficulty can be started once per day.
- **Time texts and best time** (`Controllers/ScoreViewController.swift`, `Controllers/PointsScreen.swift`). The score screen's three-way `hrs`/`min`/`sec` text, the points screen's zero-padded clock, and its case-insensitive best-time lookup.

How the model is structured:

- Each screen's state is a datatype (`GameState.SessionState`, `Legacy.LegacyState`, `DifficultyGate.Gate`).
- Each handler is a function from the state before to the state after, with the screen's invariant in its `ensures`. The screen's promises are lemmas about those functions.
- Each screen is also a class whose fields the handlers update in place (`Session.SudokuSession`, `Legacy.LegacySession`, `DifficultyGate.DifficultyPopup`). Every handler method is proved to perform exactly its step function.
- The accumulator loops of the source (`countNumberOccurrences`, `isPuzzleCompleted`, `isSectionComplete`, `isSevenDayStreak`, the `numberExistsIn*` scans, the duplicate scans of `cellForItemAt`) are methods with loop invariants, proved against predicates.
- Swift's truncating `/` and `%` and the `%02d` / `%d` formats are written out explicitly (`TimeFormat.Quot`, `TimeFormat.Rem`, `TimeFormat.Pad2`).
- Calendar dates are integer day numbers, and elapsed time is an integer parameter.

Two behaviours of the canonical screen are worth spelling out:

- The only writes to `cellNotes` are the reset (Controllers/SudokuStartVC.swift:685), the note toggle (972-978) and the removals on a committed digit (992) and on clear (1422). So hint, undo and redo can write a digit into a cell that still carries pencil notes and leave those notes in place (`SessionProperties.UndoOutcome`, `SessionProperties.RedoOutcome`, `SessionProperties.HintOutcome`).
- The two screens treat a tap on the already selected cell differently. The canonical `didSelectItemAt` ignores it (1536-1538, `SessionProperties.SelectOutcome`). The legacy screen deselects the cell and clears the current number (SudokuGame/Controllers/SudokuStartVC.swift:520-535, `Legacy.SelectTwice`).

## Model

| member | source | states |
|---|---|---|
| Grid.IndexCell | Controllers/SudokuStartVC.swift:1530-1534 | an item index 0-80 names a cell (row = index / 9, column = index % 9), and that cell's index is the item again |
| Grid.CellIndex | Controllers/SudokuStartVC.swift:569 | a cell's item index row * 9 + column lies in 0-80 and decodes back to the same row and column |
| Grid.Set | Controllers/SudokuStartVC.swift:783-784 | writing a cell gives a 9x9 board in which that cell holds the value and every other cell is unchanged |
| Grid.CountNumberOccurrences | Controllers/SudokuStartVC.swift:451-462 | the nested loop returns the number of cells of the grid that hold the digit |
| Grid.CountAfterSet | Controllers/SudokuStartVC.swift:1012-1019 | after a cell is overwritten, a digit's count drops by one if the old value was that digit and rises by one if the new value is |
| Grid.CountBound | Controllers/SudokuStartVC.swift:451-462 | no digit fills more than the 81 cells |
| Grid.TallyDigits | Controllers/SudokuStartVC.swift:478-488 | the `numberCounts` tally holds, for every digit 1-9, the number of cells holding it |
| Grid.IsNumberConflicting | Controllers/SudokuStartVC.swift:924-947 | true exactly when the digit occurs somewhere in the cell's row, column or 3x3 box, the cell itself included |
| Grid.ConflictsIncludeSelf | Controllers/SudokuStartVC.swift:961-971 | the scan that includes the cell differs from a peers-only scan only when the cell already holds the digit, which notes mode rules out by refusing filled cells |
| Grid.OccurrencesAboveOne | SudokuGame/Controllers/SudokuStartVC.swift:638 | when entry k holds d, the row holds d more than once exactly when some other entry holds d |
| Grid.SolvedIsEquality | Controllers/SudokuStartVC.swift:528-539 | on two 9x9 boards, agreeing in every cell is the same as being equal |
| Grid.IsPuzzleCompleted | Controllers/SudokuStartVC.swift:528-539 | true exactly when every one of the 81 cells equals the solution |
| Grid.IsSectionComplete | Controllers/SudokuStartVC.swift:799-855 | a row, column or box yields its nine item indices, in the order the source lists them, exactly when all nine cells equal the solution, and nothing otherwise |
| Grid.SectionCells | Controllers/SudokuStartVC.swift:812-849 | a section lists nine item indices, all inside the grid |
| Grid.BoxSolvedByCells | Controllers/SudokuStartVC.swift:828-839 | box i is solved exactly when the 3x3 block starting at ((i / 3) * 3, (i % 3) * 3) equals the solution |
| Grid.BoxIndexMapsBack | Controllers/SudokuStartVC.swift:828-829 | the box index (row / 3) * 3 + column / 3 of a cell lies in 0-8, and its start cell ((i / 3) * 3, (i % 3) * 3) is the top-left cell of the cell's box |
| Grid.BoxIndexContainsCell | Controllers/SudokuStartVC.swift:867 | the box named by a cell's box index contains that cell, at offset (row % 3) * 3 + column % 3 |
| Grid.CompletedSections | Controllers/SudokuStartVC.swift:857-870 | the sections collected after a change are the cell's row, then its column, then its box, each present exactly when it is solved |
| Grid.SolvedCompletesSections | Controllers/SudokuStartVC.swift:799-855 | on a solved grid every row, column and box is complete |
| History.Edit | Controllers/SudokuStartVC.swift:774-786 | a committed change pushes the cell's prior value, empties redo, writes only that cell, and keeps every record well formed |
| History.Undo | Controllers/SudokuStartVC.swift:555-567 | undo on a non-empty stack keeps the records well formed, shortens the undo stack by one and lengthens redo by one |
| History.Redo | Controllers/SudokuStartVC.swift:611-624 | redo on a non-empty stack keeps the records well formed, shortens redo by one and lengthens the undo stack by one |
| History.UndoWritesTop | Controllers/SudokuStartVC.swift:556-567 | undo writes the popped record's value into its cell, pushes that cell's current value onto redo, and changes no other cell |
| History.RedoWritesTop | Controllers/SudokuStartVC.swift:611-624 | redo writes the popped record's value into its cell, pushes that cell's current value onto undo, pops redo, and changes no other cell |
| History.RedoUndoRoundTrip | Controllers/SudokuStartVC.swift:541-664 | redo right after undo gives back the grid and both stacks exactly |
| History.UndoRedoRoundTrip | Controllers/SudokuStartVC.swift:541-664 | undo right after redo gives back the grid and both stacks exactly |
| History.UndoAfterEdit | Controllers/SudokuStartVC.swift:774-786 | undoing a fresh edit restores the grid and the undo stack, leaving only the edit's value on redo |
| History.EditKeepsGivens | Controllers/SudokuStartVC.swift:957-959 | an edit of a cell that was blank when loaded keeps every given and keeps every record on a non-given cell |
| History.UndoKeepsGivens | Controllers/SudokuStartVC.swift:556-567 | undo only writes a cell its record names, so the givens keep their values |
| History.RedoKeepsGivens | Controllers/SudokuStartVC.swift:612-624 | redo only writes a cell its record names, so the givens keep their values |
| TimeFormat.QuotRem | Controllers/ScoreViewController.swift:275-277 | Swift's truncating quotient and remainder recombine to the dividend, agree with Euclidean ones for n >= 0, and the remainder takes the dividend's sign |
| TimeFormat.NatToStringParses | Controllers/ScoreViewController.swift:286 | the `%d` digits of a natural number read back as that number, with one digit below 10, two from 10 to 99 and at least three from 100 |
| TimeFormat.Pad2Parses | Controllers/PointsScreen.swift:120 | `%02d` of a non-negative value reads back as that value, is exactly two characters below 100 and wider from 100 on |
| TimeFormat.SplitRecombines | Controllers/PointsScreen.swift:117-119 | hours * 3600 + minutes * 60 + seconds is the input; for a non-negative input the fields are non-negative and minutes and seconds are below 60 |
| TimeFormat.FormatTimeRoundTrip | Controllers/PointsScreen.swift:116-121 | every non-negative duration is recovered from its clock text; below 360000 s the text is 8 characters with ':' at positions 2 and 5, and it is wider from 100 hours on |
| TimeFormat.BestTimeTextUnit | Controllers/ScoreViewController.swift:275-287 | for a non-negative time exactly one unit applies: " hrs" iff there are hours, " min" iff no hours but minutes, " sec" iff neither |
| TimeFormat.BestTimeTextRoundTrip | Controllers/ScoreViewController.swift:279-287 | every non-negative best time is recovered from its text, whichever branch produced it |
| Scoring.TimeBonus | Controllers/SudokuStartVC.swift:1199-1214 | the bonus is 10 exactly when the label is Beginner/Easy/Medium/Hard/Expert and the time is strictly below 240/300/360/420/480 s, and 0 otherwise |
| Scoring.GameScore | Controllers/SudokuStartVC.swift:1215-1217 | the score is never negative, and it is 100 + bonus - (3 * hints + redos + undos + 2 * wrong entries) whenever that is positive, 0 otherwise |
| Scoring.GameScoreBounds | Controllers/SudokuStartVC.swift:1199-1217 | with non-negative counters the score is at most 110 and never rises when any counter goes up by one |
| Streak.Insert | Controllers/SudokuStartVC.swift:1242 | inserting into a sorted list gives a sorted list one longer, holding the same dates plus the new one |
| Streak.SortDays | Controllers/SudokuStartVC.swift:1242 | `sorted()` yields an ascending list with the same dates, as a multiset |
| Streak.SortDaysKeepsSorted | Controllers/SudokuStartVC.swift:1303 | sorting an already sorted list changes nothing, so the second sort in `isSevenDayStreak` is harmless |
| Streak.RunLengthIsMaximal | Controllers/SudokuStartVC.swift:1304-1317 | the counted run is a block of consecutive days ending at the latest date, and the date before it, if any, is not the previous day |
| Streak.ConsecutiveTailBoundsRun | Controllers/SudokuStartVC.swift:1304-1317 | every block of consecutive days ending at the latest date is no longer than the counted run |
| Streak.RunLengthUnique | Controllers/SudokuStartVC.swift:1304-1317 | a block of consecutive days ending at the latest date that cannot be extended is exactly the counted run |
| Streak.LongerRunIsNoStreak | Controllers/SudokuStartVC.swift:1319 | a run of eight or more consecutive days is not a seven-day streak |
| Streak.SevenDaysEndingOnDateIsStreak | Controllers/SudokuStartVC.swift:1299-1324 | seven consecutive days ending on the puzzle's date, with the day before them not played, is a seven-day streak |
| Streak.IsSevenDayStreak | Controllers/SudokuStartVC.swift:1299-1324 | true exactly when there are at least 7 dates, the run of consecutive days ending at the latest sorted date has length exactly 7, and the latest date is the puzzle's date, which the caller parses from the puzzle (1232) |
| Streak.SavePlayedDate | Controllers/SudokuStartVC.swift:1627-1634 | the saved list holds the old dates plus the new one, grows only when the date was missing, stays free of duplicates, and keeps the flags |
| Streak.SavePlayedDateIdempotent | Controllers/SudokuStartVC.swift:1627-1634 | saving the same date twice is the same as saving it once |
| Streak.AwardStreak | Controllers/SudokuStartVC.swift:1248-1260 | when the bonus is due, the date's three flags are set; otherwise the ledger is left as it was |
| Streak.CheckStreak | Controllers/SudokuStartVC.swift:1228-1252 | the date is saved as played, and the bonus is due exactly when the sorted dates make a seven-day streak ending that date and neither of its two flags is set |
| Streak.StreakBonusOncePerDate | Controllers/SudokuStartVC.swift:1248-1260 | once granted, the bonus is never due again for the same date, however often the date is saved again |
| BestTime.LowerChar | Controllers/PointsScreen.swift:101 | lowercasing maps A-Z to a-z and leaves every other character alone |
| BestTime.Lower | Controllers/PointsScreen.swift:101 | lowercasing keeps the length and lowercases each character |
| BestTime.LowerIdempotent | Controllers/PointsScreen.swift:101 | lowercasing twice is lowercasing once |
| BestTime.FirstMatch | Controllers/PointsScreen.swift:100-102 | the position found is the first statistic whose category matches ignoring case, and there is none exactly when no category matches |
| BestTime.BestTimeFor | Controllers/PointsScreen.swift:100-102 | the best time is that of the first statistic matching ignoring case, and 0 when none matches |
| BestTime.BestTimeIgnoresCase | Controllers/PointsScreen.swift:100-102 | two difficulty labels that differ only in case get the same best time |
| GameState.ToggleNote | Controllers/SudokuStartVC.swift:975-979 | a tapped note digit flips its membership and no other digit's membership changes |
| GameState.ToggleNoteTwice | Controllers/SudokuStartVC.swift:975-979 | tapping the same note twice gives back the cell's notes |
| GameState.Loaded | Controllers/SudokuStartVC.swift:1585-1607 | a freshly fetched puzzle yields a valid session: givens agree with the solution, nothing recorded, counted, noted or selected, and the date saved without duplicates |
| GameState.EnterNumber | Controllers/SudokuStartVC.swift:949-1006 | digit entry, in or out of notes mode, keeps the session invariant: givens unchanged, records on non-given cells, counters within limits |
| GameState.ClearCell | Controllers/SudokuStartVC.swift:1400-1426 | clear keeps the session invariant |
| GameState.UndoStep | Controllers/SudokuStartVC.swift:541-595 | undo keeps the session invariant, the undo count staying within its limit |
| GameState.RedoStep | Controllers/SudokuStartVC.swift:597-664 | redo keeps the session invariant, the redo count staying within its limit |
| GameState.HintStep | Controllers/SudokuStartVC.swift:707-767 | a hint keeps the session invariant, the hint count staying within its limit |
| GameState.Reset | Controllers/SudokuStartVC.swift:665-705 | reset with the outcome of its re-fetch keeps the session invariant |
| GameState.ToggleNotesMode | Controllers/SudokuStartVC.swift:769-772 | toggling notes mode keeps the session invariant |
| GameState.Select | Controllers/SudokuStartVC.swift:1530-1546 | selecting a cell keeps the session invariant |
| GameState.RecordPlay | Controllers/SudokuStartVC.swift:1228-1260 | saving the date and granting a due bonus keeps the session invariant, including a duplicate-free date list |
| GameState.CompleteGame | Controllers/SudokuStartVC.swift:1191-1297 | finishing the game keeps the session invariant |
| GameState.AbandonGame | Controllers/SudokuStartVC.swift:214-285 | abandoning the game keeps the session invariant |
| SessionProperties.ValidKeepsGivens | Controllers/SudokuStartVC.swift:1588 | two valid states with the same givens snapshot agree on every given cell |
| SessionProperties.EntryKeepsGivens | Controllers/SudokuStartVC.swift:957-959 | digit entry, notes and clear keep the givens snapshot and the value of every given cell |
| SessionProperties.UndoRedoKeepGivens | Controllers/SudokuStartVC.swift:541-664 | undo and redo keep the givens snapshot and the value of every given cell |
| SessionProperties.HintKeepsGivens | Controllers/SudokuStartVC.swift:707-742 | a hint keeps the givens snapshot and the value of every given cell |
| SessionProperties.HintOnGivenIsNoop | Controllers/SudokuStartVC.swift:730-735 | a hint on a given changes nothing although the handler never consults the givens, because a given already equals the solution |
| SessionProperties.EntryIgnoredOffEditable | Controllers/SudokuStartVC.swift:950-959 | without a selection, or on a given, digit entry and clear change nothing |
| SessionProperties.CommitDigit | Controllers/SudokuStartVC.swift:991-1036 | a committed digit is written to the selected cell only, its prior value is pushed, redo is emptied, its notes go, the notes map loses exactly that cell's entry, one wrong entry is counted iff the digit differs from the solution, and no other counter moves |
| SessionProperties.UndoAfterCommit | Controllers/SudokuStartVC.swift:541-595 | undoing a committed digit gives back the grid and undo stack it was entered on, with only the digit on redo |
| SessionProperties.NoteEntry | Controllers/SudokuStartVC.swift:961-979 | in notes mode the grid, stacks and counters never change; a filled cell or a conflicting digit is refused; otherwise only that digit's note in that cell flips |
| SessionProperties.ClearRecordsPrior | Controllers/SudokuStartVC.swift:1400-1426 | clear pushes the prior value, empties redo, blanks the cell and no other, drops that cell's notes and no others, leaves every counter (the wrong-entry count included) and sets the current number to nil |
| SessionProperties.UndoOutcome | Controllers/SudokuStartVC.swift:541-595 | at the limit undo alerts and changes nothing; on an empty stack it changes nothing; otherwise it writes the popped value, pushes the current one onto redo, selects the cell, clears the current number, leaves the notes as they were and counts exactly one undo |
| SessionProperties.RedoOutcome | Controllers/SudokuStartVC.swift:597-664 | at the limit redo alerts and changes nothing; on an empty stack it changes nothing; otherwise it writes the top record's value into that cell alone, moves the record to undo with the prior value, counts one redo, selects the redone cell, makes the redone value the current number and leaves the notes as they were |
| SessionProperties.UndoThenRedoRestores | Controllers/SudokuStartVC.swift:541-664 | an undo followed by a redo within the limits gives back the grid and both stacks |
| SessionProperties.RedoThenUndoRestores | Controllers/SudokuStartVC.swift:541-664 | a redo followed by an undo within the limits gives back the grid and both stacks |
| SessionProperties.HintOutcome | Controllers/SudokuStartVC.swift:707-754 | no selection: nothing; hints used up: alert and nothing; cell already correct: nothing; otherwise the solution digit is written into that cell alone and becomes the current number, the notes are left as they were, its prior value is pushed, redo emptied, exactly one more hint counted, and the last-hint alert iff the limit is reached |
| SessionProperties.SelectOutcome | Controllers/SudokuStartVC.swift:1530-1546 | a tap on the selected cell changes nothing; a tap on another cell selects it with its digit, or none when blank, as the current number, and changes nothing else |
| SessionProperties.ResetIsFreshLoad | Controllers/SudokuStartVC.swift:665-705 | reset with a fetched puzzle leaves the screen as a fresh load of that puzzle would, except the one-shot submission flags |
| SessionProperties.FinalReportTotal | Controllers/SudokuStartVC.swift:1199-1260 | the submitted total is max(0, 100 + time bonus - deductions), plus 70 after the clamp when the streak bonus is due |
| SessionProperties.NoBonusAfterFinish | Controllers/SudokuStartVC.swift:1244-1260 | after a game is finished or abandoned, the streak bonus is no longer due on its date |
| SessionProperties.SubmittedOnce | Controllers/SudokuStartVC.swift:1346-1351 | the game is submitted at most once: nothing is sent after a finish, and a second exit is a no-op |
| SessionProperties.CelebrateWithBonus | Controllers/SudokuStartVC.swift:1244-1295 | the streak celebration shows exactly when the report goes out with the +70 bonus |
| Session.SudokuSession.constructor | Controllers/SudokuStartVC.swift:1585-1607 | the screen after its first fetch is the loaded state for that puzzle and the saved ledger |
| Session.SudokuSession.NumberButtonTapped | Controllers/SudokuStartVC.swift:949-1066 | the fields after the tap are exactly `EnterNumber` of the fields before, and the session invariant holds |
| Session.SudokuSession.ClearButtonTapped | Controllers/SudokuStartVC.swift:1400-1447 | the fields after are exactly `ClearCell` of the fields before |
| Session.SudokuSession.UndoTapped | Controllers/SudokuStartVC.swift:541-595 | the fields and the alert are exactly `UndoStep` of the fields before |
| Session.SudokuSession.RedoTapped | Controllers/SudokuStartVC.swift:597-664 | the fields and the alert are exactly `RedoStep` of the fields before |
| Session.SudokuSession.HintTapped | Controllers/SudokuStartVC.swift:707-767 | the fields and the alert are exactly `HintStep` of the fields before |
| Session.SudokuSession.ResetTapped | Controllers/SudokuStartVC.swift:665-705 | the fields after reset and its re-fetch are exactly `Reset` of the fields before |
| Session.SudokuSession.NoteTapped | Controllers/SudokuStartVC.swift:769-772 | only notes mode flips |
| Session.SudokuSession.DidSelectItemAt | Controllers/SudokuStartVC.swift:1530-1546 | the fields after are exactly `Select` of the fields before |
| Session.SudokuSession.ToggleNumberButtons | Controllers/SudokuStartVC.swift:464-511 | without a selection every button is off; otherwise digit d is on iff enabled and d fills fewer than 9 cells, and clear is on iff the selected cell is blank or wrong |
| Session.SudokuSession.IsNumberDisabled | Controllers/SudokuStartVC.swift:1449-1452 | a digit button is disabled iff that digit fills at least 9 cells; a button without a digit title never is |
| Session.SudokuSession.RefreshNumberButtons | Controllers/SudokuStartVC.swift:578-586 | the refresh after undo, redo, clear and reset turns digit d on iff it fills fewer than 9 cells, and turns clear on |
| Session.SudokuSession.IsPuzzleCompleted | Controllers/SudokuStartVC.swift:528-539 | the game is complete iff the working grid equals the solution |
| Session.SudokuSession.SubmitGameData | Controllers/SudokuStartVC.swift:1346-1351 | the report is sent only if none was sent before, and the submitted flag is set either way |
| Session.SudokuSession.ComposeReport | Controllers/SudokuStartVC.swift:1199-1278 | the report carries the deductions as counted and the clamped score plus the due streak bonus |
| Session.SudokuSession.NavigateToNextScreen | Controllers/SudokuStartVC.swift:1191-1297 | the fields, the submission and the celebration are exactly `CompleteGame` of the fields before, and the time bonus is `TimeBonus` |
| Session.SudokuSession.ComposeZeroReport | Controllers/SudokuStartVC.swift:249-275 | the exit report has zero deductions and the due streak bonus alone as its total |
| Session.SudokuSession.SubmitZeroValuesAndExit | Controllers/SudokuStartVC.swift:214-285 | the fields and the submission are exactly `AbandonGame` of the fields before |
| Legacy.LegacyLoaded | SudokuGame/Controllers/SudokuStartVC.swift:573-584 | the screen after its fetch holds only the puzzle, with empty stacks, no selection and no hints used, and is valid |
| Legacy.UpdateStep | SudokuGame/Controllers/SudokuStartVC.swift:419-435 | `updatePuzzle` keeps the legacy invariant |
| Legacy.EnterNumber | SudokuGame/Controllers/SudokuStartVC.swift:437-474 | digit entry keeps the legacy invariant |
| Legacy.UndoStep | SudokuGame/Controllers/SudokuStartVC.swift:276-304 | undo keeps the legacy invariant |
| Legacy.RedoStep | SudokuGame/Controllers/SudokuStartVC.swift:306-334 | redo keeps the legacy invariant |
| Legacy.HintStep | SudokuGame/Controllers/SudokuStartVC.swift:359-412 | a hint keeps the legacy invariant, with the hint count within its limit |
| Legacy.ResetStep | SudokuGame/Controllers/SudokuStartVC.swift:336-357 | reset with its re-fetch keeps the legacy invariant |
| Legacy.SelectStep | SudokuGame/Controllers/SudokuStartVC.swift:520-538 | selection keeps the legacy invariant |
| Legacy.EntryOutcome | SudokuGame/Controllers/SudokuStartVC.swift:437-467 | entry is refused exactly without a selection or on a filled cell equal to the solution; otherwise only the selected cell takes the digit, its prior value is pushed, redo is emptied and the digit becomes the current number |
| Legacy.CorrectEntryLocksCell | SudokuGame/Controllers/SudokuStartVC.swift:452-455 | once a correct digit is entered, the cell looks like a given and every later digit on it is refused |
| Legacy.UndoOutcome | SudokuGame/Controllers/SudokuStartVC.swift:276-298 | undo on an empty stack changes nothing; otherwise it writes the top record's value to that cell only, pops it and pushes the prior value onto redo, with no limit and no counter |
| Legacy.RedoOutcome | SudokuGame/Controllers/SudokuStartVC.swift:306-328 | redo is the mirror image of undo |
| Legacy.UndoThenRedo | SudokuGame/Controllers/SudokuStartVC.swift:276-334 | undo followed by redo gives back the whole screen state |
| Legacy.RedoThenUndo | SudokuGame/Controllers/SudokuStartVC.swift:276-334 | redo followed by undo gives back the whole screen state |
| Legacy.UndoAfterEntry | SudokuGame/Controllers/SudokuStartVC.swift:457-467 | undoing an accepted digit restores the puzzle and the undo stack, leaving only that digit on redo |
| Legacy.HintOutcome | SudokuGame/Controllers/SudokuStartVC.swift:359-405 | no selection: nothing; at the limit: the alert and nothing; cell correct: nothing; otherwise only that cell takes the solution value, its prior value is pushed, redo is emptied and one hint is counted |
| Legacy.HintsWithinLimit | SudokuGame/Controllers/SudokuStartVC.swift:373-403 | a hint adds at most one to the count and never carries it past the limit |
| Legacy.ResetOutcome | SudokuGame/Controllers/SudokuStartVC.swift:336-357 | with a difficulty, reset empties both stacks, zeroes the hints and clears the selection and current number, and a fetched puzzle gives a fresh load; without one nothing changes |
| Legacy.SelectTwice | SudokuGame/Controllers/SudokuStartVC.swift:520-535 | a tap selects the cell iff it was not selected; a second tap on it deselects and clears the current number; the grid and stacks never change |
| Legacy.EntryKeepsGivens | SudokuGame/Controllers/SudokuStartVC.swift:452-455 | even without a copy of the givens, digit entry and hints never overwrite a loaded given, because givens equal the solution |
| Legacy.UndoRedoKeepGivens | SudokuGame/Controllers/SudokuStartVC.swift:276-334 | undo and redo only write cells that were blank when loaded |
| Legacy.OwnValueNeverValid | SudokuGame/Controllers/SudokuStartVC.swift:476-518 | `isValidMove` never accepts the value the cell already holds, since its scans include the cell |
| Legacy.LegacySession.constructor | SudokuGame/Controllers/SudokuStartVC.swift:131-139 | the screen once its first fetch has arrived is `LegacyLoaded` of that puzzle |
| Legacy.LegacySession.UpdatePuzzle | SudokuGame/Controllers/SudokuStartVC.swift:419-435 | the fields after are exactly `UpdateStep` of the fields before |
| Legacy.LegacySession.NumberButtonTapped | SudokuGame/Controllers/SudokuStartVC.swift:437-474 | the fields after are exactly `EnterNumber` of the fields before |
| Legacy.LegacySession.UndoTapped | SudokuGame/Controllers/SudokuStartVC.swift:276-304 | the fields after are exactly `UndoStep` of the fields before |
| Legacy.LegacySession.RedoTapped | SudokuGame/Controllers/SudokuStartVC.swift:306-334 | the fields after are exactly `RedoStep` of the fields before |
| Legacy.LegacySession.HintTapped | SudokuGame/Controllers/SudokuStartVC.swift:359-412 | the fields after are exactly `HintStep` of the fields before, and the "No More Hints" alert shows iff a cell is selected and the limit is used up |
| Legacy.LegacySession.ResetTapped | SudokuGame/Controllers/SudokuStartVC.swift:336-357 | the fields after are exactly `ResetStep` of the fields before, the screen's difficulty and the fetched puzzle |
| Legacy.LegacySession.DidSelectItemAt | SudokuGame/Controllers/SudokuStartVC.swift:520-538 | the fields after are exactly `SelectStep` of the fields before |
| Legacy.LegacySession.NumberExistsInRow | SudokuGame/Controllers/SudokuStartVC.swift:487-490 | true iff the number is somewhere in the row |
| Legacy.LegacySession.NumberExistsInColumn | SudokuGame/Controllers/SudokuStartVC.swift:492-500 | true iff the number is somewhere in the column |
| Legacy.LegacySession.NumberExistsInBox | SudokuGame/Controllers/SudokuStartVC.swift:502-518 | true iff the number is somewhere in the cell's 3x3 box |
| Legacy.LegacySession.IsValidMove | SudokuGame/Controllers/SudokuStartVC.swift:476-485 | true iff the number is nowhere in the cell's row, column or box, the cell included |
| Legacy.LegacySession.CellFlags | SudokuGame/Controllers/SudokuStartVC.swift:626-661 | a filled cell is drawn as initial iff it equals the solution and as incorrect iff it differs; the duplicate scans never change the incorrect flag |
| Legacy.DuplicateInPeers | SudokuGame/Controllers/SudokuStartVC.swift:638-658 | true iff the cell's value occurs more than once in its row, or in another cell of its column or box |
| DifficultyGate.ResetStep | Controllers/CustomViewController.swift:231-240 | resetting keeps the played list free of duplicates |
| DifficultyGate.TapStep | Controllers/CustomViewController.swift:246-267 | a tap keeps the played list free of duplicates |
| DifficultyGate.ResetOutcome | Controllers/CustomViewController.swift:231-240 | the stored day is today afterwards; nothing changes iff it already was; otherwise the list is emptied; a missing day always resets |
| DifficultyGate.ResetIdempotent | Controllers/CustomViewController.swift:231-240 | a second reset on the same day changes nothing |
| DifficultyGate.TapOutcome | Controllers/CustomViewController.swift:246-274 | a game starts, with exactly the tapped label, iff the label is not in the list; a refused tap changes nothing; an accepted one appends the label once and stores today |
| DifficultyGate.OncePerDay | Controllers/CustomViewController.swift:249-259 | once a difficulty is in the list, every later tap on it that day is refused, whatever is tapped in between |
| DifficultyGate.TapAllStartsAppended | Controllers/CustomViewController.swift:260-266 | a day of taps keeps the list duplicate-free, keeps its earlier entries as a prefix, and holds exactly the earlier entries and the tapped labels |
| DifficultyGate.DifficultyPopup.constructor | Controllers/CustomViewController.swift:110-114 | opening the popup reads the stored values and runs `resetIfNewDay` on them |
| DifficultyGate.DifficultyPopup.ResetIfNewDay | Controllers/CustomViewController.swift:231-240 | the fields after are exactly `ResetStep` of the fields before |
| DifficultyGate.DifficultyPopup.DifficultyTapped | Controllers/CustomViewController.swift:246-267 | the fields after and the started game are exactly `TapStep` of the fields before |

## Left out

- UIKit layout, rendering and animation are not modelled: cell configuration, borders, the blink and highlight timers, the section animation chain and its `isAnimating` guard. They are presentation only.
- Networking and JSON decoding are not modelled: `fetchPuzzleData`, the request of `submitGameData`, `parsePuzzleString`. They are foreign calls. A fetched puzzle is a parameter, and a submission is a returned value.
- Persistence in `UserDefaults` becomes explicit state: the `Streak.Ledger` value of the game screen and the `DifficultyGate.Gate` fields of the popup. The order in which the source writes the individual keys is not modelled.
- Timers, `Date` and `Calendar` are not modelled. Elapsed seconds and today are integer parameters, and dates are day numbers. Date-string parsing is not modelled, so none of its failure paths can occur in the model. This covers the `compactMap` over the stored dates (Controllers/SudokuStartVC.swift:1242). It also covers the two guards on the puzzle's own date, at 1232 in the finish path and at 237 in `submitZeroValuesAndExit`. Both return before the date is saved, the bonus is checked or anything is submitted. At 237 this happens after `hasSubmittedZeroValues` has already been set.
- Asynchronous ordering (`DispatchQueue`, the fetch completing later than `resetTapped`) is not modelled, because each handler is treated as atomic. `Session.SudokuSession.ResetTapped` and `Legacy.LegacySession.ResetTapped` take the outcome of the re-fetch as a parameter.
- The screens before their first puzzle arrives are not modelled: every `guard let puzzleData` early return. The constructors start after the fetch.
- Malformed server data is excluded by a precondition (`Puzzle.Loadable`): grids that are not 9x9, values outside 0-9, a solution cell outside 1-9 (so a blank in the solution), givens that disagree with the solution. The source would index out of range or show wrong hints on such data.
- Button state is not stored. The enablement rule is computed by `Session.SudokuSession.ToggleNumberButtons` and `Session.SudokuSession.RefreshNumberButtons`, and the handlers do not keep a button array.
- The one-parameter `toggleNumberButtons(enabled:)` overload (Controllers/SudokuStartVC.swift:1756-1767) is not modelled. Swift prefers it over the two-parameter rule whenever a call passes only `enabled:`, which happens at lines 577, 593, 637, 650, 693, 1042, 1434 and 1608. It sets `isEnabled` on every button from the one flag, with the button titled "0" always on, so it decides which taps reach the handlers. After each committed digit (1042) every button is enabled again, including digits that already fill nine cells and clear on a correct cell, and only the digit just entered is switched off again (1047-1051). The rule that `Session.SudokuSession.ToggleNumberButtons` models (464-511) runs only from 162, 1006 and 1544, and 1042 overrides the effect of 1006. The model does not track the buttons' enabled state: its entry and clear handlers accept any digit 1-9 and any clear tap, whatever the buttons show.
- How the button re-enables the overwritten digit after an entry is not modelled (Controllers/SudokuStartVC.swift:1012-1020). The count it bases this on is given by `Grid.CountAfterSet`.
- The automatic move to the score screen (`isPuzzleCompleted` followed by `navigateToNextScreen` after a write) is not modelled as a chained call. `Session.SudokuSession.IsPuzzleCompleted` and `Session.SudokuSession.NavigateToNextScreen` are separate operations.
- Session.SudokuSession.ResetTapped: does not clear the one-shot submission flags, exactly as the source does not. `SessionProperties.ResetIsFreshLoad` states this.
- Case folding is modelled for ASCII only, in `BestTime.Lower`: A-Z map to a-z and other characters are unchanged. Swift's full Unicode lowercasing is not modelled.
- Digit buttons whose titles are not numbers (the `Int(numberString)` failure) are not modelled. Digit entry takes a number 1-9.
- Legacy.LegacySession.ResetTapped: takes the fetched puzzle as a parameter. The legacy fetch's assignment off the main thread (SudokuGame/Controllers/SudokuStartVC.swift:573) is not modelled.
- DifficultyGate.DifficultyPopup.constructor: requires that the stored list has no duplicates. Every list the popup itself writes has none, but a value placed in storage by other means is not covered.
- The start of a game from the difficulty gate is reported as the started label (`DifficultyGate.Tap`). Presenting the next screen is not modelled.
- The `noteTapped` of the legacy screen is not modelled, because it only logs.
