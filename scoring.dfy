/** The end-of-game score of the start screen (navigateToNextScreen). */
module Scoring {
  import opened Wrappers

  /** The time limit under which a difficulty earns the time bonus; other labels have none. */
  function TimeThreshold(difficulty: string): Option<int>
  {
    if difficulty == "Beginner" then Some(240)
    else if difficulty == "Easy" then Some(300)
    else if difficulty == "Medium" then Some(360)
    else if difficulty == "Hard" then Some(420)
    else if difficulty == "Expert" then Some(480)
    else None
  }

  /** 10 points when the game took strictly less than the difficulty's limit, otherwise 0. */
  function TimeBonus(difficulty: string, elapsedSeconds: int): (bonus: int)
    ensures bonus == 0 || bonus == 10
    ensures bonus == 10 <==> TimeThreshold(difficulty).Some? && elapsedSeconds < TimeThreshold(difficulty).value
  {
    match TimeThreshold(difficulty)
    case Some(limit) => if elapsedSeconds < limit then 10 else 0
    case None => 0
  }

  /** Points lost: 3 per hint, 1 per redo, 1 per undo, 2 per wrong entry. */
  function Deductions(hintsUsed: int, redoCount: int, undoCount: int, wrongEntryCount: int): int
  {
    hintsUsed * 3 + redoCount * 1 + undoCount * 1 + wrongEntryCount * 2
  }

  const StreakBonus := 70

  /** The score before any streak bonus: 100 plus the time bonus less the deductions,
      never below 0. */
  function GameScore(difficulty: string, elapsedSeconds: int, hintsUsed: int, redoCount: int,
                     undoCount: int, wrongEntryCount: int): (total: int)
    ensures total >= 0
    ensures total >= 100 + TimeBonus(difficulty, elapsedSeconds) - Deductions(hintsUsed, redoCount, undoCount, wrongEntryCount)
    ensures total == 0 || total == 100 + TimeBonus(difficulty, elapsedSeconds) - Deductions(hintsUsed, redoCount, undoCount, wrongEntryCount)
  {
    var totalScore := 100 + TimeBonus(difficulty, elapsedSeconds);
    var deducted := totalScore - Deductions(hintsUsed, redoCount, undoCount, wrongEntryCount);
    if deducted > 0 then deducted else 0
  }

  /** With non-negative counters the score is at most 110, and using one more hint,
      undo, redo or wrong entry never raises it. */
  lemma GameScoreBounds(difficulty: string, elapsedSeconds: int, hintsUsed: nat, redoCount: nat,
                        undoCount: nat, wrongEntryCount: nat)
    ensures GameScore(difficulty, elapsedSeconds, hintsUsed, redoCount, undoCount, wrongEntryCount) <= 110
    ensures GameScore(difficulty, elapsedSeconds, hintsUsed + 1, redoCount, undoCount, wrongEntryCount)
            <= GameScore(difficulty, elapsedSeconds, hintsUsed, redoCount, undoCount, wrongEntryCount)
    ensures GameScore(difficulty, elapsedSeconds, hintsUsed, redoCount + 1, undoCount, wrongEntryCount)
            <= GameScore(difficulty, elapsedSeconds, hintsUsed, redoCount, undoCount, wrongEntryCount)
    ensures GameScore(difficulty, elapsedSeconds, hintsUsed, redoCount, undoCount + 1, wrongEntryCount)
            <= GameScore(difficulty, elapsedSeconds, hintsUsed, redoCount, undoCount, wrongEntryCount)
    ensures GameScore(difficulty, elapsedSeconds, hintsUsed, redoCount, undoCount, wrongEntryCount + 1)
            <= GameScore(difficulty, elapsedSeconds, hintsUsed, redoCount, undoCount, wrongEntryCount)
  {
  }
}
