/** The puzzle record the server hands to both start screens (Models/PuzzleData.swift). */
module Puzzle {
  import opened Grid

  /** `puzzle` is the working grid the session edits; `solution` never changes.
      The calendar date is kept as a day number. */
  datatype PuzzleData = PuzzleData(
    sudokuID: int,
    category: string,
    eventID: string,
    puzzle: Board,
    solution: Board,
    puzzleDate: int,
    status: string,
    undoLimit: int,
    redoLimit: int,
    hintLimit: int)

  /** Every nonzero cell of `initial` equals the solution there. */
  ghost predicate GivensAgree(initial: Board, solution: Board)
    requires IsBoard(initial) && IsBoard(solution)
  {
    forall r, c :: IsCell(r, c) && initial[r][c] != 0 ==> initial[r][c] == solution[r][c]
  }

  /** A freshly fetched puzzle: two 9x9 grids of digits whose givens agree with the solution. */
  ghost predicate Loadable(p: PuzzleData) {
    IsDigitBoard(p.puzzle) && IsSolutionBoard(p.solution) && GivensAgree(p.puzzle, p.solution)
  }
}
