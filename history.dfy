/**
  The move history both start screens keep: undo and redo stacks of
  (row, column, number) records, where `number` is the value the cell held
  before the change the record undoes. The working grid and the two stacks
  change together, so they are modelled together as one value.
 */
module History {
  import opened Grid

  /** One stack entry, the `(row: Int, column: Int, number: Int)` tuple of the source. */
  datatype Move = Move(row: int, column: int, number: int)

  predicate MoveOk(m: Move) {
    IsCell(m.row, m.column) && 0 <= m.number <= 9
  }

  /** The working grid with its undo stack and redo stack (most recent last). */
  datatype History = History(board: Board, undoStack: seq<Move>, redoStack: seq<Move>)

  ghost predicate Ok(h: History) {
    && IsDigitBoard(h.board)
    && (forall i :: 0 <= i < |h.undoStack| ==> MoveOk(h.undoStack[i]))
    && (forall i :: 0 <= i < |h.redoStack| ==> MoveOk(h.redoStack[i]))
  }

  /** A committed change (digit entry, clear or hint): the cell's prior value is
      pushed onto the undo stack, the redo stack is emptied, the cell takes v. */
  function Edit(h: History, row: int, column: int, v: int): (h': History)
    requires Ok(h) && IsCell(row, column) && 0 <= v <= 9
    ensures Ok(h')
    ensures h'.board[row][column] == v
    ensures forall r, c :: IsCell(r, c) && (r != row || c != column) ==> h'.board[r][c] == h.board[r][c]
    ensures h'.undoStack == h.undoStack + [Move(row, column, h.board[row][column])]
    ensures h'.redoStack == []
  {
    SetKeepsDigits(h.board, row, column, v);
    History(Set(h.board, row, column, v), h.undoStack + [Move(row, column, h.board[row][column])], [])
  }

  /** undoTapped on a non-empty stack: pop the last record, push the cell's current
      value onto the redo stack, write the popped value back. */
  function Undo(h: History): (h': History)
    requires Ok(h) && |h.undoStack| > 0
    ensures Ok(h')
    ensures |h'.undoStack| == |h.undoStack| - 1 && |h'.redoStack| == |h.redoStack| + 1
  {
    var m := h.undoStack[|h.undoStack| - 1];
    SetKeepsDigits(h.board, m.row, m.column, m.number);
    History(Set(h.board, m.row, m.column, m.number),
            h.undoStack[..|h.undoStack| - 1],
            h.redoStack + [Move(m.row, m.column, h.board[m.row][m.column])])
  }

  /** redoTapped on a non-empty stack: the mirror image of Undo. */
  function Redo(h: History): (h': History)
    requires Ok(h) && |h.redoStack| > 0
    ensures Ok(h')
    ensures |h'.undoStack| == |h.undoStack| + 1 && |h'.redoStack| == |h.redoStack| - 1
  {
    var m := h.redoStack[|h.redoStack| - 1];
    SetKeepsDigits(h.board, m.row, m.column, m.number);
    History(Set(h.board, m.row, m.column, m.number),
            h.undoStack + [Move(m.row, m.column, h.board[m.row][m.column])],
            h.redoStack[..|h.redoStack| - 1])
  }

  /** The top of the undo stack names the cell Undo writes, and the value it writes. */
  lemma UndoWritesTop(h: History)
    requires Ok(h) && |h.undoStack| > 0
    ensures var m := h.undoStack[|h.undoStack| - 1];
            && Undo(h).board[m.row][m.column] == m.number
            && Undo(h).redoStack[|Undo(h).redoStack| - 1] == Move(m.row, m.column, h.board[m.row][m.column])
            && (forall r, c :: IsCell(r, c) && (r != m.row || c != m.column) ==> Undo(h).board[r][c] == h.board[r][c])
  {
  }

  /** The top of the redo stack names the cell Redo writes, and the value it writes. */
  lemma RedoWritesTop(h: History)
    requires Ok(h) && |h.redoStack| > 0
    ensures var m := h.redoStack[|h.redoStack| - 1];
            && Redo(h).board[m.row][m.column] == m.number
            && Redo(h).undoStack == h.undoStack + [Move(m.row, m.column, h.board[m.row][m.column])]
            && Redo(h).redoStack == h.redoStack[..|h.redoStack| - 1]
            && (forall r, c :: IsCell(r, c) && (r != m.row || c != m.column) ==> Redo(h).board[r][c] == h.board[r][c])
  {
  }

  /** Redo after Undo gives back the grid and both stacks exactly. */
  lemma RedoUndoRoundTrip(h: History)
    requires Ok(h) && |h.undoStack| > 0
    ensures Redo(Undo(h)) == h
  {
    var m := h.undoStack[|h.undoStack| - 1];
    var u := Undo(h);
    assert u.redoStack[..|u.redoStack| - 1] == h.redoStack;
    assert u.undoStack + [Move(m.row, m.column, u.board[m.row][m.column])] == h.undoStack;
    SolvedIsEquality(Set(u.board, m.row, m.column, h.board[m.row][m.column]), h.board);
  }

  /** Undo after Redo gives back the grid and both stacks exactly. */
  lemma UndoRedoRoundTrip(h: History)
    requires Ok(h) && |h.redoStack| > 0
    ensures Undo(Redo(h)) == h
  {
    var m := h.redoStack[|h.redoStack| - 1];
    var u := Redo(h);
    assert u.undoStack[..|u.undoStack| - 1] == h.undoStack;
    assert u.redoStack + [Move(m.row, m.column, u.board[m.row][m.column])] == h.redoStack;
    SolvedIsEquality(Set(u.board, m.row, m.column, h.board[m.row][m.column]), h.board);
  }

  /** Undoing a fresh edit restores the grid and the undo stack; the redo stack then
      holds only the edit's value. */
  lemma UndoAfterEdit(h: History, row: int, column: int, v: int)
    requires Ok(h) && IsCell(row, column) && 0 <= v <= 9
    ensures Undo(Edit(h, row, column, v)) == History(h.board, h.undoStack, [Move(row, column, v)])
  {
    var e := Edit(h, row, column, v);
    assert e.undoStack[..|e.undoStack| - 1] == h.undoStack;
    SolvedIsEquality(Set(e.board, row, column, h.board[row][column]), h.board);
  }

  // ---------------------------------------------------------------------
  // Given cells

  /** The record names a cell that is blank in initial, so not a given. */
  predicate OnFreeCell(m: Move, initial: Board)
    requires IsBoard(initial)
  {
    IsCell(m.row, m.column) && initial[m.row][m.column] == 0
  }

  /** initial's nonzero cells (the givens) keep their value in the grid, and every
      record on either stack names a non-given cell. */
  ghost predicate RespectsGivens(h: History, initial: Board)
    requires IsBoard(h.board) && IsBoard(initial)
  {
    && (forall r, c :: IsCell(r, c) && initial[r][c] != 0 ==> h.board[r][c] == initial[r][c])
    && (forall i :: 0 <= i < |h.undoStack| ==> OnFreeCell(h.undoStack[i], initial))
    && (forall i :: 0 <= i < |h.redoStack| ==> OnFreeCell(h.redoStack[i], initial))
  }

  /** An edit of a non-given cell keeps every given cell and every record on non-given cells. */
  lemma EditKeepsGivens(h: History, initial: Board, row: int, column: int, v: int)
    requires Ok(h) && IsBoard(initial) && IsCell(row, column) && 0 <= v <= 9
    requires RespectsGivens(h, initial) && initial[row][column] == 0
    ensures RespectsGivens(Edit(h, row, column, v), initial)
  {
  }

  /** Undo only writes the non-given cell its record names. */
  lemma UndoKeepsGivens(h: History, initial: Board)
    requires Ok(h) && IsBoard(initial) && |h.undoStack| > 0 && RespectsGivens(h, initial)
    ensures RespectsGivens(Undo(h), initial)
  {
  }

  /** Redo only writes the non-given cell its record names. */
  lemma RedoKeepsGivens(h: History, initial: Board)
    requires Ok(h) && IsBoard(initial) && |h.redoStack| > 0 && RespectsGivens(h, initial)
    ensures RespectsGivens(Redo(h), initial)
  {
  }
}
