/**
  The reveal state of one game: the grid size, the overlay matrix and the
  running counter of revealed squares, and the single-square reveal
  (`revealSquare` in src/main.ts).  The source keeps the counter in a
  separate variable, so "the counter equals the number of revealed squares"
  is an invariant the operations must keep, not a definition.
 */
module RevealState {
  import opened Grids

  /** `rows`/`cols` is the source's `gridSize`, `cells` its overlay squares, `revealCount` its counter. */
  datatype Board = Board(rows: nat, cols: nat, cells: Matrix, revealCount: int)

  /** The overlay matrix has the shape the grid size announces. */
  predicate WellFormed(b: Board)
  {
    IsShape(b.cells, b.rows, b.cols)
  }

  /** The counter agrees with the matrix. */
  predicate Consistent(b: Board)
  {
    b.revealCount == CountCells(b.cells)
  }

  /**
    Reveal the square at (row, col).  A row outside the matrix makes the
    source throw, so it is excluded; a column outside the row finds no
    overlay and, like an already revealed square, leaves everything as it was.
   */
  function RevealSquare(b: Board, row: int, col: int): (r: Board)
    requires 0 <= row < |b.cells|
    ensures r.rows == b.rows && r.cols == b.cols
    ensures |r.cells| == |b.cells| && forall i :: 0 <= i < |b.cells| ==> |r.cells[i]| == |b.cells[i]|
    ensures forall i, j :: 0 <= i < |b.cells| && 0 <= j < |b.cells[i]| && (i != row || j != col) ==>
      r.cells[i][j] == b.cells[i][j]
    ensures 0 <= col < |b.cells[row]| ==> r.cells[row][col]
    ensures !(0 <= col < |b.cells[row]|) ==> r == b
    ensures r.revealCount == b.revealCount + (if 0 <= col < |b.cells[row]| && !b.cells[row][col] then 1 else 0)
  {
    if !(0 <= col < |b.cells[row]|) || b.cells[row][col] then b
    else b.(cells := Mark(b.cells, row, col), revealCount := b.revealCount + 1)
  }

  /** The grid keeps its shape under a reveal. */
  lemma RevealPreservesWellFormed(b: Board, row: int, col: int)
    requires 0 <= row < |b.cells|
    requires WellFormed(b)
    ensures WellFormed(RevealSquare(b, row, col))
  {
  }

  /** The counter invariant survives a reveal. */
  lemma RevealPreservesConsistent(b: Board, row: int, col: int)
    requires 0 <= row < |b.cells|
    requires Consistent(b)
    ensures Consistent(RevealSquare(b, row, col))
  {
    if 0 <= col < |b.cells[row]| && !b.cells[row][col] {
      MarkCount(b.cells, row, col);
    }
  }

  /** Revealing an already revealed square changes nothing. */
  lemma RevealRevealedIsNoOp(b: Board, row: int, col: int)
    requires 0 <= row < |b.cells| && 0 <= col < |b.cells[row]|
    requires b.cells[row][col]
    ensures RevealSquare(b, row, col) == b
  {
  }

  /** Revealing twice is revealing once: the counter rises by at most one. */
  lemma RevealIdempotent(b: Board, row: int, col: int)
    requires 0 <= row < |b.cells|
    ensures RevealSquare(RevealSquare(b, row, col), row, col) == RevealSquare(b, row, col)
    ensures RevealSquare(RevealSquare(b, row, col), row, col).revealCount <= b.revealCount + 1
  {
  }

}
