/**
  The reveal matrix of the puzzle: one boolean per overlay square, `true`
  meaning the square is hidden and the picture shows through.  This module
  fixes the vocabulary (shape, coordinates, counting) shared by the reveal,
  random-reveal and persistence modules.
 */
module Grids {

  /** Coordinates of one overlay square. */
  datatype Cell = Cell(row: nat, col: nat)

  /** Row-major reveal matrix; rows may have different lengths when it comes from a saved slot. */
  type Matrix = seq<seq<bool>>

  /** `m` is exactly `rows × cols`. */
  predicate IsShape(m: Matrix, rows: nat, cols: nat)
  {
    |m| == rows && forall r :: 0 <= r < |m| ==> |m[r]| == cols
  }

  /**
    A `rows × cols` scan indexes only entries of `m`: with no columns it
    indexes nothing, otherwise every scanned row and column must exist.
   */
  predicate Covers(m: Matrix, rows: nat, cols: nat)
  {
    cols == 0 || (rows <= |m| && forall r :: 0 <= r < rows ==> cols <= |m[r]|)
  }

  /** Number of `true` entries of one row. */
  function CountTrue(s: seq<bool>): nat
  {
    if |s| == 0 then 0 else CountTrue(s[..|s| - 1]) + (if s[|s| - 1] then 1 else 0)
  }

  /** Number of `true` entries of the whole matrix, row by row. */
  function CountCells(m: Matrix): nat
  {
    if |m| == 0 then 0 else CountCells(m[..|m| - 1]) + CountTrue(m[|m| - 1])
  }

  /** The rows of `m` laid end to end (JavaScript's `Array.prototype.flat`). */
  function Flatten(m: Matrix): seq<bool>
  {
    if |m| == 0 then [] else Flatten(m[..|m| - 1]) + m[|m| - 1]
  }

  /** The coordinates of the `true` entries of row `s`, placed on row `r`. */
  function TrueInRow(s: seq<bool>, r: nat): set<Cell>
  {
    set c: nat | c < |s| && s[c] :: Cell(r, c)
  }

  /** The coordinates of every `true` entry of `m`. */
  function TrueCells(m: Matrix): set<Cell>
  {
    set r: nat, c: nat | r < |m| && c < |m[r]| && m[r][c] :: Cell(r, c)
  }

  /** Every `true` entry of `m` lies inside the `rows × cols` grid. */
  predicate FitsIn(m: Matrix, rows: nat, cols: nat)
  {
    forall p :: p in TrueCells(m) ==> p.row < rows && p.col < cols
  }

  /** `m` with the entry at (row, col) set to `true`. */
  function Mark(m: Matrix, row: nat, col: nat): (m': Matrix)
    requires row < |m| && col < |m[row]|
    ensures |m'| == |m| && forall r :: 0 <= r < |m| ==> |m'[r]| == |m[r]|
    ensures m'[row][col]
    ensures forall r, c :: 0 <= r < |m| && 0 <= c < |m[r]| && (r != row || c != col) ==> m'[r][c] == m[r][c]
  {
    m[row := m[row][col := true]]
  }

  /** Counting is additive over concatenation. */
  lemma {:induction false} CountTrueAppend(a: seq<bool>, b: seq<bool>)
    ensures CountTrue(a + b) == CountTrue(a) + CountTrue(b)
    decreases |b|
  {
    if |b| == 0 {
      assert a + b == a;
    } else {
      var b' := b[..|b| - 1];
      assert (a + b)[..|a + b| - 1] == a + b';
      CountTrueAppend(a, b');
    }
  }

  /** Counting the flattened matrix counts the matrix (the source counts the saved state through `flat()`). */
  lemma {:induction false} CountFlatten(m: Matrix)
    ensures CountTrue(Flatten(m)) == CountCells(m)
    decreases |m|
  {
    if |m| > 0 {
      CountFlatten(m[..|m| - 1]);
      CountTrueAppend(Flatten(m[..|m| - 1]), m[|m| - 1]);
    }
  }

  /** The row counter counts exactly the `true` positions of the row. */
  lemma {:induction false} CountTrueIsCardinality(s: seq<bool>, r: nat)
    ensures |TrueInRow(s, r)| == CountTrue(s)
    decreases |s|
  {
    if |s| == 0 {
      assert TrueInRow(s, r) == {};
    } else {
      var p := s[..|s| - 1];
      var last := |s| - 1;
      CountTrueIsCardinality(p, r);
      if s[last] {
        assert TrueInRow(s, r) == TrueInRow(p, r) + {Cell(r, last)};
      } else {
        assert TrueInRow(s, r) == TrueInRow(p, r);
      }
    }
  }

  /** The matrix counter counts exactly the `true` coordinates of the matrix. */
  lemma {:induction false} CountCellsIsCardinality(m: Matrix)
    ensures |TrueCells(m)| == CountCells(m)
    decreases |m|
  {
    if |m| == 0 {
      assert TrueCells(m) == {};
    } else {
      var p := m[..|m| - 1];
      var last := |m| - 1;
      CountCellsIsCardinality(p);
      CountTrueIsCardinality(m[last], last);
      assert TrueCells(m) == TrueCells(p) + TrueInRow(m[last], last);
      assert TrueCells(p) * TrueInRow(m[last], last) == {};
    }
  }

  /** Marking a cell adds exactly that cell to the set of `true` coordinates. */
  lemma MarkTrueCells(m: Matrix, row: nat, col: nat)
    requires row < |m| && col < |m[row]|
    ensures TrueCells(Mark(m, row, col)) == TrueCells(m) + {Cell(row, col)}
  {
  }

  /** Marking a `false` entry raises the count by exactly one. */
  lemma MarkCount(m: Matrix, row: nat, col: nat)
    requires row < |m| && col < |m[row]| && !m[row][col]
    ensures CountCells(Mark(m, row, col)) == CountCells(m) + 1
  {
    MarkTrueCells(m, row, col);
    CountCellsIsCardinality(m);
    CountCellsIsCardinality(Mark(m, row, col));
    assert Cell(row, col) !in TrueCells(m);
  }

  /** A matrix with no `true` entry counts zero. */
  lemma NoTrueCountsZero(m: Matrix)
    requires forall r, c :: 0 <= r < |m| && 0 <= c < |m[r]| ==> !m[r][c]
    ensures CountCells(m) == 0
  {
    assert TrueCells(m) == {};
    CountCellsIsCardinality(m);
  }

}
