/**
  The random reveal (`revealRandomSquare` in src/main.ts): scan the
  `rows × cols` grid in row-major order collecting the squares still
  covered, then reveal the one at a random index of that list.  The random
  index is a parameter here; the source draws it as
  `Math.floor(Math.random() * length)`, so it is always in `[0, length)`.
 */
module RandomReveal {
  import opened Grids
  import opened RevealState

  /** `a` comes strictly before `b` in row-major order. */
  predicate Before(a: Cell, b: Cell)
  {
    a.row < b.row || (a.row == b.row && a.col < b.col)
  }

  /** Covered squares of row `r` among its first `k` columns, left to right. */
  function RowUnrevealed(m: Matrix, r: nat, k: nat): seq<Cell>
    requires k == 0 || (r < |m| && k <= |m[r]|)
    decreases k
  {
    if k == 0 then []
    else RowUnrevealed(m, r, k - 1) + (if m[r][k - 1] then [] else [Cell(r, k - 1)])
  }

  /** Covered squares of the first `n` rows of a `cols`-wide scan, in row-major order. */
  function UnrevealedRows(m: Matrix, n: nat, cols: nat): seq<Cell>
    requires Covers(m, n, cols)
    decreases n
  {
    if n == 0 then []
    else UnrevealedRows(m, n - 1, cols) + RowUnrevealed(m, n - 1, cols)
  }

  /** The list the source builds before drawing: every covered square of the grid. */
  function Unrevealed(b: Board): (list: seq<Cell>)
    requires Covers(b.cells, b.rows, b.cols)
    ensures forall p :: p in list ==> p.row < b.rows && p.col < b.cols && !b.cells[p.row][p.col]
  {
    UnrevealedRowsMembers(b.cells, b.rows, b.cols);
    UnrevealedRows(b.cells, b.rows, b.cols)
  }

  lemma {:induction false} RowUnrevealedMembers(m: Matrix, r: nat, k: nat)
    requires k == 0 || (r < |m| && k <= |m[r]|)
    ensures forall p :: p in RowUnrevealed(m, r, k) <==> p.row == r && p.col < k && !m[r][p.col]
    decreases k
  {
    if k > 0 {
      RowUnrevealedMembers(m, r, k - 1);
    }
  }

  lemma {:induction false} RowUnrevealedOrdered(m: Matrix, r: nat, k: nat)
    requires k == 0 || (r < |m| && k <= |m[r]|)
    ensures forall i, j :: 0 <= i < j < |RowUnrevealed(m, r, k)| ==>
      RowUnrevealed(m, r, k)[i].col < RowUnrevealed(m, r, k)[j].col
    decreases k
  {
    if k > 0 {
      RowUnrevealedOrdered(m, r, k - 1);
      RowUnrevealedMembers(m, r, k - 1);
      var prefix := RowUnrevealed(m, r, k - 1);
      forall i | 0 <= i < |prefix|
        ensures prefix[i].col < k - 1
      {
        assert prefix[i] in prefix;
      }
    }
  }

  lemma {:induction false} RowUnrevealedLength(m: Matrix, r: nat, k: nat)
    requires r < |m| && k <= |m[r]|
    ensures |RowUnrevealed(m, r, k)| + CountTrue(m[r][..k]) == k
    decreases k
  {
    if k > 0 {
      RowUnrevealedLength(m, r, k - 1);
      assert m[r][..k][..k - 1] == m[r][..k - 1];
    }
  }

  lemma {:induction false} UnrevealedRowsMembers(m: Matrix, n: nat, cols: nat)
    requires Covers(m, n, cols)
    ensures forall p :: p in UnrevealedRows(m, n, cols) <==> p.row < n && p.col < cols && !m[p.row][p.col]
    decreases n
  {
    if cols == 0 {
      NoColumnsNoCells(m, n);
    } else if n > 0 {
      assert n <= |m| && Covers(m, n - 1, cols);
      UnrevealedRowsMembers(m, n - 1, cols);
      RowUnrevealedMembers(m, n - 1, cols);
    }
  }

  lemma {:induction false} UnrevealedRowsOrdered(m: Matrix, n: nat, cols: nat)
    requires Covers(m, n, cols)
    ensures forall i, j :: 0 <= i < j < |UnrevealedRows(m, n, cols)| ==>
      Before(UnrevealedRows(m, n, cols)[i], UnrevealedRows(m, n, cols)[j])
    decreases n
  {
    if n > 0 {
      var upper := UnrevealedRows(m, n - 1, cols);
      var last := RowUnrevealed(m, n - 1, cols);
      UnrevealedRowsOrdered(m, n - 1, cols);
      UnrevealedRowsMembers(m, n - 1, cols);
      RowUnrevealedOrdered(m, n - 1, cols);
      RowUnrevealedMembers(m, n - 1, cols);
      var all := upper + last;
      forall i, j | 0 <= i < j < |all|
        ensures Before(all[i], all[j])
      {
        if j < |upper| {
          assert all[i] == upper[i] && all[j] == upper[j];
        } else if i >= |upper| {
          assert all[i] == last[i - |upper|] && all[j] == last[j - |upper|];
        } else {
          assert all[i] == upper[i] && upper[i] in upper;
          assert all[j] == last[j - |upper|] && last[j - |upper|] in last;
        }
      }
    }
  }

  lemma {:induction false} UnrevealedRowsLength(m: Matrix, n: nat, cols: nat)
    requires n <= |m| && forall r :: 0 <= r < n ==> |m[r]| == cols
    ensures |UnrevealedRows(m, n, cols)| + CountCells(m[..n]) == n * cols
    decreases n
  {
    if n > 0 {
      UnrevealedRowsLength(m, n - 1, cols);
      RowUnrevealedLength(m, n - 1, cols);
      assert m[n - 1][..cols] == m[n - 1];
      assert m[..n][..n - 1] == m[..n - 1];
      assert (n - 1) * cols + cols == n * cols;
    }
  }

  /**
    A grid without columns scans nothing: whatever the overlays, the list is
    empty and the random reveal leaves the board as it is.
   */
  lemma {:induction false} ZeroColumnsNothingToReveal(b: Board, i: int)
    requires b.cols == 0
    ensures Covers(b.cells, b.rows, b.cols)
    ensures Unrevealed(b) == []
    ensures RevealRandomSquare(b, i) == b
  {
    NoColumnsNoCells(b.cells, b.rows);
  }

  lemma {:induction false} NoColumnsNoCells(m: Matrix, n: nat)
    ensures UnrevealedRows(m, n, 0) == []
    decreases n
  {
    if n > 0 {
      NoColumnsNoCells(m, n - 1);
    }
  }

  /** The list holds exactly the covered in-grid squares. */
  lemma UnrevealedExactly(b: Board)
    requires Covers(b.cells, b.rows, b.cols)
    ensures forall p :: p in Unrevealed(b) <==> p.row < b.rows && p.col < b.cols && !b.cells[p.row][p.col]
  {
    UnrevealedRowsMembers(b.cells, b.rows, b.cols);
  }

  /** The list is strictly increasing in row-major order, hence free of duplicates. */
  lemma UnrevealedRowMajor(b: Board)
    requires Covers(b.cells, b.rows, b.cols)
    ensures forall i, j :: 0 <= i < j < |Unrevealed(b)| ==> Before(Unrevealed(b)[i], Unrevealed(b)[j])
    ensures forall i, j :: 0 <= i < j < |Unrevealed(b)| ==> Unrevealed(b)[i] != Unrevealed(b)[j]
  {
    UnrevealedRowsOrdered(b.cells, b.rows, b.cols);
  }

  /** On a well-formed grid the list is as long as the grid minus the revealed squares. */
  lemma UnrevealedLength(b: Board)
    requires WellFormed(b)
    ensures |Unrevealed(b)| == b.rows * b.cols - CountCells(b.cells)
    ensures Consistent(b) ==> |Unrevealed(b)| == b.rows * b.cols - b.revealCount
  {
    UnrevealedRowsLength(b.cells, b.rows, b.cols);
    assert b.cells[..b.rows] == b.cells;
  }

  /** On a consistent board the counter stays within the grid. */
  lemma ConsistentCountBounds(b: Board)
    requires WellFormed(b) && Consistent(b)
    ensures 0 <= b.revealCount <= b.rows * b.cols
  {
    UnrevealedLength(b);
  }

  /** The list is empty exactly when every square of a consistent board is revealed. */
  lemma NoneLeftIffComplete(b: Board)
    requires WellFormed(b) && Consistent(b)
    ensures Unrevealed(b) == [] <==> b.revealCount == b.rows * b.cols
  {
    UnrevealedLength(b);
  }

  /** The source's nested loop that builds the list. */
  method CollectUnrevealed(b: Board) returns (list: seq<Cell>)
    requires Covers(b.cells, b.rows, b.cols)
    ensures list == Unrevealed(b)
    ensures forall p :: p in list <==> p.row < b.rows && p.col < b.cols && !b.cells[p.row][p.col]
    ensures forall i, j :: 0 <= i < j < |list| ==> Before(list[i], list[j])
  {
    list := [];
    var row := 0;
    while row < b.rows
      invariant row <= b.rows
      invariant list == UnrevealedRows(b.cells, row, b.cols)
    {
      var col := 0;
      while col < b.cols
        invariant col <= b.cols
        invariant list == UnrevealedRows(b.cells, row, b.cols) + RowUnrevealed(b.cells, row, col)
      {
        if !b.cells[row][col] {
          list := list + [Cell(row, col)];
        }
        col := col + 1;
      }
      row := row + 1;
    }
    UnrevealedExactly(b);
    UnrevealedRowMajor(b);
  }

  /**
    Reveal the covered square at index `i` of the list; with nothing left
    to reveal the board stays as it is (the source only shows a message).
   */
  function RevealRandomSquare(b: Board, i: int): (r: Board)
    requires Covers(b.cells, b.rows, b.cols)
    requires Unrevealed(b) != [] ==> 0 <= i < |Unrevealed(b)|
    ensures r.rows == b.rows && r.cols == b.cols
    ensures |r.cells| == |b.cells| && forall k :: 0 <= k < |b.cells| ==> |r.cells[k]| == |b.cells[k]|
    ensures Unrevealed(b) == [] ==> r == b
    ensures Unrevealed(b) != [] ==>
      var p := Unrevealed(b)[i];
      && p.row < b.rows && p.col < b.cols
      && !b.cells[p.row][p.col]
      && r.cells[p.row][p.col]
      && r.revealCount == b.revealCount + 1
    ensures Unrevealed(b) != [] ==> forall row, col ::
      0 <= row < |b.cells| && 0 <= col < |b.cells[row]| && Cell(row, col) != Unrevealed(b)[i] ==>
        r.cells[row][col] == b.cells[row][col]
  {
    var list := Unrevealed(b);
    if |list| > 0 then
      UnrevealedExactly(b);
      assert list[i] in list;
      RevealSquare(b, list[i].row, list[i].col)
    else
      b
  }

  /** The counter invariant survives a random reveal. */
  lemma RandomRevealPreservesConsistent(b: Board, i: int)
    requires Covers(b.cells, b.rows, b.cols)
    requires Unrevealed(b) != [] ==> 0 <= i < |Unrevealed(b)|
    requires Consistent(b)
    ensures Consistent(RevealRandomSquare(b, i))
  {
    var list := Unrevealed(b);
    if |list| > 0 {
      UnrevealedExactly(b);
      assert list[i] in list;
      RevealPreservesConsistent(b, list[i].row, list[i].col);
    }
  }

  /** Each random reveal on a non-empty list shortens the list by exactly one. */
  lemma RandomRevealShrinks(b: Board, i: int)
    requires WellFormed(b)
    requires Unrevealed(b) != [] ==> 0 <= i < |Unrevealed(b)|
    ensures WellFormed(RevealRandomSquare(b, i))
    ensures Unrevealed(b) != [] ==> |Unrevealed(RevealRandomSquare(b, i))| == |Unrevealed(b)| - 1
  {
    var r := RevealRandomSquare(b, i);
    var list := Unrevealed(b);
    if |list| > 0 {
      UnrevealedExactly(b);
      assert list[i] in list;
      MarkCount(b.cells, list[i].row, list[i].col);
      UnrevealedLength(b);
      UnrevealedLength(r);
    }
  }

  /** With one covered square left, any permitted draw reveals it and completes a consistent board. */
  lemma LastRandomRevealCompletes(b: Board, i: int)
    requires WellFormed(b) && Consistent(b)
    requires |Unrevealed(b)| == 1 && 0 <= i < 1
    ensures RevealRandomSquare(b, i).revealCount == b.rows * b.cols
    ensures Unrevealed(RevealRandomSquare(b, i)) == []
  {
    UnrevealedLength(b);
    RandomRevealShrinks(b, i);
    RandomRevealPreservesConsistent(b, i);
  }

}
