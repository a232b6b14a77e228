/**
  The page session around the board: the image reference, the start of a
  fresh game (`initializeGame` without saved state), the snapshot written
  to storage (`saveGameState`) and the restore at page load
  (`loadGameState`, which derives the counter from the saved matrix and
  rebuilds the overlays through `createOverlaySquares`).

  Storage, JSON and image decoding are not modelled: the saved slot is an
  `Option<SavedState>` value, and the grid size the decoded image yields is
  passed in as `rows`/`cols`.
 */
module Persistence {
  import opened Optional
  import opened Grids
  import opened RevealState
  import RandomReveal

  datatype GridSize = GridSize(rows: nat, cols: nat)

  /** The object kept in the single storage slot. */
  datatype SavedState = SavedState(imageUrl: Option<string>, revealedState: Matrix, gridSize: Option<GridSize>)

  /** The page's module-level state: the image reference and the board. */
  datatype Session = Session(imageUrl: Option<string>, board: Board)

  /** Before any event: no image, the default 6 × 6 grid size, no overlays, counter 0. */
  const InitialSession := Session(None, Board(6, 6, [], 0))

  /** JavaScript truthiness of the image reference: absent and empty both count as "no image". */
  predicate HasImage(url: Option<string>)
  {
    url.Some? && url.value != ""
  }

  /** The saved matrix has row `r`, that row has column `c`, and the value there is `true`. */
  predicate SavedAt(saved: Option<Matrix>, r: int, c: int)
  {
    saved.Some? && 0 <= r < |saved.value| && 0 <= c < |saved.value[r]| && saved.value[r][c]
  }

  /**
    The overlay matrix for a `rows × cols` grid: a square starts revealed
    only where the saved matrix says `true`; missing rows and columns read
    as covered, and saved entries outside the grid are dropped.
   */
  function CreateOverlaySquares(rows: nat, cols: nat, saved: Option<Matrix>): (m: Matrix)
    ensures IsShape(m, rows, cols)
    ensures forall r, c :: 0 <= r < rows && 0 <= c < cols ==> (m[r][c] <==> SavedAt(saved, r, c))
  {
    seq(rows, r => seq(cols, c => SavedAt(saved, r, c)))
  }

  /**
    Without an image nothing happens.  Otherwise the overlays are rebuilt
    for the decoded grid size; the counter is reset only when no saved
    matrix is given, and is otherwise left as the caller set it.
   */
  function InitializeGame(s: Session, rows: nat, cols: nat, revealedState: Option<Matrix>): (s': Session)
    ensures !HasImage(s.imageUrl) ==> s' == s
    ensures HasImage(s.imageUrl) ==>
      && s'.imageUrl == s.imageUrl
      && s'.board.rows == rows && s'.board.cols == cols
      && WellFormed(s'.board)
      && (forall r, c :: 0 <= r < rows && 0 <= c < cols ==> (s'.board.cells[r][c] <==> SavedAt(revealedState, r, c)))
      && s'.board.revealCount == (if revealedState.None? then 0 else s.board.revealCount)
  {
    if !HasImage(s.imageUrl) then s
    else
      Session(s.imageUrl, Board(rows, cols, CreateOverlaySquares(rows, cols, revealedState),
                                if revealedState.None? then 0 else s.board.revealCount))
  }

  /** The start button: a fresh all-covered grid with the counter at zero. */
  function StartGame(s: Session, rows: nat, cols: nat): (s': Session)
    ensures !HasImage(s.imageUrl) ==> s' == s
    ensures HasImage(s.imageUrl) ==>
      && s'.imageUrl == s.imageUrl
      && s'.board.rows == rows && s'.board.cols == cols
      && WellFormed(s'.board)
      && (forall r, c :: 0 <= r < rows && 0 <= c < cols ==> !s'.board.cells[r][c])
      && s'.board.revealCount == 0
      && Consistent(s'.board)
  {
    var s' := InitializeGame(s, rows, cols, None);
    if HasImage(s.imageUrl) then
      NoTrueCountsZero(s'.board.cells);
      s'
    else
      s'
  }

  /** The snapshot written after every change: the overlay matrix mapped back out, with image and grid size. */
  function SaveGameState(s: Session): (st: SavedState)
    ensures st.imageUrl == s.imageUrl
    ensures st.gridSize.Some? && st.gridSize.value.rows == s.board.rows && st.gridSize.value.cols == s.board.cols
    ensures |st.revealedState| == |s.board.cells| &&
      forall r :: 0 <= r < |s.board.cells| ==> |st.revealedState[r]| == |s.board.cells[r]|
    ensures WellFormed(s.board) ==> IsShape(st.revealedState, st.gridSize.value.rows, st.gridSize.value.cols)
    ensures Consistent(s.board) ==> CountCells(st.revealedState) == s.board.revealCount
    ensures forall r, c :: 0 <= r < |s.board.cells| && 0 <= c < |s.board.cells[r]| ==>
      (SavedAt(Some(st.revealedState), r, c) <==> s.board.cells[r][c])
  {
    SavedState(s.imageUrl, s.board.cells, Some(GridSize(s.board.rows, s.board.cols)))
  }

  /**
    Page load.  With an empty slot nothing changes.  Otherwise the image
    reference and grid size are adopted, the counter is set to the number of
    `true` entries of the whole saved matrix, and the game is initialized
    from that matrix for the grid size `rows × cols` of the decoded image.
   */
  function LoadGameState(s: Session, slot: Option<SavedState>, rows: nat, cols: nat): (s': Session)
    ensures slot.None? ==> s' == s
    ensures slot.Some? ==> s'.imageUrl == slot.value.imageUrl
    ensures slot.Some? ==> s'.board.revealCount == CountCells(slot.value.revealedState)
    ensures slot.Some? && !HasImage(slot.value.imageUrl) ==>
      && s'.board.cells == s.board.cells
      && s'.board.rows == (if slot.value.gridSize.Some? then slot.value.gridSize.value.rows else s.board.rows)
      && s'.board.cols == (if slot.value.gridSize.Some? then slot.value.gridSize.value.cols else s.board.cols)
    ensures slot.Some? && HasImage(slot.value.imageUrl) ==>
      && s'.board.rows == rows && s'.board.cols == cols
      && WellFormed(s'.board)
      && (forall r, c :: 0 <= r < rows && 0 <= c < cols ==>
            (s'.board.cells[r][c] <==> SavedAt(Some(slot.value.revealedState), r, c)))
  {
    match slot
    case None => s
    case Some(st) =>
      var size := if st.gridSize.Some? then st.gridSize.value else GridSize(s.board.rows, s.board.cols);
      CountFlatten(st.revealedState);
      var restored := Session(st.imageUrl, Board(size.rows, size.cols, s.board.cells, CountTrue(Flatten(st.revealedState))));
      InitializeGame(restored, rows, cols, Some(st.revealedState))
  }

  /** The revealed squares of a restored grid are the saved `true` entries that fall inside it. */
  lemma RestoredTrueCells(rows: nat, cols: nat, saved: Matrix)
    ensures TrueCells(CreateOverlaySquares(rows, cols, Some(saved))) ==
      set p | p in TrueCells(saved) && p.row < rows && p.col < cols
  {
  }

  /**
    A restored grid counts every saved `true` entry exactly when all of them
    lie inside the grid; otherwise it counts strictly fewer.
   */
  lemma RestoredCount(rows: nat, cols: nat, saved: Matrix)
    ensures CountCells(CreateOverlaySquares(rows, cols, Some(saved))) <= CountCells(saved)
    ensures CountCells(CreateOverlaySquares(rows, cols, Some(saved))) == CountCells(saved) <==> FitsIn(saved, rows, cols)
  {
    var m := CreateOverlaySquares(rows, cols, Some(saved));
    RestoredTrueCells(rows, cols, saved);
    CountCellsIsCardinality(m);
    CountCellsIsCardinality(saved);
    KeptCardinality(TrueCells(saved), TrueCells(m), rows, cols);
  }

  /** Keeping the in-grid part of a coordinate set keeps its size exactly when nothing lies outside the grid. */
  lemma KeptCardinality(all: set<Cell>, kept: set<Cell>, rows: nat, cols: nat)
    requires kept == set p | p in all && p.row < rows && p.col < cols
    ensures |kept| <= |all|
    ensures |kept| == |all| <==> forall p :: p in all ==> p.row < rows && p.col < cols
  {
    assert all == kept + (all - kept);
    if exists p :: p in all && !(p.row < rows && p.col < cols) {
      var p :| p in all && !(p.row < rows && p.col < cols);
      assert p in all - kept;
    } else {
      assert all == kept;
    }
  }

  /**
    After a restore with an image, the counter agrees with the grid exactly
    when no saved `true` entry lies outside the decoded grid size.
   */
  lemma LoadConsistentIff(s: Session, st: SavedState, rows: nat, cols: nat)
    requires HasImage(st.imageUrl)
    ensures Consistent(LoadGameState(s, Some(st), rows, cols).board) <==> FitsIn(st.revealedState, rows, cols)
  {
    RestoredCount(rows, cols, st.revealedState);
  }

  /** A saved matrix of the decoded shape restores a consistent board. */
  lemma LoadShapedIsConsistent(s: Session, st: SavedState, rows: nat, cols: nat)
    requires HasImage(st.imageUrl)
    requires IsShape(st.revealedState, rows, cols)
    ensures Consistent(LoadGameState(s, Some(st), rows, cols).board)
    ensures LoadGameState(s, Some(st), rows, cols).board.revealCount <= rows * cols
  {
    LoadConsistentIff(s, st, rows, cols);
    CellsInsideShape(st.revealedState, rows, cols);
    RandomReveal.ConsistentCountBounds(LoadGameState(s, Some(st), rows, cols).board);
  }

  lemma CellsInsideShape(m: Matrix, rows: nat, cols: nat)
    requires IsShape(m, rows, cols)
    ensures FitsIn(m, rows, cols)
  {
  }

  /** Snapshot after restore gives back a saved matrix that already had the decoded shape. */
  lemma SnapshotOfRestore(s: Session, st: SavedState, rows: nat, cols: nat)
    requires HasImage(st.imageUrl)
    requires IsShape(st.revealedState, rows, cols)
    ensures SaveGameState(LoadGameState(s, Some(st), rows, cols)).revealedState == st.revealedState
    ensures SaveGameState(LoadGameState(s, Some(st), rows, cols)).imageUrl == st.imageUrl
  {
    var m := LoadGameState(s, Some(st), rows, cols).board.cells;
    forall r | 0 <= r < rows
      ensures m[r] == st.revealedState[r]
    {
    }
  }

  /**
    Save then load with the same image: a well-formed, consistent session
    comes back unchanged, whatever the page held before the load.
   */
  lemma SaveLoadRoundTrip(before: Session, s: Session)
    requires HasImage(s.imageUrl)
    requires WellFormed(s.board) && Consistent(s.board)
    ensures LoadGameState(before, Some(SaveGameState(s)), s.board.rows, s.board.cols) == s
  {
    var st := SaveGameState(s);
    SnapshotOfRestore(before, st, s.board.rows, s.board.cols);
  }

  /**
    The counter can disagree with the grid after a restore: a 1 × 2 saved
    matrix with both entries `true` restored into a 1 × 1 grid reveals one
    square but counts two.
   */
  lemma RestoreOutsideGridOvercounts()
    ensures var s' := LoadGameState(InitialSession, Some(SavedState(Some("img"), [[true, true]], None)), 1, 1);
      s'.board.revealCount == 2 && CountCells(s'.board.cells) == 1
  {
    var saved: Matrix := [[true, true]];
    var s' := LoadGameState(InitialSession, Some(SavedState(Some("img"), saved, None)), 1, 1);
    assert |"img"| == 3;
    assert |s'.board.cells| == 1 && |s'.board.cells[0]| == 1 && s'.board.cells[0][0];
    assert s'.board.cells[0] == [true];
    assert s'.board.cells == [[true]];
    assert CountTrue([true, true]) == 2 by {
      assert [true, true][..1] == [true];
      assert [true][..0] == [];
    }
    assert CountCells(saved) == 2 by {
      assert saved[..0] == [];
    }
    assert CountCells([[true]]) == 1 by {
      assert [[true]][..0] == [];
      assert [true][..0] == [];
    }
  }

}
