# uncover-it reveal engine in Dafny

This project models the reveal-state engine of *uncover-it*, a one-player
picture-guessing page. A picture sits under a grid of opaque overlay squares,
and the player uncovers them one at a time. A square is uncovered either by
clicking it or by pressing "random reveal". The page also keeps a running
count of uncovered squares. After every change it stores its state, and it
restores that state when the page loads.

The source marks an uncovered square by setting the overlay's CSS visibility
to `hidden`. The model uses a boolean matrix instead (`true` = uncovered).
The counter is still a separate number, as in the source. So "the counter
equals the number of `true` cells" is an invariant that the model proves the
operations keep. It is not true by definition.

Modules:

- `Grids` (grids.dfy) covers the matrix, its shape and the scan-coverage
  predicates. It also counts `true` entries row by row, over the flattened
  matrix and as a set of coordinates, and proves the three counts agree.
- `RevealState` (reveal.dfy) holds the board (grid size, matrix, counter) and
  `revealSquare`.
- `RandomReveal` (random_reveal.dfy) builds the row-major list of covered
  squares. It has a reference function and the source's nested loop as a
  method. It also does the random reveal, with the random index as a
  parameter.
- `Events` (events.dfy) has the overlay click handler and the random-reveal
  button as events, and runs of such events.
- `Persistence` (persistence.dfy) holds the session (image reference and
  board), `initializeGame`, the start button, `createOverlaySquares`, the
  snapshot of `saveGameState` and the restore of `loadGameState`.
- `Scenarios` (scenarios.dfy) walks through a concrete 2 × 2 game.

Behaviour of the code that the model keeps:

- Revealing a row outside the matrix throws in the source, so `RevealSquare`
  requires the row to be in range. A column outside the row finds no overlay
  and changes nothing.
- The random reveal scans the grid size, not the matrix. It only needs every
  index it actually reads to exist (`Covers`). A grid with zero columns reads
  no overlay at all, so its list is empty whatever the overlays are, and the
  board stays as it is (`ZeroColumnsNothingToReveal`).
- On restore, the counter is the number of `true` entries of the whole saved
  matrix. The rebuilt grid keeps only the entries inside the decoded
  `rows × cols`. So the restored counter matches the grid exactly when no
  saved `true` lies outside the grid (`LoadConsistentIff`). A 1 × 2 all-`true`
  save restored into a 1 × 1 grid counts 2 but shows 1
  (`RestoreOutsideGridOvercounts`). The page can reach this state. Uploading a
  new image in the middle of a game saves the new image reference together
  with the old matrix and the old grid size (src/main.ts:143-145). A reload
  then restores that old matrix onto the grid size of the new image.
- The image check treats an absent and an empty image reference alike, as
  JavaScript truthiness does. On restore, the counter and grid size are set
  before that check. So a save with no image changes the counter and the grid
  size, but not the overlay matrix.
- The grid size is taken as computed, with no lower bound. A saved matrix
  of any shape is restored: missing entries read as covered and extra ones
  are dropped (`CreateOverlaySquares`).

## Model

| member | source | states |
|---|---|---|
| `RevealState.RevealSquare` | src/main.ts:105-110 | Grid size and row lengths are unchanged. Every other cell keeps its value. An in-range column is revealed afterwards. The counter rises by one exactly when the column is in range and the cell was covered. An out-of-range column leaves the board unchanged. |
| `RevealState.RevealRevealedIsNoOp` | src/main.ts:107 | Revealing an already revealed square returns the board unchanged, counter included. |
| `RevealState.RevealIdempotent` | src/main.ts:105-110 | Revealing the same square twice equals revealing it once, so the counter rises by at most one. |
| `RevealState.RevealPreservesConsistent` | src/main.ts:105-110 | If the counter equals the number of revealed cells before a reveal, it still does afterwards. |
| `RevealState.RevealPreservesWellFormed` | src/main.ts:106-109 | A `rows × cols` matrix stays `rows × cols` under a reveal. |
| `Grids.MarkCount` | src/main.ts:109-110 | Uncovering a covered cell adds exactly one to the count of revealed cells. This is why the counter increment is right. |
| `Grids.MarkTrueCells` | src/main.ts:109 | Uncovering a cell adds exactly that coordinate to the set of revealed coordinates. |
| `Grids.CountFlatten` | src/main.ts:29 | Counting `true` over the flattened matrix gives the row-by-row count of revealed cells. |
| `Grids.CountCellsIsCardinality` | src/main.ts:29 | The row-by-row count equals the number of distinct revealed coordinates. |
| `RandomReveal.Unrevealed` | src/main.ts:118-126 | The list the source builds never holds a revealed square or a coordinate outside the scanned `rows × cols` grid. |
| `RandomReveal.ZeroColumnsNothingToReveal` | src/main.ts:120-134 | With zero columns the scan reads no overlay, whatever the overlay matrix holds. The list is empty and the random reveal changes nothing. |
| `RandomReveal.UnrevealedExactly` | src/main.ts:118-126 | A coordinate is in the covered list if and only if it lies in the scanned `rows × cols` grid and its cell is covered. |
| `RandomReveal.UnrevealedRowMajor` | src/main.ts:120-124 | The covered list is strictly increasing in row-major order and has no duplicates. |
| `RandomReveal.UnrevealedLength` | src/main.ts:118-126 | On a `rows × cols` grid the list has `rows*cols` minus the number of revealed cells entries. With a consistent counter that is `rows*cols - revealCount`. |
| `RandomReveal.CollectUnrevealed` | src/main.ts:118-126 | The source's nested loop yields the reference list. So it has exactly the covered in-grid coordinates, in strictly row-major order. |
| `RandomReveal.RevealRandomSquare` | src/main.ts:128-134 | With a non-empty list, the cell picked by an index in `[0, length)` was covered and in the grid. That cell becomes revealed, the counter rises by exactly one and all other cells keep their values. With an empty list the board is unchanged. |
| `RandomReveal.RandomRevealPreservesConsistent` | src/main.ts:128-131 | A random reveal keeps the counter equal to the number of revealed cells. |
| `RandomReveal.RandomRevealShrinks` | src/main.ts:118-131 | On a well-formed grid, a random reveal with a non-empty list makes the next list exactly one shorter. |
| `RandomReveal.NoneLeftIffComplete` | src/main.ts:128-134 | On a consistent well-formed board the list is empty if and only if the counter equals `rows*cols`. |
| `RandomReveal.ConsistentCountBounds` | src/main.ts:105-110 | A consistent counter on a well-formed board lies between 0 and `rows*cols`. |
| `RandomReveal.LastRandomRevealCompletes` | src/main.ts:128-131 | With exactly one covered square left, the random reveal uncovers it. The counter then reaches `rows*cols` and the list is empty. |
| `Events.Handle` | src/main.ts:105-135 | A click on an existing overlay (dispatched to `revealSquare`) or a random-reveal press (dispatched to `revealRandomSquare`) keeps the grid shape and the counter invariant. It raises the counter by at most one and never re-covers a revealed square. |
| `Events.Play` | src/main.ts:96-158 | Any run of enabled events from the overlay click listeners (line 96) and the random-reveal button (line 158) keeps the shape and the counter invariant. It never re-covers a square and raises the counter by at most the number of events. |
| `Events.PlayCountBounded` | src/main.ts:105-135 | From a consistent start, after any run of events the counter stays within `[0, rows*cols]` and equals `rows*cols` minus the covered-list length. |
| `Persistence.CreateOverlaySquares` | src/main.ts:80-101 | The built matrix is `rows × cols`. Cell `(r, c)` is revealed if and only if the saved matrix exists, has row `r` and column `c`, and holds `true` there. |
| `Persistence.InitializeGame` | src/main.ts:37-51 | Without an image (absent or empty) the session is unchanged. Otherwise the board takes the new grid size and the matrix built from the saved state. The counter is reset to 0 only when no saved matrix is given. |
| `Persistence.StartGame` | src/main.ts:152-155 | With an image, starting gives a `rows × cols` all-covered grid with counter 0, which is consistent. Without an image nothing changes. |
| `Persistence.SaveGameState` | src/main.ts:13-19 | The snapshot carries the image reference and the grid size. The saved matrix has the overlay matrix's shape, row for row, whatever that shape is. Each saved entry is `true` exactly where the board's cell is revealed. A well-formed board snapshots to a matrix of the saved grid size. A consistent counter equals the number of `true` entries saved. |
| `Persistence.LoadGameState` | src/main.ts:24-34 | An empty slot changes nothing. Otherwise the image reference is adopted and the counter is the number of `true` entries of the whole saved matrix. With an image the grid is the `rows × cols` restore of the saved matrix. Without one the overlay matrix is untouched, and the grid size becomes the saved size, or stays as it was when the slot has none. |
| `Persistence.RestoredTrueCells` | src/main.ts:92-94 | The revealed coordinates of a restored grid are exactly the saved `true` coordinates inside `rows × cols`. |
| `Persistence.RestoredCount` | src/main.ts:92-94 | A restored grid never counts more than the saved matrix. It counts the same if and only if every saved `true` lies inside the grid. |
| `Persistence.LoadConsistentIff` | src/main.ts:29-31 | After a restore with an image, the counter equals the number of revealed cells if and only if no saved `true` lies outside the decoded grid. |
| `Persistence.LoadShapedIsConsistent` | src/main.ts:29 | A saved matrix already of shape `rows × cols` restores a consistent board whose counter is at most `rows*cols`. |
| `Persistence.SnapshotOfRestore` | src/main.ts:14 | The snapshot of a board restored from a `rows × cols` saved matrix gives back that matrix and image reference. |
| `Persistence.SaveLoadRoundTrip` | src/main.ts:13-34 | Saving a well-formed, consistent session with an image, then loading it at the same grid size, gives back exactly that session, whatever the page held before. |
| `Persistence.RestoreOutsideGridOvercounts` | src/main.ts:29 | A concrete restore where the counter (2) exceeds the revealed cells (1), because a saved `true` lies outside the grid. |
| `Scenarios.TwoByTwoGame` | src/main.ts:105-134 | On a fresh 2 × 2 game, revealing (0,0) counts 1 and repeating it still counts 1. Revealing the rest counts 4, the random list is empty and the random reveal changes nothing. |

## Left out

- Grid geometry (src/main.ts:58-78) is left out. It uses floating-point `Math.sqrt`, `Math.round` and pixel sizes. The grid size the decoded image yields is a parameter (`rows`, `cols`), and no lower bound is assumed.
- Storage and JSON (src/main.ts:20, 25-27) are left out. The slot is an `Option<SavedState>` value. A slot that fails to parse makes the source throw, and that is not modelled.
- Image upload (src/main.ts:138-149) is left out. It is asynchronous file reading that only sets the image reference and saves. The image reference is a field of the session.
- The asynchronous image decode (src/main.ts:55-57) is collapsed into a single step. Between the start or restore and the decode, the source holds an empty overlay list. So the save right after start (src/main.ts:154) writes an empty matrix. The model builds the grid in the same step.
- DOM creation, styling, listeners and status text are left out, as are the saves after each reveal (src/main.ts:112-113). The saved slot's content is given by `SaveGameState`.
- The counter is a JavaScript number. It is modelled as an unbounded integer, which is exact for every reachable count.
- RandomReveal.RevealRandomSquare: requires `Covers` (every scanned overlay exists). The source throws a TypeError, with no change of state, when its scan runs past the overlay matrix (src/main.ts:120-122). This can happen on a press before any grid is built, with the default 6 × 6 size and no overlays (src/main.ts:8-9), or during the image decode. The model does not represent that throw. `RandomReveal.CollectUnrevealed` shares this requirement.
- Events.Handle: requires `WellFormed`, the exact `rows × cols` shape, which is stronger than `Covers`. A random-reveal press on a board that only covers the scan (for example one with zero columns and no overlays) is accepted by `RevealRandomSquare`, where the source shows that every square is revealed (src/main.ts:133), but it is not an event of `Handle` or `Events.Play`. The shape is what lets a run of events carry the grid shape and the counter invariant from one event to the next.
- Rows outside the overlay matrix are not modelled, because the source throws on them. `RevealSquare` requires an in-range row.
- vite.config.ts is build configuration with no logic.
