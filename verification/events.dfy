/**
  The two listeners that change the board once a game is running: the click
  handler each overlay square gets when it is created, and the random-reveal
  button.  A run of such events keeps the grid shape and the counter
  invariant, and reveals are one-way.
 */
module Events {
  import opened RevealState
  import opened RandomReveal

  datatype Event = SquareClicked(row: nat, col: nat) | RandomRevealClicked(index: nat)

  /**
    The event can occur on this board: a click comes from an existing
    overlay, and a random draw lies in `[0, length)` of the covered list.
   */
  predicate Enabled(b: Board, e: Event)
    requires WellFormed(b)
  {
    match e
    case SquareClicked(row, col) => row < b.rows && col < b.cols
    case RandomRevealClicked(i) => Unrevealed(b) != [] ==> i < |Unrevealed(b)|
  }

  /** Dispatch one event to `revealSquare` or `revealRandomSquare`. */
  function Handle(b: Board, e: Event): (r: Board)
    requires WellFormed(b) && Enabled(b, e)
    ensures WellFormed(r) && r.rows == b.rows && r.cols == b.cols
    ensures Consistent(b) ==> Consistent(r)
    ensures b.revealCount <= r.revealCount <= b.revealCount + 1
    ensures forall row, col :: 0 <= row < b.rows && 0 <= col < b.cols && b.cells[row][col] ==> r.cells[row][col]
  {
    match e
    case SquareClicked(row, col) =>
      if Consistent(b) then RevealPreservesConsistent(b, row, col); RevealSquare(b, row, col)
      else RevealSquare(b, row, col)
    case RandomRevealClicked(i) =>
      if Consistent(b) then RandomRevealPreservesConsistent(b, i); RevealRandomSquare(b, i)
      else RevealRandomSquare(b, i)
  }

  /** Every event of the run is enabled on the board it reaches. */
  predicate Playable(b: Board, events: seq<Event>)
    requires WellFormed(b)
    decreases |events|
  {
    |events| == 0 || (Enabled(b, events[0]) && Playable(Handle(b, events[0]), events[1..]))
  }

  /** Handle the events one after another. */
  function Play(b: Board, events: seq<Event>): (r: Board)
    requires WellFormed(b) && Playable(b, events)
    ensures WellFormed(r) && r.rows == b.rows && r.cols == b.cols
    ensures Consistent(b) ==> Consistent(r)
    ensures b.revealCount <= r.revealCount <= b.revealCount + |events|
    ensures forall row, col :: 0 <= row < b.rows && 0 <= col < b.cols && b.cells[row][col] ==> r.cells[row][col]
    decreases |events|
  {
    if |events| == 0 then b else Play(Handle(b, events[0]), events[1..])
  }

  /** From a consistent start, the counter never leaves `[0, rows * cols]`, whatever the events. */
  lemma PlayCountBounded(b: Board, events: seq<Event>)
    requires WellFormed(b) && Consistent(b) && Playable(b, events)
    ensures 0 <= Play(b, events).revealCount <= b.rows * b.cols
    ensures |Unrevealed(Play(b, events))| == b.rows * b.cols - Play(b, events).revealCount
  {
    ConsistentCountBounds(Play(b, events));
    UnrevealedLength(Play(b, events));
  }

}
