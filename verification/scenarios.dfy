/** Concrete walk-throughs of a small game, stated over the model's operations. */
module Scenarios {
  import opened Optional
  import opened RevealState
  import opened RandomReveal
  import opened Persistence

  /**
    A 2 × 2 game: revealing (0, 0) counts one, revealing it again still
    counts one, and revealing the other three squares counts four and
    leaves nothing for the random reveal.
   */
  lemma TwoByTwoGame()
    ensures
      var b0 := StartGame(Session(Some("picture"), Board(6, 6, [], 0)), 2, 2).board;
      var b1 := RevealSquare(b0, 0, 0);
      var b2 := RevealSquare(b1, 0, 0);
      var b5 := RevealSquare(RevealSquare(RevealSquare(b2, 0, 1), 1, 0), 1, 1);
      && b1.revealCount == 1 && b2 == b1
      && b5.revealCount == 4 && Unrevealed(b5) == []
      && RevealRandomSquare(b5, 0) == b5
  {
  }

}
