/**
 * The apple. Its position is drawn at random, cell by cell, until the draw
 * misses the snake. The random source is given as the sequence of cells it
 * would produce; `randrange(0, 640, 20)` and `randrange(0, 480, 20)` only
 * produce grid-aligned coordinates inside the screen.
 */
module Food {
  import opened Options
  import opened Grid

  /** Every cell the random source can produce is on the grid. */
  predicate AllOnGrid(draws: seq<Cell>) {
    forall i | 0 <= i < |draws| :: OnGrid(draws[i])
  }

  /** The random source eventually produces a cell outside `occupied`. */
  predicate HasFreeDraw(draws: seq<Cell>, occupied: seq<Cell>) {
    exists i | 0 <= i < |draws| :: draws[i] !in occupied
  }

  /** The index of the draw the rejection loop accepts: the first free one. */
  function FirstFree(draws: seq<Cell>, occupied: seq<Cell>): (k: nat)
    requires HasFreeDraw(draws, occupied)
    ensures k < |draws| && draws[k] !in occupied
    ensures forall j | 0 <= j < k :: draws[j] in occupied
  {
    if draws[0] !in occupied then 0
    else
      assert HasFreeDraw(draws[1..], occupied) by {
        var i :| 0 <= i < |draws| && draws[i] !in occupied;
        assert draws[1..][i - 1] == draws[i];
      }
      1 + FirstFree(draws[1..], occupied)
  }

  class Apple {
    /** None until the first placement, as in the base object's constructor. */
    var position: Option<Cell>

    constructor ()
      ensures position == None
    {
      position := None;
    }

    /** Draws cells until one is not in `snakeCoordinates`, and keeps that one. */
    method RandomizePosition(snakeCoordinates: seq<Cell>, draws: seq<Cell>)
      requires AllOnGrid(draws)
      requires HasFreeDraw(draws, snakeCoordinates)
      modifies this
      ensures position == Some(draws[FirstFree(draws, snakeCoordinates)])
      ensures position.Some? && OnGrid(position.value) && position.value !in snakeCoordinates
    {
      var i := 0;
      while true
        invariant 0 <= i <= FirstFree(draws, snakeCoordinates)
        decreases |draws| - i
      {
        position := Some(draws[i]);
        if draws[i] !in snakeCoordinates {
          break;
        }
        i := i + 1;
      }
    }
  }

}
