/**
 * The snake: an ordered body of cells with the head first, the length the body
 * must have, the current direction, the turn queued by the player and the cell
 * vacated by the last move.
 *
 * `SnakeState` is the value of a snake's fields; the functions on it give the
 * meaning of each method of the class `Snake`, and the lemmas state what those
 * steps preserve.
 */
module Snakes {
  import opened Options
  import opened Grid

  datatype SnakeState = SnakeState(
    positions: seq<Cell>,
    length: int,
    direction: Direction,
    nextDirection: Option<Direction>,
    last: Option<Cell>)

  /**
   * What holds between ticks: the body has exactly `length` cells, at least
   * one, all on the grid, the vacated cell is on the grid, and the queued turn
   * never reverses the current direction.
   */
  ghost predicate Valid(s: SnakeState) {
    && s.length >= 1
    && |s.positions| == s.length
    && (forall c | c in s.positions :: OnGrid(c))
    && (s.last.Some? ==> OnGrid(s.last.value))
    && (s.nextDirection.Some? ==> s.nextDirection.value != Opposite(s.direction))
  }

  /** Every segment is one step from the segment behind it. */
  ghost predicate Connected(body: seq<Cell>) {
    forall i | 1 <= i < |body| :: Adjacent(body[i - 1], body[i])
  }

  /**
   * The head was reached from the segment behind it by a step that the
   * current direction does not reverse.
   */
  ghost predicate Facing(s: SnakeState) {
    |s.positions| >= 2 ==>
      exists d: Direction :: s.positions[0] == Advance(s.positions[1], d) && s.direction != Opposite(d)
  }

  /**
   * The reversal filter at work: a snake whose direction does not reverse
   * its last step never moves its head onto the segment right behind it.
   */
  lemma NeverBitesNeck(s: SnakeState)
    requires Valid(s) && Facing(s) && |s.positions| >= 2
    ensures Advance(s.positions[0], s.direction) != s.positions[1]
  {
    var d: Direction :| s.positions[0] == Advance(s.positions[1], d) && s.direction != Opposite(d);
    assert s.positions[0] in s.positions && s.positions[1] in s.positions;
    if Advance(s.positions[0], s.direction) == s.positions[1] {
      // Stepping back from the neck by the reverse direction would reach the head a second way.
      AdvanceThenBack(s.positions[0], s.direction);
      if Opposite(s.direction) != d {
        AdvanceDistinct(s.positions[1], Opposite(s.direction), d);
      }
      OppositeInvolutive(s.direction);
      assert false;
    }
  }

  /** The state of a new snake: one cell in the middle, heading right, no turn queued, no cell vacated yet. */
  function Initial(): SnakeState {
    SnakeState([Center], 1, Right, None, None)
  }

  /** `reset`: the fields `__init__` sets get their initial values; `last` is left as it is. */
  function ResetState(s: SnakeState): SnakeState {
    s.(positions := [Center], length := 1, direction := Right, nextDirection := None)
  }

  /** `move`: a new head one cell ahead is put in front, and the tail is removed and remembered. */
  function Moved(s: SnakeState): SnakeState
    requires |s.positions| > 0
  {
    var n := |s.positions|;
    s.(positions := [Advance(s.positions[0], s.direction)] + s.positions[..n - 1],
       last := Some(s.positions[n - 1]))
  }

  /** `update_direction`: a queued turn becomes the direction and the queue is emptied. */
  function Turned(s: SnakeState): SnakeState {
    if s.nextDirection.Some? then s.(direction := s.nextDirection.value, nextDirection := None)
    else s
  }

  /** Eating: the length goes up by one and the vacated cell is appended again. */
  function Grown(s: SnakeState): SnakeState
    requires s.last.Some?
  {
    s.(length := s.length + 1, positions := s.positions + [s.last.value])
  }

  /** The head occupies a cell of the rest of the body. */
  predicate HitsItself(body: seq<Cell>)
    requires |body| > 0
  {
    body[0] in body[1..]
  }

  /** The end of a tick: a snake that ran into itself is reset, any other is left alone. */
  function CollisionChecked(s: SnakeState): SnakeState
    requires |s.positions| > 0
  {
    if HitsItself(s.positions) then ResetState(s) else s
  }

  lemma InitialValid()
    ensures Valid(Initial()) && Connected(Initial().positions) && Facing(Initial())
  {
  }

  /** Reset gives the initial state except for `last`, and doing it twice is doing it once. */
  lemma ResetIsInitial(s: SnakeState)
    ensures ResetState(s) == Initial().(last := s.last)
    ensures ResetState(ResetState(s)) == ResetState(s)
    ensures Valid(s) ==> Valid(ResetState(s))
  {
  }

  /**
   * Moving is "insert at the front, pop at the back": the body keeps its
   * length, every old segment but the tail shifts one place back, and the
   * removed tail is `last`.
   */
  lemma MovedShifts(s: SnakeState)
    requires |s.positions| > 0
    ensures var r := Moved(s);
      && |r.positions| == |s.positions|
      && r.positions[0] == Advance(s.positions[0], s.direction)
      && (forall i | 1 <= i < |r.positions| :: r.positions[i] == s.positions[i - 1])
      && r.last.Some?
      && r.positions + [r.last.value] == [r.positions[0]] + s.positions
      && r.length == s.length && r.direction == s.direction && r.nextDirection == s.nextDirection
  {
    var n := |s.positions|;
    assert s.positions[..n - 1] + [s.positions[n - 1]] == s.positions;
  }

  /** Moving keeps the snake valid: same length, every cell still on the grid. */
  lemma MovedValid(s: SnakeState)
    requires Valid(s)
    ensures Valid(Moved(s))
  {
    var r := Moved(s);
    forall c | c in r.positions
      ensures OnGrid(c)
    {
      var n := |s.positions|;
      if c != r.positions[0] {
        assert c in s.positions[..n - 1];
      }
    }
  }

  /**
   * Turning applies the queued direction and nothing else; the queue ends
   * empty, and on a valid snake the new direction never reverses the old one.
   */
  lemma TurnedValid(s: SnakeState)
    requires Valid(s)
    ensures var r := Turned(s);
      && Valid(r)
      && r.nextDirection == None
      && r.direction == (if s.nextDirection.Some? then s.nextDirection.value else s.direction)
      && r.direction != Opposite(s.direction)
      && r.positions == s.positions && r.length == s.length && r.last == s.last
  {
  }

  /** Growing raises the length and the number of segments by exactly one, appending `last`. */
  lemma GrownValid(s: SnakeState)
    requires Valid(s) && s.last.Some?
    ensures var r := Grown(s);
      && Valid(r)
      && r.length == s.length + 1
      && |r.positions| == |s.positions| + 1
      && r.positions[..|s.positions|] == s.positions
      && r.positions[|s.positions|] == s.last.value
  {
    var r := Grown(s);
    assert r.positions[..|s.positions|] == s.positions;
  }

  /**
   * The collision check either puts the snake back to one cell in the middle,
   * heading right with no turn queued, or leaves it exactly as it was.
   */
  lemma CollisionCheckedValid(s: SnakeState)
    requires Valid(s)
    ensures var r := CollisionChecked(s);
      && Valid(r)
      && (HitsItself(s.positions) ==>
            && r.positions == [Center] && r.length == 1
            && r.direction == Right && r.nextDirection == None && r.last == s.last)
      && (!HitsItself(s.positions) ==> r == s)
  {
  }

  class Snake {
    var positions: seq<Cell>
    var length: int
    var direction: Direction
    var nextDirection: Option<Direction>
    var last: Option<Cell>

    /** The value of this snake's fields. */
    function State(): SnakeState
      reads this
    {
      SnakeState(positions, length, direction, nextDirection, last)
    }

    constructor ()
      ensures State() == Initial()
    {
      positions := [Center];
      length := 1;
      direction := Right;
      nextDirection := None;
      last := None;
    }

    method UpdateDirection()
      modifies this
      ensures State() == Turned(old(State()))
    {
      if nextDirection.Some? {
        direction := nextDirection.value;
        nextDirection := None;
      }
    }

    method Move()
      requires |positions| > 0
      modifies this
      ensures State() == Moved(old(State()))
    {
      var head := Advance(positions[0], direction);
      positions := [head] + positions;
      last := Some(positions[|positions| - 1]);
      positions := positions[..|positions| - 1];
    }

    method GetHeadPosition() returns (head: Cell)
      requires |positions| > 0
      ensures head == positions[0]
    {
      head := positions[0];
    }

    method Reset()
      modifies this
      ensures State() == ResetState(old(State()))
    {
      positions := [Center];
      length := 1;
      direction := Right;
      nextDirection := None;
    }
  }

}
