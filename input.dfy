/**
 * Keyboard handling. The window system's event queue is given as the
 * sequence of events drained in one tick. An arrow key queues a turn unless
 * that turn would reverse the current direction; a quit event ends the game.
 */
module Input {
  import opened Options
  import opened Grid
  import opened Snakes

  datatype Key = UpKey | DownKey | LeftKey | RightKey | OtherKey

  datatype Event = Quit | KeyDown(key: Key) | OtherEvent

  /** The direction an arrow key asks for. */
  function Pressed(key: Key): Option<Direction> {
    match key
    case UpKey => Some(Up)
    case DownKey => Some(Down)
    case LeftKey => Some(Left)
    case RightKey => Some(Right)
    case OtherKey => None
  }

  /** One key press: the queued turn after it, given the current direction. */
  function KeyTurn(direction: Direction, next: Option<Direction>, key: Key): (r: Option<Direction>)
    ensures Pressed(key).Some? && Pressed(key).value != Opposite(direction) ==> r == Pressed(key)
    ensures Pressed(key).None? || Pressed(key).value == Opposite(direction) ==> r == next
  {
    if key == UpKey && direction != Down then Some(Up)
    else if key == DownKey && direction != Up then Some(Down)
    else if key == LeftKey && direction != Right then Some(Left)
    else if key == RightKey && direction != Left then Some(Right)
    else next
  }

  /**
   * A whole batch of events: the queued turn afterwards, and whether a quit
   * event was met. Processing stops at the first quit event. The turn that
   * comes out is the one queued before or one that does not reverse
   * `direction`.
   */
  function KeysOutcome(direction: Direction, next: Option<Direction>, events: seq<Event>)
    : (r: (Option<Direction>, bool))
    ensures r.1 <==> Quit in events
    ensures r.0 == next || (r.0.Some? && r.0.value != Opposite(direction))
    decreases |events|
  {
    if events == [] then (next, false)
    else
      assert events == [events[0]] + events[1..];
      match events[0]
      case Quit => (next, true)
      case KeyDown(key) => KeysOutcome(direction, KeyTurn(direction, next, key), events[1..])
      case OtherEvent => KeysOutcome(direction, next, events[1..])
  }

  /** Without arrow keys the queued turn is left as it was. */
  lemma {:induction false} NoArrowKeepsTurn(direction: Direction, next: Option<Direction>, events: seq<Event>)
    requires forall i | 0 <= i < |events| :: events[i].KeyDown? ==> Pressed(events[i].key).None?
    ensures KeysOutcome(direction, next, events).0 == next
    decreases |events|
  {
    if events != [] && !events[0].Quit? {
      NoArrowKeepsTurn(direction, next, events[1..]);
    }
  }

  /** A batch whose last event is an arrow key that does not reverse the snake queues exactly that turn. */
  lemma {:induction false} LastPressWins(direction: Direction, next: Option<Direction>, events: seq<Event>, key: Key)
    requires Quit !in events
    requires Pressed(key).Some? && Pressed(key).value != Opposite(direction)
    ensures KeysOutcome(direction, next, events + [KeyDown(key)]) == (Pressed(key), false)
    decreases |events|
  {
    if events == [] {
      assert [KeyDown(key)][1..] == [];
    } else {
      assert (events + [KeyDown(key)])[1..] == events[1..] + [KeyDown(key)];
      var next' := if events[0].KeyDown? then KeyTurn(direction, next, events[0].key) else next;
      LastPressWins(direction, next', events[1..], key);
    }
  }

  /**
   * `handle_keys`: the events are taken in order, each arrow key through the
   * reversal filter; on a quit event the loop stops and `quit` is true.
   * Only the queued turn of the snake changes.
   */
  method HandleKeys(snake: Snake, events: seq<Event>) returns (quit: bool)
    modifies snake
    ensures (snake.nextDirection, quit) == KeysOutcome(old(snake.direction), old(snake.nextDirection), events)
    ensures snake.State() == old(snake.State()).(nextDirection := snake.nextDirection)
  {
    quit := false;
    var i := 0;
    while i < |events|
      invariant 0 <= i <= |events|
      invariant snake.State() == old(snake.State()).(nextDirection := snake.nextDirection)
      invariant KeysOutcome(snake.direction, snake.nextDirection, events[i..])
        == KeysOutcome(old(snake.direction), old(snake.nextDirection), events)
    {
      assert events[i..] == [events[i]] + events[i + 1..];
      match events[i] {
        case Quit =>
          quit := true;
          return;
        case KeyDown(key) =>
          if key == UpKey && snake.direction != Down {
            snake.nextDirection := Some(Up);
          } else if key == DownKey && snake.direction != Up {
            snake.nextDirection := Some(Down);
          } else if key == LeftKey && snake.direction != Right {
            snake.nextDirection := Some(Left);
          } else if key == RightKey && snake.direction != Left {
            snake.nextDirection := Some(Right);
          }
        case OtherEvent =>
      }
      i := i + 1;
    }
  }

}
