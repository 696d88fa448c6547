/**
 * The game loop. One tick moves the snake, drains the key events, applies
 * the queued turn, lets the snake eat the apple (growing by one and placing
 * a new apple off the body) and finally resets the snake if its head ran
 * into the rest of its body.
 *
 * `TickSpec` gives one tick as a function of the snake's fields, the apple,
 * the events and the random draws; `Tick` is the same tick on the objects,
 * in the order the loop body does it.
 */
module Game {
  import opened Options
  import opened Grid
  import opened Food
  import opened Snakes
  import opened Input

  datatype TickOutcome = TickOutcome(snake: SnakeState, apple: Option<Cell>, quit: bool)

  /** The apple sits on the cell the head moves into. */
  predicate Eats(s: SnakeState, apple: Option<Cell>)
    requires |s.positions| > 0
  {
    apple == Some(Advance(s.positions[0], s.direction))
  }

  /**
   * The body the collision check looks at: the new head in front of the old
   * body, which loses its tail unless the apple was eaten.
   */
  function BodyBeforeCheck(s: SnakeState, apple: Option<Cell>): seq<Cell>
    requires |s.positions| > 0
  {
    var head := Advance(s.positions[0], s.direction);
    if Eats(s, apple) then [head] + s.positions
    else [head] + s.positions[..|s.positions| - 1]
  }

  /** When the apple is eaten (and the game goes on), the random source finds a cell off the grown body. */
  predicate FoodCanBePlaced(s: SnakeState, apple: Option<Cell>, events: seq<Event>, draws: seq<Cell>)
    requires |s.positions| > 0
  {
    Eats(s, apple) && !KeysOutcome(s.direction, s.nextDirection, events).1 ==>
      HasFreeDraw(draws, BodyBeforeCheck(s, apple))
  }

  /** One tick of the loop, step by step. */
  function TickSpec(s: SnakeState, apple: Option<Cell>, events: seq<Event>, draws: seq<Cell>): TickOutcome
    requires |s.positions| > 0
    requires FoodCanBePlaced(s, apple, events, draws)
  {
    var m := Moved(s);
    var (next, quit) := KeysOutcome(m.direction, m.nextDirection, events);
    var k := m.(nextDirection := next);
    if quit then TickOutcome(k, apple, true)
    else
      var t := Turned(k);
      if apple == Some(t.positions[0]) then
        var g := Grown(t);
        MovedShifts(s);
        assert g.positions == BodyBeforeCheck(s, apple);
        TickOutcome(CollisionChecked(g), Some(draws[FirstFree(draws, g.positions)]), false)
      else
        TickOutcome(CollisionChecked(t), apple, false)
  }

  /** A quit event ends the tick after the keys: the snake has moved, the apple has not changed. */
  lemma TickQuits(s: SnakeState, apple: Option<Cell>, events: seq<Event>, draws: seq<Cell>)
    requires |s.positions| > 0
    requires FoodCanBePlaced(s, apple, events, draws)
    requires Quit in events
    ensures var r := TickSpec(s, apple, events, draws);
      && r.quit
      && r.snake == Moved(s).(nextDirection := KeysOutcome(s.direction, s.nextDirection, events).0)
      && r.apple == apple
  {
  }

  /**
   * The collision check: if the new head is in the rest of the body the
   * snake is back to one cell in the middle heading right with no turn
   * queued; otherwise its body is exactly the body it had before the check.
   */
  lemma TickCollision(s: SnakeState, apple: Option<Cell>, events: seq<Event>, draws: seq<Cell>)
    requires |s.positions| > 0
    requires FoodCanBePlaced(s, apple, events, draws)
    requires Quit !in events
    ensures var r := TickSpec(s, apple, events, draws);
      var b := BodyBeforeCheck(s, apple);
      && !r.quit
      && r.snake.last == Some(s.positions[|s.positions| - 1])
      && (HitsItself(b) ==>
            && r.snake.positions == [Center] && r.snake.length == 1
            && r.snake.direction == Right && r.snake.nextDirection == None)
      && (!HitsItself(b) ==> r.snake.positions == b)
  {
    var n := |s.positions|;
    MovedShifts(s);
    if !Eats(s, apple) {
      assert Moved(s).positions == BodyBeforeCheck(s, apple);
    }
  }

  /**
   * Eating grows the snake by exactly one: the body checked is the new head
   * followed by the whole old body (the appended segment is the vacated tail),
   * and the new apple is on the grid and off that body.
   */
  lemma TickEats(s: SnakeState, apple: Option<Cell>, events: seq<Event>, draws: seq<Cell>)
    requires Valid(s)
    requires AllOnGrid(draws)
    requires FoodCanBePlaced(s, apple, events, draws)
    requires Quit !in events && Eats(s, apple)
    ensures var r := TickSpec(s, apple, events, draws);
      var b := BodyBeforeCheck(s, apple);
      && |b| == s.length + 1
      && b[1..] == s.positions
      && (!HitsItself(b) ==> r.snake.length == s.length + 1 && |r.snake.positions| == s.length + 1)
      && r.apple == Some(draws[FirstFree(draws, b)])
      && OnGrid(r.apple.value) && r.apple.value !in b
  {
    var b := BodyBeforeCheck(s, apple);
    assert b[1..] == s.positions;
    MovedShifts(s);
    var m := Moved(s);
    var k := m.(nextDirection := KeysOutcome(m.direction, m.nextDirection, events).0);
    var g := Grown(Turned(k));
    assert g.positions == b;
    assert g.length == s.length + 1;
    assert TickSpec(s, apple, events, draws) == TickOutcome(CollisionChecked(g), Some(draws[FirstFree(draws, b)]), false);
  }

  /** Without eating, the snake keeps its length and the apple stays where it is. */
  lemma TickStarves(s: SnakeState, apple: Option<Cell>, events: seq<Event>, draws: seq<Cell>)
    requires Valid(s)
    requires Quit !in events && !Eats(s, apple)
    ensures FoodCanBePlaced(s, apple, events, draws)
    ensures var r := TickSpec(s, apple, events, draws);
      var b := BodyBeforeCheck(s, apple);
      && |b| == s.length
      && (!HitsItself(b) ==> r.snake.length == s.length && r.snake.positions == b)
      && r.apple == apple
  {
    TickCollision(s, apple, events, draws);
  }

  /**
   * The direction after a tick is the queued turn, if any, and never the
   * reverse of the direction before it, unless the snake was reset;
   * no turn is left queued.
   */
  lemma TickNeverReverses(s: SnakeState, apple: Option<Cell>, events: seq<Event>, draws: seq<Cell>)
    requires Valid(s)
    requires FoodCanBePlaced(s, apple, events, draws)
    requires Quit !in events
    requires !HitsItself(BodyBeforeCheck(s, apple))
    ensures var r := TickSpec(s, apple, events, draws);
      var next := KeysOutcome(s.direction, s.nextDirection, events).0;
      && r.snake.nextDirection == None
      && r.snake.direction == (if next.Some? then next.value else s.direction)
      && r.snake.direction != Opposite(s.direction)
  {
  }

  /** A tick keeps the snake valid and the apple on the grid. */
  lemma TickKeepsValid(s: SnakeState, apple: Option<Cell>, events: seq<Event>, draws: seq<Cell>)
    requires Valid(s)
    requires AllOnGrid(draws)
    requires apple.Some? ==> OnGrid(apple.value)
    requires FoodCanBePlaced(s, apple, events, draws)
    ensures var r := TickSpec(s, apple, events, draws);
      && Valid(r.snake)
      && (r.apple.Some? ==> OnGrid(r.apple.value))
      && (!r.quit ==> r.snake.nextDirection == None)
  {
    var m := Moved(s);
    MovedValid(s);
    var (next, quit) := KeysOutcome(m.direction, m.nextDirection, events);
    var k := m.(nextDirection := next);
    assert Valid(k);
    if !quit {
      var t := Turned(k);
      TurnedValid(k);
      if apple == Some(t.positions[0]) {
        GrownValid(t);
        CollisionCheckedValid(Grown(t));
      } else {
        CollisionCheckedValid(t);
      }
    }
  }

  /** A one-cell snake never runs into itself, whether it eats or not. */
  lemma OneCellNeverCollides(s: SnakeState, apple: Option<Cell>)
    requires Valid(s) && s.length == 1
    ensures !HitsItself(BodyBeforeCheck(s, apple))
  {
    var b := BodyBeforeCheck(s, apple);
    if Eats(s, apple) {
      assert b == [Advance(s.positions[0], s.direction), s.positions[0]];
    } else {
      assert b == [Advance(s.positions[0], s.direction)];
    }
  }

  /** A two-cell snake that does not eat never runs into itself. */
  lemma TwoCellsNeverCollideWithoutFood(s: SnakeState, apple: Option<Cell>)
    requires Valid(s) && s.length == 2 && !Eats(s, apple)
    ensures !HitsItself(BodyBeforeCheck(s, apple))
  {
    var b := BodyBeforeCheck(s, apple);
    assert b == [Advance(s.positions[0], s.direction), s.positions[0]];
  }

  /** If the apple is off the snake and the snake is not reset, the apple is still off the snake after the tick. */
  lemma TickKeepsFoodOffSnake(s: SnakeState, apple: Option<Cell>, events: seq<Event>, draws: seq<Cell>)
    requires Valid(s)
    requires AllOnGrid(draws)
    requires FoodCanBePlaced(s, apple, events, draws)
    requires apple.Some? && apple.value !in s.positions
    requires Quit !in events
    requires !HitsItself(BodyBeforeCheck(s, apple))
    ensures var r := TickSpec(s, apple, events, draws);
      r.apple.Some? && r.apple.value !in r.snake.positions
  {
    TickCollision(s, apple, events, draws);
    if Eats(s, apple) {
      TickEats(s, apple, events, draws);
    } else {
      var b := BodyBeforeCheck(s, apple);
      var n := |s.positions|;
      forall c | c in b[1..]
        ensures c in s.positions
      {
        assert b[1..] == s.positions[..n - 1];
      }
    }
  }

  /** Putting the stepped head in front of a connected body, with or without its tail, gives a connected body. */
  lemma {:induction false} StepConnected(s: SnakeState, keep: nat)
    requires Valid(s) && Connected(s.positions) && keep <= |s.positions|
    ensures Connected([Advance(s.positions[0], s.direction)] + s.positions[..keep])
  {
    var b := [Advance(s.positions[0], s.direction)] + s.positions[..keep];
    assert s.positions[0] in s.positions;
    forall i | 1 <= i < |b|
      ensures Adjacent(b[i - 1], b[i])
    {
      if i == 1 {
        assert b[0] == Advance(b[1], s.direction);
      } else {
        assert b[i - 1] == s.positions[i - 2] && b[i] == s.positions[i - 1];
      }
    }
  }

  /** A tick keeps every segment one step from the next. */
  lemma TickKeepsConnected(s: SnakeState, apple: Option<Cell>, events: seq<Event>, draws: seq<Cell>)
    requires Valid(s) && Connected(s.positions)
    requires FoodCanBePlaced(s, apple, events, draws)
    ensures Connected(TickSpec(s, apple, events, draws).snake.positions)
  {
    var r := TickSpec(s, apple, events, draws);
    var n := |s.positions|;
    if r.quit {
      TickQuits(s, apple, events, draws);
      StepConnected(s, n - 1);
    } else {
      TickCollision(s, apple, events, draws);
      if !HitsItself(BodyBeforeCheck(s, apple)) {
        StepConnected(s, if Eats(s, apple) then n else n - 1);
        assert s.positions[..n] == s.positions;
      }
    }
  }

  /**
   * After a tick the direction does not reverse the step that brought the
   * head to where it is, which is what the key filter protects.
   */
  lemma TickKeepsFacing(s: SnakeState, apple: Option<Cell>, events: seq<Event>, draws: seq<Cell>)
    requires Valid(s)
    requires FoodCanBePlaced(s, apple, events, draws)
    ensures Facing(TickSpec(s, apple, events, draws).snake)
  {
    var r := TickSpec(s, apple, events, draws);
    var n := |s.positions|;
    if r.quit {
      TickQuits(s, apple, events, draws);
      if n >= 2 {
        assert r.snake.positions[0] == Advance(r.snake.positions[1], s.direction);
      }
    } else {
      TickCollision(s, apple, events, draws);
      var b := BodyBeforeCheck(s, apple);
      if !HitsItself(b) {
        TickNeverReverses(s, apple, events, draws);
        if |b| >= 2 {
          assert b[0] == Advance(b[1], s.direction);
        }
      }
    }
  }

  /**
   * A two-cell snake never runs into itself, even when it eats: the new head
   * cannot be the old head, and the filter keeps it off the neck.
   */
  lemma TwoCellsNeverCollide(s: SnakeState, apple: Option<Cell>)
    requires Valid(s) && Facing(s) && s.length == 2
    ensures !HitsItself(BodyBeforeCheck(s, apple))
  {
    var head := Advance(s.positions[0], s.direction);
    assert s.positions[0] in s.positions;
    NeverBitesNeck(s);
    var b := BodyBeforeCheck(s, apple);
    if Eats(s, apple) {
      assert b == [head, s.positions[0], s.positions[1]];
    } else {
      assert b == [head, s.positions[0]];
    }
  }

  /**
   * A reset does not move the apple, so an apple that lies in the middle of
   * the screen ends up under the reset snake's only cell.
   */
  lemma ResetCanCoverFood(s: SnakeState, events: seq<Event>, draws: seq<Cell>)
    requires |s.positions| > 0
    requires Quit !in events && !Eats(s, Some(Center))
    requires HitsItself(BodyBeforeCheck(s, Some(Center)))
    ensures FoodCanBePlaced(s, Some(Center), events, draws)
    ensures var r := TickSpec(s, Some(Center), events, draws);
      r.apple == Some(Center) && Center in r.snake.positions
  {
    TickCollision(s, Some(Center), events, draws);
  }

  /**
   * A five-cell snake that came left along y = 40, went up, then right, and
   * has just turned down; its last move vacated (80, 40).
   */
  function HookedSnake(): SnakeState {
    SnakeState([(40, 20), (20, 20), (20, 40), (40, 40), (60, 40)], 5, Down, None, Some((80, 40)))
  }

  /** The hooked snake is a shape the game produces: valid, connected, and not reversing its last step. */
  lemma HookedSnakeWellShaped()
    ensures Valid(HookedSnake()) && Connected(HookedSnake().positions) && Facing(HookedSnake())
  {
    var p := HookedSnake().positions;
    assert p[0] == Advance(p[1], Right);
    assert p[1] == Advance(p[2], Up);
    assert p[2] == Advance(p[3], Left);
    assert p[3] == Advance(p[4], Left);
    forall i | 1 <= i < |p|
      ensures Adjacent(p[i - 1], p[i])
    {
      if i == 1 {} else if i == 2 {} else if i == 3 {} else {}
    }
  }

  /** With the apple in the middle and no key pressed, the hooked snake runs into itself and is reset onto the apple. */
  lemma ResetCoversFoodExample()
    ensures HitsItself(BodyBeforeCheck(HookedSnake(), Some(Center)))
    ensures TickSpec(HookedSnake(), Some(Center), [], []).snake.positions == [Center]
    ensures TickSpec(HookedSnake(), Some(Center), [], []).apple == Some(Center)
  {
    var s := HookedSnake();
    var b := BodyBeforeCheck(s, Some(Center));
    assert b == [(40, 40), (40, 20), (20, 20), (20, 40), (40, 40)];
    assert b[1..][3] == b[0];
    ResetCanCoverFood(s, [], []);
  }

  /**
   * One iteration of the game loop, on the objects. Returns true when a quit
   * event ended the game during the tick.
   */
  method Tick(snake: Snake, apple: Apple, events: seq<Event>, draws: seq<Cell>) returns (quit: bool)
    requires |snake.positions| > 0
    requires AllOnGrid(draws)
    requires FoodCanBePlaced(snake.State(), apple.position, events, draws)
    modifies snake, apple
    ensures TickOutcome(snake.State(), apple.position, quit)
         == TickSpec(old(snake.State()), old(apple.position), events, draws)
  {
    ghost var s := snake.State();
    snake.Move();
    quit := HandleKeys(snake, events);
    if quit {
      return;
    }
    snake.UpdateDirection();
    var head := snake.GetHeadPosition();
    if Some(head) == apple.position {
      snake.length := snake.length + 1;
      snake.positions := snake.positions + [snake.last.value];
      MovedShifts(s);
      apple.RandomizePosition(snake.positions, draws);
    }
    head := snake.positions[0];
    snake.positions := snake.positions[1..];
    if head in snake.positions {
      snake.Reset();
    } else {
      snake.positions := [head] + snake.positions;
    }
  }

  /** Start of the game: a fresh snake, and an apple placed off it. */
  method NewGame(draws: seq<Cell>) returns (snake: Snake, apple: Apple)
    requires AllOnGrid(draws)
    requires HasFreeDraw(draws, [Center])
    ensures fresh(snake) && fresh(apple)
    ensures snake.State() == Initial()
    ensures apple.position == Some(draws[FirstFree(draws, [Center])])
    ensures apple.position.Some? && OnGrid(apple.position.value) && apple.position.value != Center
  {
    apple := new Apple();
    snake := new Snake();
    apple.RandomizePosition(snake.positions, draws);
  }

}
