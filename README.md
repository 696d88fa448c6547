# Snake: a verified model of the game state

This project models the game logic of a single-file snake game (`the_snake.py`).
A snake moves on a 640x480 pixel screen divided into 20-pixel cells (a 32x24 grid).
The field wraps around on both axes. The snake grows by one cell when it eats the apple.
The apple is then placed at random on a free cell. The snake is reset when its head runs into its own body.

Modules, one per component of the game:

- `Grid` holds the screen and cell constants and the `Cell` and `Direction` types.
  `Advance` is the wrapping step that `Snake.move` does with `%`.
  Python's `%` by a positive modulus is never negative, and neither is Dafny's, so `-20 % 640` is `620` in both.
- `Food` holds the `Apple` class and its rejection-sampling loop `RandomizePosition`.
  The random source is the parameter `draws`: the cells `randrange` would produce, in order.
  `FirstFree` is the index of the draw the loop accepts.
- `Snakes` holds the `Snake` class, whose fields are the source's `positions`, `length`, `direction`, `next_direction` and `last`.
  The value `SnakeState` holds the same fields.
  The state functions (`Moved`, `Turned`, `Grown`, `CollisionChecked`, `ResetState`) give the meaning of each method.
  The lemmas state what each step preserves under the invariant `Valid`.
  `Valid` says: the body has `length` cells, at least one, all on the grid; the vacated cell `last`, when set, is on the grid; and the queued turn does not reverse the direction.
  `Connected` says that each segment is one step from the next. `Facing` says that the direction does not reverse the step that brought the head to where it is.
  Under these, the head never moves onto its neck (`Snakes.NeverBitesNeck`). This is the purpose of the key filter.
- `Input` models `handle_keys` over a sequence of abstract events (`Quit`, `KeyDown(key)`, anything else).
  `KeyTurn` is the reversal filter for one key. `KeysOutcome` is a whole batch of events.
  `HandleKeys` is the imperative loop, proved equal to `KeysOutcome`.
- `Game` models the body of `main`'s loop.
  `TickSpec` is one tick as a function of the state. `Tick` does the same tick on the `Snake` and `Apple` objects, in the source's order: move, keys, turn, eat and grow, collision check.
  `NewGame` is the set-up before the loop.

`last` is an `Option`: `__init__` never sets it and `reset` leaves it as it is; the first `move` sets it.
`Apple.position` is an `Option` too: the base class sets it to `None` until the first placement.
The comparison `head == apple.position` is then false, as in Python.

Two behaviours one might expect of a snake game are not what the code does. The model follows the code:

- One expects the apple never to lie on the snake once it is placed.
  In the code, `reset` moves the snake to the centre of the screen and does not move the apple.
  An apple lying at the centre is then under the reset snake.
  That apple is not eaten, because the eat check happens only after the next move.
  `Game.ResetCanCoverFood` states this. `Game.ResetCoversFoodExample` shows it happening to a valid, connected five-cell snake (`Game.HookedSnakeWellShaped`).
  The invariant that does hold is `Game.TickKeepsFoodOffSnake`: a tick without a reset keeps an apple that was off the snake off the snake.
- One might expect applying the queued turn to ignore a turn that reverses the snake.
  In the code, `update_direction` applies any queued turn, and only the key filter in `handle_keys` refuses reversals.
  Since the filter never queues a reversing turn, the effect is the same (`Snakes.TurnedValid`, `Game.TickNeverReverses`).

## Model

| member | source | states |
|---|---|---|
| `Grid.Advance` | the_snake.py:104-109 | the new head is inside the screen for any head; from an aligned head it is aligned and differs from the head; each direction moves one cell, and RIGHT from x=620 gives x=0, LEFT from x=0 gives x=620, DOWN from y=460 gives y=0, UP from y=0 gives y=460 |
| `Grid.Vector` | the_snake.py:12-15 | the unit vector of each direction, unpacked by `move` at line 104; no contract of its own: `Grid.Opposite` and `Grid.Advance` state its properties |
| `Grid.Opposite` | the_snake.py:131-138 | the reversed direction differs from the direction and has the negated unit vector (the pairs the key filter refuses: UP/DOWN, LEFT/RIGHT) |
| `Grid.OppositeInvolutive` | the_snake.py:131-138 | reversing twice gives back the direction |
| `Grid.AdvanceThenBack` | the_snake.py:104-109 | a step followed by a step in the opposite direction returns to any aligned starting cell, across the wrap too |
| `Grid.AdvanceDistinct` | the_snake.py:104-109 | from an aligned cell, the four directions lead to four different cells |
| `Food.FirstFree` | the_snake.py:68-73 | the accepted draw is the first one that is not in the snake's cells: it is free, and every earlier draw is occupied |
| `Food.Apple.constructor` | the_snake.py:57-58 | a new apple has no position yet |
| `Food.Apple.RandomizePosition` | the_snake.py:66-73 | the loop draws until a free cell comes up and keeps it; the apple ends on a grid-aligned cell inside the screen and not in the given snake coordinates |
| `Snakes.Initial` | the_snake.py:79-84 | the fields `__init__` sets; no contract of its own: `Snakes.InitialValid` and `Snakes.ResetIsInitial` state its properties |
| `Snakes.InitialValid` | the_snake.py:79-84 | the initial snake (one cell at (320,240), length 1, heading RIGHT, no turn queued) satisfies the invariant, so `len(positions) == length` holds after init; its body is trivially connected |
| `Snakes.NeverBitesNeck` | the_snake.py:104-109 | when the direction does not reverse the step that brought the head next to its neck, the next step never lands on the neck |
| `Snakes.ResetState` | the_snake.py:116-121 | the fields `reset` sets; no contract of its own: `Snakes.ResetIsInitial` and `Snakes.CollisionCheckedValid` state its properties |
| `Snakes.ResetIsInitial` | the_snake.py:116-121 | reset gives the state `__init__` sets, with `last` left as it was; resetting twice equals resetting once; reset keeps the invariant |
| `Snakes.Moved` | the_snake.py:102-110 | the fields after `move`; no contract of its own: `Snakes.MovedShifts` and `Snakes.MovedValid` state its properties |
| `Snakes.MovedShifts` | the_snake.py:102-110 | moving keeps the number of segments, puts the stepped head in front and shifts every other segment one place back; the new body followed by `last` is the new head followed by the old body, so `last` is the old tail |
| `Snakes.MovedValid` | the_snake.py:104-110 | moving keeps the invariant: same length, every segment still on the grid, `last` on the grid |
| `Snakes.Turned` | the_snake.py:86-90 | the fields after `update_direction`; no contract of its own: `Snakes.TurnedValid` states its properties |
| `Snakes.TurnedValid` | the_snake.py:86-90 | a queued turn becomes the direction and the queue is cleared; with nothing queued nothing changes; the new direction never reverses the old one; the invariant holds after |
| `Snakes.Grown` | the_snake.py:155-156 | the fields after eating; no contract of its own: `Snakes.GrownValid` states its properties |
| `Snakes.GrownValid` | the_snake.py:155-156 | eating raises both `length` and the number of segments by exactly one, the old segments unchanged and `last` appended; the invariant holds after |
| `Snakes.HitsItself` | the_snake.py:158-159 | the test `head in positions` after popping the head; no contract of its own: `Game.TickCollision`, `Game.OneCellNeverCollides` and `Game.TwoCellsNeverCollide` state when it holds and what follows |
| `Snakes.CollisionChecked` | the_snake.py:158-162 | the fields after the collision check; no contract of its own: `Snakes.CollisionCheckedValid` states its properties |
| `Snakes.CollisionCheckedValid` | the_snake.py:158-162 | if the head is in the rest of the body the snake becomes one cell at (320,240), length 1, heading RIGHT, no turn queued, `last` kept; otherwise it is exactly as it was; either way the invariant holds |
| `Snakes.Snake.constructor` | the_snake.py:79-84 | a new snake has the initial fields |
| `Snakes.Snake.UpdateDirection` | the_snake.py:86-90 | the fields become `Turned` of the old fields |
| `Snakes.Snake.Move` | the_snake.py:102-110 | the fields become `Moved` of the old fields: insert the new head at index 0, pop the tail into `last` |
| `Snakes.Snake.GetHeadPosition` | the_snake.py:112-114 | returns the cell at index 0 of the body |
| `Snakes.Snake.Reset` | the_snake.py:116-121 | the fields become `ResetState` of the old fields |
| `Input.Pressed` | the_snake.py:131-138 | the direction each arrow key asks for; no contract of its own: `Input.KeyTurn` states the filter in its terms |
| `Input.KeyTurn` | the_snake.py:130-138 | an arrow key that does not reverse the current direction queues its direction; a reversing press or another key leaves the queued turn untouched |
| `Input.KeysOutcome` | the_snake.py:124-138 | after any batch of events the queued turn is the one before or one that does not reverse the direction; the quit flag is set exactly when the batch contains a quit event |
| `Input.NoArrowKeepsTurn` | the_snake.py:130-138 | a batch without arrow keys leaves the queued turn as it was |
| `Input.LastPressWins` | the_snake.py:126-138 | in a batch without quit, a last non-reversing arrow key decides the queued turn whatever came before it |
| `Input.HandleKeys` | the_snake.py:124-138 | the loop over events gives the queued turn and quit flag of `KeysOutcome`, stopping at the first quit event; no other field of the snake changes |
| `Game.Eats` | the_snake.py:154 | the head after the move is on the apple; no contract of its own: `Game.TickEats` and `Game.TickStarves` state what each case does |
| `Game.BodyBeforeCheck` | the_snake.py:149-157 | the body the collision check sees, written directly from the old state; no contract of its own: `Game.TickCollision`, `Game.TickEats` and `Game.TickStarves` tie the tick to it |
| `Game.TickSpec` | the_snake.py:149-162 | one loop iteration as a function of the state; no contract of its own: `Game.TickQuits`, `Game.TickCollision`, `Game.TickEats`, `Game.TickStarves`, `Game.TickNeverReverses`, `Game.TickKeepsValid`, `Game.TickKeepsConnected`, `Game.TickKeepsFacing` and `Game.TickKeepsFoodOffSnake` state its properties, and `Game.Tick` is proved equal to it |
| `Game.TickQuits` | the_snake.py:126-129 | a quit event ends the tick after the moved snake's keys: the snake has moved, the apple is unchanged |
| `Game.TickCollision` | the_snake.py:158-162 | if the new head is in the rest of the body the snake becomes `[(320,240)]`, length 1, RIGHT, no turn queued; otherwise its body is exactly the body before the check; `last` is the old tail |
| `Game.TickEats` | the_snake.py:154-157 | eating: the checked body is the new head followed by the whole old body, one longer than before; without a reset `length` and the number of segments both rise by one; the new apple is the first free draw, on the grid and off the grown body |
| `Game.TickStarves` | the_snake.py:149-162 | without eating the body keeps its length; without a reset its body is exactly the moved body and its length is unchanged; the apple does not move |
| `Game.TickNeverReverses` | the_snake.py:149-151 | after a tick without reset the direction is the queued turn, if one was accepted, never the reverse of the direction before, and nothing is left queued |
| `Game.TickKeepsValid` | the_snake.py:147-162 | every tick (including one ended by quit) keeps the invariant, in particular `len(positions) == length` and every segment on the grid, and keeps the apple on the grid |
| `Game.OneCellNeverCollides` | the_snake.py:158-159 | a one-cell snake never runs into itself, whether it eats or not |
| `Game.TwoCellsNeverCollideWithoutFood` | the_snake.py:158-159 | a two-cell snake that does not eat never runs into itself |
| `Game.StepConnected` | the_snake.py:105-110 | putting the stepped head in front of a connected body, with or without its tail, keeps every segment one step from the next |
| `Game.TickKeepsConnected` | the_snake.py:147-162 | every tick, ended by quit, reset or neither, keeps every segment of the body one step from the next |
| `Game.TickKeepsFacing` | the_snake.py:147-162 | after every tick the direction does not reverse the step that brought the head next to its neck, which is what the key filter protects |
| `Game.TwoCellsNeverCollide` | the_snake.py:154-159 | a two-cell snake shaped that way never runs into itself, even when it eats and grows to three cells |
| `Game.TickKeepsFoodOffSnake` | the_snake.py:154-162 | if the apple is off the snake and the tick does not reset it, the apple is off the snake afterwards |
| `Game.ResetCanCoverFood` | the_snake.py:159-160 | a reset leaves the apple where it is, so an apple at the centre ends up under the reset snake |
| `Game.HookedSnakeWellShaped` | the_snake.py:149-151 | the five-cell example snake, just turned down from heading right, is valid, connected and facing away from its neck |
| `Game.ResetCoversFoodExample` | the_snake.py:159-160 | with the apple at the centre and no key pressed, the example snake runs into itself and is reset onto the apple |
| `Game.Tick` | the_snake.py:149-162 | one loop iteration on the objects gives the snake, apple and quit flag of `TickSpec` |
| `Game.NewGame` | the_snake.py:143-146 | the game starts with the initial snake and an apple on a grid cell other than the centre |

## Left out

- Rendering: `Apple.draw`, `Snake.draw` (and its use of `last` to clear the vacated cell), `pg.Rect`, `pg.draw`, `pg.display.update`, and the colour constants. These are calls into the display library.
- Window set-up, the caption, the clock and `clock.tick(SPEED)`. These are timing and display I/O.
- `pg.init()` and `pg.quit()`. A quit event is modelled only as the `quit` flag that stops the tick; raising `SystemExit` ends the process.
- Event polling: `pg.event.get()` is replaced by the `events` parameter. Event types other than quit and key-down, and keys other than the arrows, are the `OtherEvent` and `OtherKey` cases.
- Randomness: `randrange` is replaced by the parameter `draws`. The model requires that every draw is on the grid and that some draw is free.
- `Food.Apple.RandomizePosition`: the source loops forever when the snake covers all 768 cells. The model requires a free draw, so it does not capture that case. Termination of the random loop is not modelled.
- The `GameObject` base class, its `draw` stub, the `position` attribute of `Snake`, which nothing reads, and the `body_color` attributes, which only the drawing code reads. They carry no logic.
- The endless `while True` of `main`. One iteration is `Game.Tick`.
- `Game.Tick` and `TickSpec` require a non-empty body. The source never empties it: the invariant `Valid` keeps at least one cell.
