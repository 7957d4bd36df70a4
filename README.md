# Snake game state, modelled in Dafny

A model of the game-state core of a small pygame Snake game (`the_snake.py`).
The board is 640 x 480 pixels, split into 20-pixel cells (32 x 24 cells). The
snake moves one cell per tick and wraps round the screen edges. It turns on
arrow keys, but never straight back. It grows by eating an apple, and it is
reset to one cell in the middle when its head runs into its body.

Modules, one per component of the source:

- `Board` (board.dfy): screen and grid constants, the four directions, and the
  wrapped one-cell `Step` of the head.
- `Snakes` (snake.dfy): the snake's fields as a value `SnakeState`, the update
  rules as functions on it, and the `Snake` class. Its methods change the fields
  in place and are proved equal to those functions.
- `Apples` (apple.dfy): the apple sampler. The `while True` loop is the method
  `SampleFree`, and `Placed` is its specification. The `Apple` class holds the
  position.
- `Game` (game.dfy): the key handler `HandleKeys` and its reversal guard, one
  iteration of `main`'s loop (`Tick`, specified by `TickResult`), the invariant
  `GameInv` kept between ticks, and `Run`, a finite prefix of the endless loop.

Inputs that come from outside the game state are parameters. These are the
arrow keys pressed during a tick, the successive `randint` pairs drawn by the
apple sampler, and the direction `choice` picks on a reset.

Points about the code that the model makes explicit:

- The apple is placed only when some cell the sampler can draw is free
  (`SamplerHasRoom`, the corrected board-full guard, see Findings). This
  requirement follows from the other one, that some draw finds a free cell
  (`FreeDrawMeansRoom`). It is kept as a separate clause because it is the
  condition the guard at the_snake.py:70 was meant to test.
- `randint` includes both bounds. Apple cells are therefore x in {0, 20, ..., 440}
  and y in {0, 20, ..., 280} (23 x 15 cells). The restriction to this corner of
  the board is kept as written.
- Each key is checked against the current direction, not against the pending
  one. Several keys in one tick still cannot reverse the snake, because
  `update_direction` empties the pending slot in every tick: it is empty
  whenever keys are handled, and each key is checked against the direction it
  would replace. `SteeringNeverReverses` and `TickTranslates` prove that the
  snake never moves in the reverse of the direction it has when the tick
  begins. A reset picks its direction at random, so the moves just before and
  after a reset can be opposite.
- The apple is off the snake when it is placed. A reset can still put the
  one-cell snake on top of it, because the reset cell (320, 240) lies inside the
  sampler's range. `GameInv` states exactly this exception.

## Model

| member | source | states |
|---|---|---|
| `Board.Direction.Vector` | the_snake.py:20-23 | each of UP, DOWN, LEFT, RIGHT is a unit vector with exactly one nonzero component, -1 or 1 |
| `Board.Step` | the_snake.py:113-114 | the wrap expression `((hx + dx * 20) % 640, (hy + dy * 20) % 480)`; its result always lies on the screen, even when the step leaves it (its meaning on board cells is `StepOnGrid`) |
| `Board.Direction.Opposite` | the_snake.py:150-157 | the reverse direction (the pairs the key guard excludes) has the negated unit vector and differs from the direction |
| `Board.StepOnGrid` | the_snake.py:111-115 | a step from a board cell lands on a board cell, and it is a plain one-cell move except at an edge, where it re-enters at the opposite edge |
| `Board.StepMoves` | the_snake.py:111-115 | every move changes the head cell |
| `Board.StepBack` | the_snake.py:111-115 | a step in the opposite direction undoes a step (the wrap is a bijection) |
| `Snakes.Initial` | the_snake.py:90-97 | a new snake is one cell at (320, 240), moving right, nothing pending, no vacated cell, and satisfies the snake invariant |
| `Snakes.DirectionUpdated` | the_snake.py:99-103 | a pending direction becomes the direction and the pending slot is emptied; with nothing pending the snake is unchanged |
| `Snakes.Moved` | the_snake.py:105-117 | a move keeps the invariant and the cell count; the new head is the wrapped step from the old head; the body is the old body minus its tail; the old tail is recorded as vacated |
| `Snakes.MovedCells` | the_snake.py:111-117 | after a move a cell is occupied iff it is the new head or was occupied by the old snake other than its tail |
| `Snakes.Grown` | the_snake.py:172-174 | eating keeps the invariant, puts the apple cell in front of the moved snake and raises length and cell count by exactly one |
| `Snakes.HitsBody` | the_snake.py:177 | the collision test `positions[0] in positions[2:]` holds iff the head cell occurs again at index 2 or later; for a snake of fewer than three cells it is false (empty slice) |
| `Snakes.ResetTo` | the_snake.py:136-140 | a reset leaves one cell at (320, 240), length 1 and the given direction, and keeps the pending direction and the vacated cell |
| `Snakes.Snake.constructor` | the_snake.py:90-97 | the object's fields are those of `Initial` |
| `Snakes.Snake.UpdateDirection` | the_snake.py:99-103 | the fields change as `DirectionUpdated` says, and the invariant is kept |
| `Snakes.Snake.Move` | the_snake.py:105-117 | the insert-then-pop on the list gives the state of `Moved` and keeps the invariant |
| `Snakes.Snake.HeadPosition` | the_snake.py:132-134 | the head exists under the invariant, is the first cell and lies on the board |
| `Snakes.Snake.Reset` | the_snake.py:136-140 | the fields change as `ResetTo` says, and the invariant holds afterwards |
| `Apples.Candidate` | the_snake.py:73-76 | a cell drawn from `randint` results within their bounds lies in the 23 x 15 sub-grid and on the board |
| `Apples.SubGridDraw` | the_snake.py:73-76 | every sub-grid cell is drawn by exactly one pair of `randint` results |
| `Apples.FirstFreeIndex` | the_snake.py:72-79 | the round at which the sampling loop stops draws a free cell, and every earlier round drew an occupied one |
| `Apples.Placed` | the_snake.py:72-80 | the apple's new cell is not occupied and lies in the sub-grid |
| `Apples.SampleFree` | the_snake.py:72-79 | the sampling loop returns the first drawn cell that is free |
| `Apples.BoardFullGuard` | the_snake.py:70 | the guard as written holds iff the occupied list has 768 entries, the cell count of the whole board |
| `Apples.SamplerHasRoomIff` | the_snake.py:70-79 | the corrected guard holds iff a free sub-grid cell exists, iff some draw lets the loop end |
| `Apples.FreeDrawMeansRoom` | the_snake.py:70-79 | draws that end the loop imply the corrected guard |
| `Apples.GuardMissesFullSubGrid` | the_snake.py:70-79 | a 345-cell snake covering the sub-grid passes the guard as written, yet no sequence of draws ends the loop |
| `Apples.Apple.constructor` | the_snake.py:58-63 | a new apple is placed on the first free drawn cell |
| `Apples.Apple.RandomizePosition` | the_snake.py:65-80 | the apple moves to the first free drawn cell, which is off the occupied list and in the sub-grid |
| `Game.KeyDirection` | the_snake.py:150-157 | the four arrow keys name the four directions and every other key names none |
| `Game.KeyDirectionOneToOne` | the_snake.py:150-157 | no two keys name the same direction, and every direction has a key |
| `Game.Accept` | the_snake.py:150-157 | a key that names no direction leaves the pending direction unchanged; an arrow key changes it only to its own direction, never to the reverse of the current one; an arrow key that is not a reversal is accepted |
| `Game.PendingAfter` | the_snake.py:146-157 | after a tick's keys the pending direction is the old one or the direction of some arrow key among them (other keys never clear it); it is never the reverse of the current direction unless it already was |
| `Game.PendingAfterLastKey` | the_snake.py:146-157 | keys are handled in order: the last key is checked against the same direction and overrides the earlier keys when accepted |
| `Game.HandleKeys` | the_snake.py:144-157 | the loop over the events leaves the pending direction that `PendingAfter` gives |
| `Game.TickResult` | the_snake.py:166-178 | one tick keeps the snake invariant and keeps the apple in the sub-grid, and it always consumes the pending direction |
| `Game.Tick` | the_snake.py:166-178 | the steps of the loop body, in order, produce the state `TickResult` gives, with the invariant kept |
| `Game.NewGame` | the_snake.py:160-164 | the game starts from `Initial` with the apple on the first free drawn cell, satisfying `GameInv` |
| `Game.SteeringNeverReverses` | the_snake.py:144-170 | with no reversal pending, the direction used for the move is never the reverse of the direction at the start of the tick (a reset at the end of the previous tick may have picked any direction, so that move can be opposite to the one before the reset) |
| `Game.TickKeepsGameInv` | the_snake.py:166-178 | every tick keeps `GameInv`: `length == len(positions) >= 1`, all cells on the board, nothing pending, the apple in the sub-grid and off the snake unless the snake was just reset onto it |
| `Game.TickTranslates` | the_snake.py:168-178 | without eating or colliding, a tick keeps length and cell count and moves the snake one wrapped step in a direction that is not the reverse of the one at the start of the tick; the old tail is recorded as vacated |
| `Game.TickEats` | the_snake.py:172-175 | when the head lands on the apple and does not collide, length and cell count grow by one, the new list is the apple cell twice followed by the old list without its tail, and the new apple is off the snake |
| `Game.TickCollides` | the_snake.py:177-178 | a head on `positions[2:]` resets to one cell at (320, 240) with the random direction and nothing pending; the vacated cell from the move stays |
| `Game.Run` | the_snake.py:166-178 | any finite number of ticks keeps the snake invariant and the apple in the sub-grid |
| `Game.RunFromGameInv` | the_snake.py:166-178 | from any state satisfying `GameInv`, every finite run of ticks keeps it |
| `Game.RunKeepsGameInv` | the_snake.py:160-178 | from the start of `main`, every finite prefix of the loop keeps `GameInv` |
| `Game.FirstTickFromCenter` | the_snake.py:160-178 | from a new game with no key: the head goes to (340, 240); with the apple there the snake becomes [(340, 240), (340, 240)] with length 2 |

## Left out

- Drawing is not modelled: `GameObject.draw`, `Apple.draw`, `Snake.draw`, `screen.fill` in `reset` and `pygame.display.update` are pixel output only. The colours and `body_color` belong to it.
- The pygame set-up (`pygame.init`, `set_mode`, `set_caption`) and `clock.tick(SPEED)` are I/O and timing.
- The event queue is not modelled. A tick receives the key-down events it would have read. Events other than key presses have no effect on the state.
- The quit event is not modelled. After `pygame.quit()` the event loop goes on, and the rest of that tick's state update (direction, move, eating, collision) still runs. The program then ends with an uncaught `pygame.error` at the tick's first drawing call (`screen.fill` in `reset` if the snake collides, otherwise `snake.draw`). The model covers the ticks before that as a finite prefix (`Run`) and does not model the termination.
- `randint` and `choice` are not modelled as distributions. The draws and the reset direction are inputs. `RandomizePosition` requires that some draw finds a free cell, which is what it takes for its `while True` loop to end.
- Apples.Apple.RandomizePosition: the board-full branch (`pygame.quit()` when the list holds 768 cells) is not modelled. The model requires the corrected guard `SamplerHasRoom` instead (see Findings).
- `Snake.move` also stores the old head in an attribute `head` that nothing outside `move` reads. The model uses a local variable instead.
- The default arguments `busy_positions=None` and `positions=None` of `Apple`, and their replacement by an empty list, are not modelled. The game always passes `snake.positions`; a caller wanting the default passes `[]`.
- The `position` attribute a `Snake` inherits from `GameObject` is set to the centre once and never read after the constructor. The model does not keep it.
- The endless `while True` loop of `main` is modelled by its finite prefixes (`Run`). The invariants are proved for every such prefix.

## Findings

| source | as written | input that shows it | evidently intended | confidence | as-written member | corrected member |
|---|---|---|---|---|---|---|
| the_snake.py:70-79 | The "board full" guard compares the list length with 768, the cell count of the whole board. The sampling loop only draws from the 345 cells of the top-left 23 x 15 sub-grid. | A snake whose 345 cells cover the sub-grid: the guard does not fire, every draw is occupied, and `while True` never ends. | Stop, or end the game, whenever no cell the sampler can draw is free. | not executed; the loop's exit condition cannot hold for that input | `Apples.GuardMissesFullSubGrid` (with `Apples.BoardFullGuard`) | `Apples.SamplerHasRoom`, characterised by `Apples.SamplerHasRoomIff` and required by `Apples.Apple.RandomizePosition` |
