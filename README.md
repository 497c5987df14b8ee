# Snake game — Dafny model of the game state

A model of the game logic of a minimal Snake game written with pygame
(`game.py`). The snake moves one cell per round on a 900 x 700 pixel board
cut into 25-pixel cells. The board is toroidal: leaving one edge re-enters at
the opposite one. Arrow keys steer the snake, but a key that points exactly
against the current direction is ignored. If the new head lands on the body at
index 2 or later, the snake is reset to one cell at the centre. If the head
lands on the fruit, the target length grows by one and the fruit is redrawn
anywhere on the board.

Files and modules:

- `grid.dfy`, module `Grid`: the constants `WIDTH`, `HEIGHT` and `GRID_SIZE`,
  the four directions as unit vectors, and `Step`, the one-cell move modulo
  the board size.
- `snake.dfy`, module `Snakes`: the snake as a value (`SnakeState`) with its
  invariant `Inv`, the pure transitions `Updated` (one move) and `Fresh`
  (creation and reset), and the class `Snake`. Its fields `positions`,
  `length` and `direction` are reassigned in place by `Update` and `Reset`.
- `fruit.dfy`, module `Fruits`: `FruitCell`, which turns a drawn column and
  row into a pixel cell, and the class `Fruit` with `RandomizePosition`.
- `loop.dfy`, module `Loop`: one iteration of `main`'s loop. Key events are
  applied one at a time (`Steered`, `SteerAll`), then the snake moves, then
  the fruit check runs. `Ticked` gives the round on values, and the method
  `Tick` does it on the objects. `Run` and `Age` cover a sequence of rounds.

Randomness is passed in as arguments. The direction chosen on creation and on
reset is a `Direction` argument. The fruit's `random.randint` draws are a
column `0 <= col < 36` and a row `0 <= row < 28`. Every argument in those
ranges is allowed, so every outcome of game.py is covered.

Three consequences of the code that the model states explicitly:

- Two key events in one round can reverse the snake (Up then Left while
  moving Right): each event is checked against the current direction
  (`Loop.TwoKeysReverse`).
- So the body need not be a simple path: consecutive cells are neighbours
  (`Snakes.Connected`), but cells may repeat (`Loop.BodyMayRepeat`).
- The fruit is drawn over the whole board, snake cells included
  (`Fruits.FruitCellCovers`).

`length` is a `nat`. The program only ever sets it to 1 or adds 1 to it, so
it is never negative. `Snakes.Take` models the slice `positions[:length]` for
such a length.

## Model

| member | source | states |
|---|---|---|
| Grid.Direction.Opposite | game.py:100-107 | the direction each arrow key may not reverse is the negated unit vector, and it differs from the direction itself |
| Grid.Step | game.py:37-42 | the new head, computed as x + dx·25 mod 900 and y + dy·25 mod 700, always lies in [0,900)×[0,700) |
| Grid.ModIsWrap | game.py:40-41 | a non-negative modulus of a value at most one board outside the range is the value shifted back by one board |
| Grid.StepWraps | game.py:39-42 | on the board, a step is the plain one-cell move, except that leaving one edge re-enters at the opposite edge |
| Grid.WrapAtRightEdge | game.py:39-42 | (875, 350) moving Right becomes (0, 350) |
| Grid.StepOnGrid | game.py:39-42 | a step keeps a cell grid-aligned (a multiple of 25) and on the board |
| Grid.StepMoves | game.py:39-42 | a step never leaves the head where it was |
| Grid.StepInverse | game.py:39-42 | stepping in the opposite direction undoes a step |
| Snakes.Take | game.py:49 | the slice [:n] has min(n, size) cells and is a prefix of the list |
| Snakes.Fresh | game.py:27-30 | the new or reset snake satisfies the invariant: one cell at (450, 350), target length 1, the given direction |
| Snakes.Bites | game.py:45 | a self-collision happens exactly when the new head equals some body cell at index 2 or later |
| Snakes.Updated | game.py:36-54 | on a bite: length 1, positions [(450,350)], the reset direction. Otherwise: length and direction kept, size min(old size + 1, length), head the stepped cell, the rest a prefix of the old body. A body of two or fewer cells never bites |
| Snakes.ConnectedPrefix | game.py:49 | cutting a chain of neighbouring cells back to a prefix keeps it a chain |
| Snakes.UpdatedKeepsInv | game.py:36-54 | a move keeps the invariant: non-empty, no longer than length ≥ 1, every cell grid-aligned on the board, consecutive cells neighbours |
| Snakes.Snake.constructor | game.py:27-31 | the new Snake object is valid and equals Fresh of the given direction |
| Snakes.Snake.HeadPosition | game.py:33-34 | the head is the first cell, and on a valid snake it is a grid cell on the board |
| Snakes.Snake.Update | game.py:36-49 | the object's new state is Updated of its old state, and it stays valid |
| Snakes.Snake.Reset | game.py:51-54 | the object becomes Fresh of the given direction, and the fruit is not touched |
| Fruits.FruitCell | game.py:67-71 | a drawn column and row give a grid-aligned cell on the board, and they are recovered from it by dividing by 25 |
| Fruits.FruitCellCovers | game.py:67-71 | every grid cell of the board can be drawn, including cells under the snake |
| Fruits.Fruit.constructor | game.py:62-65 | the new fruit is valid and sits at the cell drawn |
| Fruits.Fruit.RandomizePosition | game.py:67-71 | the fruit moves to the cell of the drawn column and row, which is on the grid |
| Loop.Steered | game.py:99-107 | a key event never sets the exact opposite direction. An arrow key is accepted iff its vector is not the negation of the current one. Any other key leaves the direction unchanged |
| Loop.SteerAllIgnoresOthers | game.py:94-107 | a round with no arrow keys leaves the direction unchanged |
| Loop.SteerAll | game.py:94-107 | the key events of a round, applied in arrival order, leave the direction the round began with or one that an arrow key of the round named |
| Loop.Moved | game.py:94-110 | the move uses the direction left by the round's keys: on a bite the snake is reset (length 1, [(450,350)], the reset direction); otherwise the new head is one step from the old head in that direction and the length is kept |
| Loop.TwoKeysReverse | game.py:94-107 | moving Right, the events Up then Left give Left: a reversal within one round |
| Loop.BodyMayRepeat | game.py:45-49 | with two cells the bite test is skipped: from [(475,350), (450,350)], target length 3, moving Right, the keys Up then Left give the body [(450,350), (475,350), (450,350)], which holds one cell twice |
| Loop.Start | game.py:89-90 | the game as created satisfies the invariant |
| Loop.Ticked | game.py:94-115 | a round steers, then moves. Length grows by exactly 1 iff the new head is on the fruit, and the fruit is then redrawn. Otherwise length and fruit are kept. A bite leaves [(450,350)]; without one the body gains at most one cell |
| Loop.EatRightAfterReset | game.py:110-115 | the fruit check of game.py:113-115 runs after the reset of game.py:45-46 as well: with the fruit at the centre, the reset snake has length 2 and the fruit is redrawn |
| Loop.TickedKeepsInv | game.py:92-115 | a round keeps the snake's invariant and keeps the fruit on the grid |
| Loop.Run | game.py:92-115 | after any sequence of rounds the snake still has a head and a target length of at least 1 |
| Loop.RunSizeBound | game.py:92-115 | the body never has more cells than the rounds since the last reset plus one |
| Loop.RunKeepsInv | game.py:92-115 | the invariant holds after any sequence of rounds |
| Loop.Tick | game.py:92-115 | the objects after one iteration of the loop, with key events processed in order, equal Ticked of their old values |

## Left out

- Rendering: `Snake.render`, `Fruit.render`, `draw_grid`, filling, blitting and display updates (game.py:56-58, 73-80, 117-123). These are graphics output and change no game state. `draw_grid` uses a colour `WHITE` that the file never defines. That is a rendering defect, outside the model, but as written it raises a NameError in the first iteration of `main`, right after the first move and fruit check. `Run` is the loop as it would run with `WHITE` defined.
- Event polling, the QUIT event with `pygame.quit()`/`sys.exit()`, and `clock.tick(FPS)` (game.py:84-97, 124). These are I/O, process exit and timing. A round takes its key events as a finite sequence instead. Events other than key-down and quit do nothing in the loop, so they are the same as `OtherKey`.
- The `random.choice` and `random.randint` calls (game.py:30, 54, 69-70). They become arguments with range preconditions. No distribution is modelled.
- Colours, the caption, `pygame.init` and `SNAKE_SIZE`/`FPS` (game.py:6, 11-17, 86): they only affect display and timing.
- The unbounded `while True` loop of `main`: the model covers one iteration (`Tick`) and any finite sequence of iterations (`Run`).
- Aliasing of the Python list: `insert` mutates the list in place before it is replaced by a slice. No other object holds that list, so the model uses a `seq` field that is reassigned.
- Snakes.Updated: requires a non-empty body. game.py would raise an index error on an empty list, which never happens because the invariant keeps the body non-empty.
