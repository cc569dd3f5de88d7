# Snake game engine — a Dafny model

This project models the engine of a snake game compiled to WebAssembly
(`src/lib.rs`). The game is played on a `width × width` board whose edges wrap
around. Cells are numbered row-major, `idx == row * width + col`. The snake
is a sequence of cells, head first, plus a direction. Each frame the host
calls `update`, and this happens in order:

1. the head moves one cell;
2. every segment takes the place of the one before it;
3. a head that lands on a trailing segment loses;
4. a head that lands on the reward grows the snake and places a new reward on
   a free cell, or wins when the snake already fills the board.

Keyboard input reaches the engine through `change_snake_direction`, which
refuses a turn that would lead the head straight onto its neck.

Modules, one per part of the engine:

- `Grid` (`grid.dfy`): directions, row and column of a cell, and `NextCell`,
  the wrap-around neighbour. `NextCell` is proved against `TorusStep`, a
  reference definition that works in (row, column) coordinates. The same
  module holds `NextCellAsWritten`, the neighbour exactly as the code computes
  it (see Findings).
- `SnakeBody` (`snake.dfy`): the `Snake` record and the spawning loop. It also
  has the body shift: `Advance` as a function, and `ShiftBody` as the code's
  in-place loop, proved equal to `Advance`.
- `Reward` (`reward.dfy`): the retry loop that places the reward. The host's
  random source is given as `draws`, the values it returns in order. The loop
  is written both as a function (`PickReward`) and as the loop itself
  (`GenRewardCell`). The module also proves the pigeonhole fact that a snake
  shorter than the board leaves a free cell.
- `Game` (`game.dfy`): the `World` record, construction, start, the status
  text, the queries, the direction change and the per-tick `Update`.
- `GameLaws` (`game_laws.dfy`): invariants over whole games. Construction
  establishes them, and every turn and tick preserves them.
- `Wrappers` (`wrappers.dfy`): `Option`.

`Valid(w)` is the invariant every world of a game satisfies:

- `width > 0`;
- `size == width * width`;
- the snake has between 2 and `size` cells;
- every cell the world mentions is on the board.

`New` establishes it and `Update`, `ChangeDirection` and `StartGame` keep it.
The operations require it, because the code divides by `width` and indexes
`body[1]`.

The model departs from the code in one place only. Moving Down from the
bottom row underflows in the code instead of wrapping (see Findings). The
model's `NextCell` uses the corrected wrap to the top row, same column, and
the tick and the turn guard are built on it.

Some of the code's behaviour is easy to misread. The model follows the code
in each of these cases:

- Growth appends a copy of `body[1]` (src/lib.rs:103). So right after eating,
  the body holds `body[1]` twice. `GameLaws.UpdateKeepsBodyDistinct` states
  the resulting invariant: apart from the tail, no cell repeats while the
  game is in progress.
- There is no early return after a collision (src/lib.rs:97-100). The reward
  check still runs, and on a full board `Win` overwrites `Lose`.
  `GameLaws.EatingNeverCollides` shows that this cannot happen while the
  reward is off the snake.
- `change_snake_direction` and `update` index `body[1]` (src/lib.rs:75, 103),
  so a one-cell snake would panic. `Valid` therefore requires at least two
  cells.
- `update` does not check the status. Ticking a finished game moves the snake
  again, and the model does the same.
- `change_snake_direction` does not check the status either, so the host can
  turn the snake before the game starts. `GameLaws.PlayKeepsInvariant` covers
  turns both before and after `start_game`.

## Model

| member | source | states |
|---|---|---|
| Grid.NextCell | src/lib.rs:111-149 | The neighbour of a board cell in any direction is again a cell of the board (below `width * width`), with no underflow; the bottom-row Down wrap is the corrected one, landing on `col` (see Findings). |
| Grid.Decompose | src/lib.rs:112-114 | The row `idx / width` and column `idx % width` of a board cell are both below `width`, and `row * width + col` rebuilds the cell. |
| Grid.NextCellIsTorusStep | src/lib.rs:115-148 | The four border tests and their wraps amount to the torus step. Up/Down move the row by one modulo `width` and keep the column; Left/Right move the column and keep the row. |
| Grid.CoordinatesOfNextCell | src/lib.rs:112-148 | The row and column of the neighbour are exactly the torus step of the cell's row and column. |
| Grid.NextCellKeepsLine | src/lib.rs:116-147 | Up and Down keep the column and Left and Right keep the row, including on the wrapping steps. |
| Grid.NextCellOffBorder | src/lib.rs:116-146 | Away from the relevant border, Up is `idx - width`, Down is `idx + width`, Left is `idx - 1` and Right is `idx + 1`. |
| Grid.NextCellRoundTrip | src/lib.rs:116-147 | Up then Down, Down then Up, Left then Right and Right then Left each return to the starting cell, wraps included. |
| Grid.TwoStepsDoNotReturn | src/lib.rs:111-149 | On a board at least three wide, two steps in the same direction never return to the start. |
| Grid.UpWrapOnEightWideBoard | src/lib.rs:116-122 | On an 8-wide board, Up from cell 4 wraps to 60; Up from 60 is 52 and Right from 60 is 61. |
| Grid.DownWrapUnderflows | src/lib.rs:124-128 | On the bottom row, the code's Down wrap evaluates to `col - width`, which is below zero for every column. |
| Grid.DownWrapUnderflowsOnEightWideBoard | src/lib.rs:124-128 | On an 8-wide board, Down from cell 60 evaluates to -4 as written; the corrected neighbour is 4. |
| Grid.AsWrittenAgreesOffTheDownWrap | src/lib.rs:115-148 | The code's expressions agree with `NextCell` on every branch except the bottom-row Down wrap, where they fall short by exactly `width`. |
| SnakeBody.SpawnBody | src/lib.rs:202-206 | The spawning loop pushes `len` cells, and cell `i` is `spawn - i`. It needs `len - 1 <= spawn` so that no subtraction underflows. |
| SnakeBody.NewSnake | src/lib.rs:201-211 | A new snake heads Down. Its head is `spawn`, each cell is one below the one before it, and no cell repeats. |
| SnakeBody.NewSnakeOfThree | src/lib.rs:37 | The game's snake is `[spawn, spawn - 1, spawn - 2]` heading Down, given `spawn >= 2`. |
| SnakeBody.Advance | src/lib.rs:85-95 | The shifted body keeps its length and has the new head at 0. Cell `i >= 1` is the old cell `i - 1`. As a multiset it gains the head and loses the old tail. |
| SnakeBody.ShiftBody | src/lib.rs:81-95 | Overwriting slot 0 and then copying slot `i` from a snapshot's slot `i - 1` gives exactly `Advance`. |
| Reward.FirstFreeIndex | src/lib.rs:151-159 | When some draw misses the body, the loop stops at the first draw not in the body, and every earlier draw was in the body. |
| Reward.PickReward | src/lib.rs:151-159 | The reward is a board cell not occupied by the body, and it is the first draw that misses the body. |
| Reward.GenRewardCell | src/lib.rs:151-159 | The retry loop returns a board cell outside the body, the same one `PickReward` names. |
| Reward.FreeCellExists | src/lib.rs:101-102 | A body with fewer cells than the board misses some board cell (pigeonhole), so the growth branch can place a reward. |
| Reward.CoverGivesFreeDraw | src/lib.rs:151-159 | If the random source eventually draws every cell and the body is shorter than the board, the retry loop terminates. |
| Game.New | src/lib.rs:35-46 | A new world is valid and `size == width * width`. The snake is `[spawn, spawn - 1, spawn - 2]` heading Down. The reward is off the snake, and there is no pending cell and no status. |
| Game.StartGame | src/lib.rs:48-50 | Starting sets the status to Played and changes nothing else. |
| Game.StatusInfo | src/lib.rs:56-63 | The text is "None!", "You're Playing!", "You Win!" or "You Lose!" exactly when the status is None, Played, Win or Lose, so the text determines the status. |
| Game.SnakeHeadIdx | src/lib.rs:69-71 | The head index is a cell of the snake and, in a valid world, a cell of the board. |
| Game.SnakeLen | src/lib.rs:169-171 | The length is the body length, between 2 and the board size in a valid world. |
| Game.ChangeDirection | src/lib.rs:73-78 | A turn whose next cell is the neck `body[1]` leaves the world unchanged; any other turn takes effect. Only the direction ever changes, and a changed direction never faces the neck. |
| Game.TickHead | src/lib.rs:83-91 | The new head is the pending cell when there is one, otherwise the neighbour in the current direction, and always a board cell. |
| Game.Update | src/lib.rs:80-109 | See the list below this table. |
| GameLaws.CoveringDrawsSuffice | src/lib.rs:100-102 | A random source that eventually draws every cell always gives a tick the free draw its growth branch needs. |
| GameLaws.EatingNeverCollides | src/lib.rs:97-100 | While the reward is off the snake, a head that lands on the reward does not collide, so Win never overwrites Lose. |
| GameLaws.UpdateKeepsRewardFree | src/lib.rs:100-103 | A tick keeps the reward off the snake. |
| GameLaws.UpdateKeepsBodyDistinct | src/lib.rs:92-103 | In a game in progress, a tick loses exactly when the head hits the body. Otherwise the moved body has no repeated cell, and only the growth copy may repeat one. |
| GameLaws.NewIsNeckSafe | src/lib.rs:35-46 | A new snake heading Down does not face its neck. |
| GameLaws.UpdateKeepsNeckSafe | src/lib.rs:80-95 | On a board at least three wide, with no pending cell, the snake after a tick does not face its neck. |
| GameLaws.Step | src/lib.rs:73-109 | A turn or a tick with a covering random source keeps the world valid and never shortens the snake. |
| GameLaws.Run | src/lib.rs:73-109 | Any sequence of turns and ticks keeps the world valid, keeps the board, and never shortens the snake. |
| GameLaws.NewGameInvariant | src/lib.rs:35-50 | A new game on a board at least three wide satisfies the game invariant, before and after it is started. |
| GameLaws.StepKeepsInvariant | src/lib.rs:73-109 | One turn or tick keeps the game invariant. |
| GameLaws.RunKeepsInvariant | src/lib.rs:73-109 | Any sequence of turns and ticks keeps the game invariant. |
| GameLaws.TurnsChangeOnlyDirection | src/lib.rs:73-78 | Any number of turns, with no tick between them, leaves the body, the reward, the pending cell and the status as they were; only the direction can change. |
| GameLaws.PlayKeepsInvariant | src/lib.rs:35-109 | A game built, turned any number of times before it starts, started, and then driven by any turns and ticks always satisfies the invariant and keeps at least three cells. |
| GameLaws.TickFromCellTwenty | src/lib.rs:80-108 | From snake `[20, 19, 18]` heading Down on an 8-wide board, with no pending cell and the reward not on 28, a tick gives body `[28, 20, 19]` and the status stays Played. |
| GameLaws.FirstTickOnEightWideBoard | src/lib.rs:80-95 | On an 8-wide board with spawn 20 and the reward elsewhere, the first tick gives body `[28, 20, 19]` and the status stays Played. |
| GameLaws.GrowFromCellTwenty | src/lib.rs:80-108 | From snake `[20, 19, 18]` heading Down on an 8-wide board with the reward on 28 and draws `[20, 7]`, a tick grows the body to `[28, 20, 19, 20]`, rejects the occupied draw 20, moves the reward to 7, and keeps Played. |

`Game.Update` states the following, for the tick from `w`:

- The board and the direction stay the same, and the pending cell is cleared.
- The new head is the pending cell if there was one, otherwise the next cell
  in the current direction.
- For `1 <= i < old length`, `body[i]` is the old `body[i - 1]`.
- Unless the snake eats on a full board, the status becomes `Lose` exactly
  when the head lands on a trailing segment or the game was already lost.
  Otherwise the status stays as it was.
- Without eating, the length and the reward stay the same.
- Eating when the board is not full adds exactly one cell, a copy of
  `body[1]` (the old head). The new reward is off the new body and is the
  first draw that misses the moved body.
- Eating when the board is full sets the reward to `None` and the status to
  `Win`, with the length equal to `width * width`.

The game invariant (`GameLaws.GameInvariant`) is the conjunction of:

- `Valid`;
- a width of at least three;
- the reward off the snake;
- the snake not facing its neck;
- no pending cell;
- while the game is in progress, no repeated cell apart from the tail.

## Left out

- The WebAssembly bindings, the `alert`/`hello` binding and the global allocator (src/lib.rs:1-21) are foreign glue with no game logic.
- The host's `random` (src/lib.rs:7-10) is modelled as a sequence of draws. Its distribution cannot be modelled. The whole-game lemmas assume each tick's draws eventually cover the board, which is what makes the retry loop terminate.
- `snake_cells` (src/lib.rs:165-167) returns a raw pointer into WebAssembly memory, which is a foreign-interface detail.
- `get_width`, `get_game_status` and `get_reward_cell` (src/lib.rs:52-54, 65-67, 161-163) are plain field reads of `World`.
- www/index.ts (drawing, keyboard wiring, frame pacing, page reload) is the host that drives the engine, not engine logic. It draws the spawn cell from the whole board, including 0 and 1, for which `Snake::new` underflows. That is not covered here.
- Game.New: requires `2 <= spawn < width * width`. Smaller spawns underflow in `Snake::new`, and larger ones are outside the board, which the code does not check.
- Game.Update: requires `Valid(w)` rather than only what each expression needs. Valid is the invariant every world of a game satisfies.
- Game.Update: the head's step uses the corrected `NextCell`. When the head is on the bottom row heading Down, the code's tick underflows (see Findings), whereas the model moves the head to the top row. `Game.TickHead` does the same.
- Game.ChangeDirection: requires `Valid(w)` rather than only a body of two cells and a positive width, for the same reason as `Game.Update`.
- Game.ChangeDirection: the turn guard compares the neck with the corrected `NextCell`. For a bottom-row head and a Down turn, the code's guard underflows instead.
- Machine-word overflow of `width * width` or `idx + width` is not modelled. Integers are unbounded and the board is assumed to fit a machine word.
- Grid.NextCellAsWritten: the release-build wrap-around of the underflowing Down wrap is not followed further. The model stops at showing the value is negative.
- GameLaws.Run: does not include `start_game` among the commands. Restarting a finished game would set Played on a body that may repeat cells, so the invariant lemmas cover a game started once, as the host does.
- GameLaws.UpdateKeepsNeckSafe: needs a board at least three wide. On a 2-wide board, two steps in one direction return to the start, so the snake can face its neck.

## Findings

| source | as written | input that shows it | evidently intended | confidence | as-written member | corrected member |
|---|---|---|---|---|---|---|
| src/lib.rs:124-128 | On the bottom row, Down computes `border - width * (row + 1)`, where `border` is `size - width + col`. This is `col - width`, below zero, so the `usize` subtraction underflows: a panic in a debug build, a huge cell index in a release build. | width 8, head 60 (row 7, col 4), direction Down: `60 - 8 * 8 = -4` | wrap to the same column of the top row, cell `col` (here 4) | high; not executed | Grid.DownWrapUnderflows | Grid.NextCellIsTorusStep |
