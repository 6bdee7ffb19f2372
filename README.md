# rsnake game-state model

This project models the game state of rsnake, a single-player Snake game, in Dafny. The modelled code is the `Game` of `src/game.rs`:
- a snake on a rectangular grid whose outermost ring of cells is the border;
- one piece of food;
- a game-over flag;
- a frame timer.

The window's event loop drives the game in two ways:
- It passes each key press to `key_pressed`.
- It passes the time elapsed since the last frame to `update`.

An arrow key moves the snake at once, except while the game is over or when the key would reverse the snake. When no key comes for `MOVING_PERIOD`, `update` forces a move. A move whose new head would land on the border or on the snake ends the game. A head that reaches the food eats it and the snake grows by one cell. New food is drawn at random until it falls on a free interior cell. `RESTART_TIME` after the game ends, the game restarts in its initial configuration.

The model has three modules and a helper:

- `Snakes` (`snake.dfy`) holds the snake as the game uses it:
  - its body of cells, head first;
  - its heading;
  - the cell it left on its last move.

  It provides only the operations `game.rs` calls: `head_position`, `head_direction`, `next_head`, `move_forward`, `restore_tail`, `overlap_tail`, `Snake::new` and `Direction::opposite`.
- `GameRules` (`game_rules.dfy`) has the game state as one value, `GameState`, and one function per operation of `Game`. It also holds the game's invariant `Inv`:
  - the snake is well formed: it has at least two segments, no two segments share a cell, and the head lies one step along the heading from the second segment;
  - food that exists never lies on the snake.

  The lemmas prove the properties of each operation and that every operation keeps `Inv`.
- `Games` (`game.dfy`) has the class `Game`. Its fields are the fields of the Rust struct, and its methods change them in place as the source does. The `add_food` retry loop is one of them. Each method is proved to leave `State()` equal to the matching rule function of `GameRules` applied to the old state. `KeyPressed`, `Update`, `AddFood` and `UpdateSnake` also keep `Valid()`, that is, `Inv(State())`, and the constructor and `Restart` establish it. `CheckEating` runs between a move and the eating, when the food may lie under the new head, so it is proved only to perform `Eaten`. `UpdateSnake` proves that the invariant holds again after it.
- `Options` (`options.dfy`) is Rust's `Option`.

The fields of the struct `Game` (`src/game.rs:19-28`) are the fields of `GameRules.GameState` and of the class `Games.Game`. The constants `MOVING_PERIOD` and `RESTART_TIME` (`src/game.rs:16-17`) are `GameRules.MovingPeriod` (100 ms) and `GameRules.RestartTime` (1000 ms).

## Model

| member | source | states |
|---|---|---|
| `Snakes.Direction.Opposite` | src/game.rs:73 | The opposite of a heading is always a different heading. |
| `Snakes.Step` | src/game.rs:132 | One step in any direction reaches a cell that shares an edge with the start. |
| `Snakes.Snake.NextHead` | src/game.rs:132 | The prospective head is adjacent to the current head. With no turn requested, a well-formed snake continues in a straight line. |
| `Snakes.Snake.MoveForward` | src/game.rs:164 | A move puts `NextHead(dir)` at the front and keeps the length. The remaining segments are the old body minus its last cell, and that cell is remembered as `tail`. The heading becomes the requested one. |
| `Snakes.Snake.RestoreTail` | src/game.rs:125 | Appends the remembered tail cell, so the body grows by exactly one and the heading is unchanged. |
| `Snakes.NewSnake` | src/game.rs:47 | The starting snake is well formed: three segments, head at the given origin, heading right, no remembered tail. |
| `Snakes.StepOpposite` | src/game.rs:73 | A step followed by a step in the opposite direction returns to the start. |
| `Snakes.ReversalHitsNeck` | src/game.rs:73-75 | For a well-formed snake of two or more segments, reversing puts the next head on its own second segment. |
| `Snakes.MoveForwardWellFormed` | src/game.rs:163-164 | A move into a free cell keeps the snake well formed. Afterwards the remembered tail cell is no longer on the body. |
| `Snakes.GrowthKeepsOldBody` | src/game.rs:121-127 | A move followed by `RestoreTail` gives the old body with the new head in front. |
| `Snakes.GrowthWellFormed` | src/game.rs:121-127 | Growing into a free cell keeps the snake well formed. |
| `Snakes.Snake.HeadPosition` | src/game.rs:122 | The head is the body's front segment. |
| `Snakes.Snake.HeadDirection` | src/game.rs:73 | The heading. For a well-formed snake it points from the second segment to the head. |
| `Snakes.Snake.OverlapTail` | src/game.rs:134 | True exactly when some body segment, at any position, is the cell (x, y). |
| `GameRules.KeyDirection` | src/game.rs:65-71 | A key maps to no direction exactly when it is not one of the four arrows. |
| `GameRules.InitialState` | src/game.rs:33-56 | A new game satisfies the invariant. It is playing, its timer is 0 and food exists. |
| `GameRules.SnakeAlive` | src/game.rs:131-140 | The snake survives exactly when its next head is strictly inside the border ring (`0 < x < width-1`, `0 < y < height-1`) and not on its body. |
| `GameRules.Eaten` | src/game.rs:121-127 | `check_eating` never touches the game-over flag, the timer, the food position or the board. The old body stays as a prefix of the new one. Its full effect is stated by `EatingGrowsByOne`. |
| `GameRules.Ticked` | src/game.rs:162-170 | After `update_snake` the game is over exactly when it was already over or the snake would not survive the move. The board is unchanged. `TickResetsTimer`, `CollisionEndsGame`, `SafeMoveAdvances` and `TickedKeepsInv` state the rest. |
| `GameRules.Restarted` | src/game.rs:174-181 | After `restart` the invariant holds, the game is playing, the timer is 0 and the board is the same. `RestartIsNewGame` gives the whole state. |
| `GameRules.AfterKey` | src/game.rs:60-78 | `key_pressed` panics exactly when the game is playing and the key is not an arrow. It never changes the board. `KeyIgnoredWhileOver`, `ReversalIgnored`, `NonArrowKeyPanics`, `TurnTicks` and `AfterKeyKeepsInv` state the rest. |
| `GameRules.AfterUpdate` | src/game.rs:100-117 | After `update` the timer has either been reset to 0 or grown by exactly the frame time. The board is unchanged. `UpdateWhileOver`, `UpdateWhilePlaying` and `AfterUpdateKeepsInv` state the rest. |
| `GameRules.FirstFree` | src/game.rs:147-153 | The retry loop stops at a draw that is free of the snake, and every earlier draw was on the snake. |
| `GameRules.Fed` | src/game.rs:144-158 | After `add_food`, food exists on an interior cell that is not on the snake. Nothing else changes. |
| `GameRules.RestartIsNewGame` | src/game.rs:174-181 | Restart puts back exactly the state `new` builds on the same board, and that state satisfies the invariant. |
| `GameRules.TickedKeepsInv` | src/game.rs:162-170 | A tick keeps the invariant, including that food is never on the snake. |
| `GameRules.FedKeepsInv` | src/game.rs:144-158 | Placing food keeps the invariant. |
| `GameRules.AfterKeyKeepsInv` | src/game.rs:60-78 | A key press that does not panic keeps the invariant. |
| `GameRules.AfterUpdateKeepsInv` | src/game.rs:100-117 | A frame update keeps the invariant. |
| `GameRules.KeyIgnoredWhileOver` | src/game.rs:60-63 | While the game is over, any key leaves the whole state unchanged. |
| `GameRules.ReversalIgnored` | src/game.rs:73-75 | A key asking for the opposite of the current heading leaves the whole state unchanged: no move and no timer reset. |
| `GameRules.NonArrowKeyPanics` | src/game.rs:65-73 | During play, a key that is not an arrow reaches `dir.unwrap()` on `None`, which panics. |
| `GameRules.TurnTicks` | src/game.rs:73-77 | Any other arrow key ticks the snake at once in that direction and resets the timer. |
| `GameRules.ReversalWouldEndGame` | src/game.rs:73-75 | For a game in its invariant, a reversal that was not dropped would end the game. This is what the rejection prevents. |
| `GameRules.TickResetsTimer` | src/game.rs:162-170 | Every tick leaves `waiting_time` at 0, whether the snake survives or dies, and the board size is unchanged. |
| `GameRules.CollisionEndsGame` | src/game.rs:131-140 | A next head on or outside the border ring, or on the body, sets `game_over`. The snake, heading and food are unchanged and the timer is 0. |
| `GameRules.SafeMoveAdvances` | src/game.rs:162-170 | A next head strictly inside and free becomes the head, and `game_over` keeps its value. If the food was there, the food is gone and the body is the old body with the new head in front. Otherwise the body slithers and the food is untouched. The timer is 0. |
| `GameRules.EatingGrowsByOne` | src/game.rs:121-127 | Food under the head is used up and the body grows by exactly the remembered tail cell. Otherwise `check_eating` changes nothing. |
| `GameRules.FedTakesFirstFreeDraw` | src/game.rs:147-157 | The food lands on a drawn cell, and every draw before it was on the snake. |
| `GameRules.RoomForFood` | src/game.rs:150-153 | While the snake is shorter than the number of interior cells, a free interior cell exists. So the retry loop has a cell to find. |
| `GameRules.UpdateWhileOver` | src/game.rs:100-108 | While the game is over, `update` only adds time. It restarts, giving the new-game state, exactly when the accumulated time exceeds `RESTART_TIME`. |
| `GameRules.UpdateWhilePlaying` | src/game.rs:110-116 | During play, `update` first places food if there is none. It forces a tick with no turn exactly when the accumulated time exceeds `MOVING_PERIOD`. Otherwise the snake stays put and the time accumulates. |
| `GameRules.FirstForcedTick` | src/game.rs:100-117 | Worked example on a new 10 x 10 game with a 150 ms frame: the head moves from (2, 2) to (3, 2), the length stays 3 and the timer is reset. |
| `GameRules.RestartAfterDelay` | src/game.rs:103-107 | Worked example: a game that has just ended is still over after 500 ms, and after another 600 ms it is a new game. |
| `Games.Game.constructor` | src/game.rs:33-56 | Builds the initial state, which satisfies the invariant. |
| `Games.Game.KeyPressed` | src/game.rs:60-78 | Performs `AfterKey` in place and keeps the invariant. It reports the panic on a non-arrow key during play, and in that case nothing changes. |
| `Games.Game.Update` | src/game.rs:100-117 | Performs `AfterUpdate` in place and keeps the invariant. |
| `Games.Game.CheckEating` | src/game.rs:121-127 | Performs `Eaten` in place. |
| `Games.Game.AddFood` | src/game.rs:144-158 | Its retry loop places the food on the first free drawn cell, which is what `Fed` gives. It keeps the invariant. |
| `Games.Game.UpdateSnake` | src/game.rs:162-170 | Performs `Ticked` in place and keeps the invariant. |
| `Games.Game.Restart` | src/game.rs:174-181 | Performs `Restarted` in place, which is the new-game state, so the invariant holds afterwards. |

Two behaviours of `src/game.rs` a reader may not expect:
- A key other than an arrow, pressed during play, panics at `dir.unwrap()`. It is not ignored. The model reports this as an explicit outcome: `AfterKey` gives `None` and `Game.KeyPressed` returns `panicked`.
- There is no score, score file or configuration file. The timing constants are fixed.

## Left out

- `Game::draw` (`src/game.rs:82-96`) and all of `src/draw.rs` are rendering only and are not modelled.
- The window and event loop in `src/main.rs` are not modelled. They only forward key presses and frame times to `key_pressed` and `update`.
- Random numbers are not modelled. The `thread_rng` draws of `add_food` are a parameter `draws`: the cells the generator yields, in order. The model requires what the loop needs to finish: every draw is interior, as `gen_range(1..width-1)` and `gen_range(1..height-1)` guarantee, and some draw is free. `RoomForFood` shows that a free interior cell exists while the snake is shorter than the interior. That a fair generator eventually draws such a cell is not modelled.
- Floating-point time is not modelled. `waiting_time` and the frame time are whole non-negative milliseconds: `MOVING_PERIOD` is 100 and `RESTART_TIME` is 1000. The comparisons keep their strict `>`.
- 32-bit wrap-around of `i32` coordinates is not modelled. Coordinates are unbounded integers, and on a board of the sizes used no arithmetic comes near the `i32` limits.
- The commented-out configuration reading (`src/game.rs:35-44`) does nothing and is left out.
- `src/snake.rs` is not part of this model. The snake is a value that the game replaces after each `move_forward`, `restore_tail` and `Snake::new`, not an object changed in place. The game owns its only snake, so nothing else can observe the difference. The following details of `Snake` are assumptions of the model, not taken from its code:
  - `Snake::new(x, y)` lays out three cells with the head at `(x, y)` and the other two trailing to its left, heading right.
  - Up decreases y and down increases it.
  - `overlap_tail` tests the whole body.
- `Snakes.Snake.RestoreTail`: the contract does not say whether `restore_tail` clears the remembered tail. The model keeps it, and the game never restores twice without moving in between.
- `Games.Game.KeyPressed`: a panic ends the program. The model stops at that point and says only that nothing has changed.
