# Snake: the simulation core of main.c

This is a model of the game logic of a single-file raylib Snake game
(`main.c`). The grid is 30 × 30. The snake's body is a ring buffer
`parts[ROWS*COLS]`, with a head cursor, a tail cursor and a `length`. The
snake moves one cell on every 9th frame. Eating the apple grows it by one,
and a new apple is then drawn with `rand()` until it lands off the body. A
key press may change the heading once per movement step, and never to its
reverse. The game ends when the head leaves the grid or runs into the body.

The project has these modules:

- `Board` holds the constants, the `Vector2Int` and `Direction` types, the
  one-cell step `Advance` and the two boundary predicates. `OutOfBounds` is
  the game-over test. `InApplePlane` is the range of `rand() % COLS`,
  `rand() % ROWS`.
- `Ring` reads the live window `parts[(curTailIndex + i) % (ROWS*COLS)]`,
  `i < length`. Its lemmas say what writing one slot past the window does to it.
- `Apples` models `rand()` as an oracle, the sequence `draws` of the values
  it returns from now on. It also defines the pair of draws on which the
  retry loop stops.
- `Steering` holds the `UpdateDirection` rule as a function, with an
  independent reference statement of it ("the first pressed key, in the
  order left, right, up, down, that does not reverse the snake") and a
  lemma about any number of frames between two steps.
- `Simulation` is the whole global state as a value (`GameState`), with
  every operation as a function on it and the lemmas that say what those
  operations mean.
- `SnakeGame.Game` is a class. The globals are its fields and `parts` is an
  array written in place. Each C function is a method with the same
  branches and loops. Its `ensures` clause says which `Simulation` function
  it computes (`Model() == Simulation.X(old(Model()))`), and method
  `Frame` keeps `Valid()`.

The model follows the code where the code and the game's intended rules
part:

- `InitGame` sets `allowMove` to false (main.c:103). The first key press
  therefore counts only after the first movement step.
- The game does not freeze once over. `UpdateGame` goes on calling
  `UpdateSnake` after `gameOver` is set (main.c:116-125), and only `InitGame`
  clears the flag.
- The boundary test uses `> COLS` and `> ROWS` (main.c:234-235). A head on
  column `COLS` or row `ROWS` is thus not game over, and the live area is
  31 × 31 cells.
- Because of that wider area and the endless movement, the snake can reach
  900 cells, the capacity of the ring. If it eats at that length, the head
  slot lands on the tail slot and overwrites it. `length` becomes 901, and
  the scanned window starts and ends with the new head.
  `Simulation.GrowthAtCapacityOverwritesTail` states exactly this. The ring
  invariant `Inv` is stated modulo the capacity, so it holds in that case
  too. The stronger `Fits` (length within capacity, and `tail` equal to
  `parts[curTailIndex]`) is therefore not kept by every step, but
  `Simulation.RunningBodyHasNoRepeats` shows it holds, with no repeated
  cell, for as long as the game runs.

A few model parameters stand in for the environment:

- The movement interval is `(int)(TARGET_FPS * 0.15)`. The double product
  is exactly 9.0, so the interval is 9.
- The constructor of `Game` is C's static initialisation: every number is
  zero and the heading is `UP`, whose enumerator value is 0.
- Key presses are the four booleans of `Steering.Keys`. Each is true when
  either key of a pair is pressed (A or LEFT, D or RIGHT, and so on).
- `rand()` is the field `draws`.

## Model

| member | source | states |
|---|---|---|
| Board.Advance | main.c:173-188 | NONE leaves the head where it is; every other heading moves it exactly one cell along one axis |
| Board.Opposite | main.c:203-212 | the heading each key may not turn back against; only NONE is its own opposite |
| Board.OppositeInvolutive | main.c:203-212 | reversing twice gives the heading back |
| Board.OutOfBounds | main.c:234-235 | the boundary half of GameEnded, defined as the strict test x < 0, x > COLS, y < 0 or y > ROWS; it has no contract of its own, and InsideIsOneCellWider states what it means |
| Board.InsideIsOneCellWider | main.c:234-235 | the head is in bounds iff 0 <= x <= COLS and 0 <= y <= ROWS; every possible apple cell is in bounds; column COLS is in bounds and column COLS+1 is not |
| Ring.WindowGrow | main.c:189-195 | writing the slot after a window shorter than the ring and widening it by one appends the written cell |
| Ring.WindowSlide | main.c:189-193 | writing the slot after the window and moving its start one slot on drops the first cell and appends the written one |
| Ring.WindowSlideCells | main.c:189-193 | whatever the length, every cell of the slid window is the written cell or a cell of the old window |
| Ring.WindowOverflow | main.c:189-195 | when the window covers the whole ring, the write lands on its first slot; the widened window starts and ends with the written cell |
| Ring.WindowLast | main.c:241-243 | the last cell of a window is its slot (start + len - 1) mod capacity, so the window without it is the one of length len - 1 |
| Apples.Sample | main.c:221-222 | a drawn pair names a cell with 0 <= x < COLS and 0 <= y < ROWS |
| Apples.FirstFreeFrom | main.c:220-223 | the first pair from a given one on that lies off the body: it is off the body, and every pair before it lies on it |
| Apples.FirstFree | main.c:220-223 | the pair the retry loop stops on: it is off the body, and every earlier pair lies on it |
| Apples.FirstFreeIsUnique | main.c:220-223 | a free pair with only occupied pairs before it is the one the loop stops on |
| Apples.PlacementNeedsFreeCell | main.c:219-224 | the loop can stop only if some cell of the grid is off the body |
| Apples.FreeCellCanBeDrawn | main.c:219-224 | conversely, any free grid cell is placed by some pair of rand() values, on the first try |
| Steering.Turn | main.c:202-216 | with the gate closed nothing changes; the heading changes only through an open gate, which it then closes; a set heading never becomes NONE or its own reverse |
| Steering.Requests | main.c:203-212 | the headings asked for, in the order the keys are tested; NONE is never asked for |
| Steering.FirstAcceptable | main.c:203-214 | the first request that does not reverse the heading, or NONE exactly when every request would reverse it |
| Steering.TurnTakesFirstAcceptable | main.c:202-216 | with the gate open, the first pressed key that does not reverse the snake wins (left, right, up, down order) and the gate closes; otherwise heading and gate stay |
| Steering.OneTurnBetweenMoves | main.c:198-216 | over any frames between two steps, at most one key press gets through, the heading changes at most once and never to the reverse of the heading at the last step |
| Simulation.InitGame | main.c:100-106 | the state InitGame leaves: the ring invariant holds, the body is the one centre cell, and the apple is off it; InitGameState gives every field |
| Simulation.InitSnake | main.c:155-164 | the one-cell snake has a well-shaped ring: a full-size buffer, cursors in range, length at least 1 |
| Simulation.GenerateNewApple | main.c:219-224 | drawing an apple leaves the ring well-shaped |
| Simulation.Eats | main.c:191 | the moved head lands on the apple: true iff Advance(dir, head) is the apple cell |
| Simulation.Move | main.c:171-189 | the moved state keeps a well-shaped ring |
| Simulation.Grown | main.c:195 | growing keeps a well-shaped ring |
| Simulation.Slid | main.c:192-193 | sliding the tail keeps a well-shaped ring |
| Simulation.UpdateSnake | main.c:167-199 | a movement step keeps a well-shaped ring |
| Simulation.Collided | main.c:240-247 | true iff some i < length - 1 has parts[(curTailIndex + i) mod capacity] == head, the scan of HasSnakeCollidedWithItself; Game.HasSnakeCollidedWithItself is proved to compute it |
| Simulation.Ended | main.c:233-237 | defined as OutOfBounds(head) or Collided; it has no contract of its own, Game.GameEnded is proved to compute it and GameOverFlag says UpdateGame raises the flag on it |
| Simulation.UpdateGame | main.c:116-125 | the update keeps a well-shaped ring |
| Simulation.UpdateDrawFrame | main.c:109-113 | the frame keeps a well-shaped ring |
| Simulation.UpdateDirection | main.c:202-216 | only the heading and the gate change, and the ring invariant is kept; the change itself is Steering.Turn, described by TurnTakesFirstAcceptable |
| Simulation.Frame | main.c:75-80 | one pass of the main loop keeps a well-shaped ring |
| Simulation.BodyShape | main.c:241-256 | under the ring invariant, the body has length entries and ends with the head; it is the cells the self-collision scan reads plus the head; the cursors are length - 1 slots apart mod capacity; while the body fits, exactly length - 1 apart, and its first cell is the tail |
| Simulation.CursorDistance | main.c:171-192 | the head cursor (t + length - 1) mod capacity lies length - 1 slots after t, counted round the ring |
| Simulation.InitGameState | main.c:100-106 | after InitGame: one cell at (COLS/2, ROWS/2) that is head, tail and parts[0], both cursors 0, heading RIGHT, counter 0, gate closed, flag clear, the apple in the grid and off the snake, the rest of the buffer untouched; and the ring invariant holds |
| Simulation.IdleFrameChangesNothing | main.c:168-170 | on a frame whose counter is not a multiple of 9, UpdateSnake changes nothing |
| Simulation.MoveStep | main.c:171-198 | on a movement step, the head cursor advances by one mod capacity, the head moves by the heading's unit offset and is stored at the new cursor, the gate reopens, and the heading, counter and flag stay |
| Simulation.EatOrSlide | main.c:191-197 | on the apple, length grows by one, the tail and its cursor stay and the new apple is the first drawn cell off the grown body; elsewhere, the tail cursor advances by one, the tail field follows it, and length and apple stay |
| Simulation.UpdateSnakeKeepsInv | main.c:167-199 | a movement step keeps the ring invariant: the head cursor is (tail cursor + length - 1) mod capacity, that slot holds the head, and the heading is set |
| Simulation.UpdateSnakeBody | main.c:189-197 | while the body fits the ring, eating appends the new head to the body and sliding drops the tail cell and appends it; the body still fits, and the scanned neck is the old body (or its tail-less part) |
| Simulation.GrowBody | main.c:189-195 | the eating half of the above, before the new apple is drawn |
| Simulation.SlideBody | main.c:189-193 | the sliding half of the above |
| Simulation.GrowthAtCapacityOverwritesTail | main.c:171-195 | a ring-filling snake that eats reaches length capacity + 1 with both cursors on one slot, and the scanned body starts and ends with the new head |
| Simulation.GameOverFlag | main.c:116-125 | UpdateGame raises the flag exactly when the moved snake is out of bounds or has collided, never lowers it, and changes nothing else |
| Simulation.MovementIgnoresGameOver | main.c:116-125 | the flag plays no part in movement: a finished game moves exactly as a running one |
| Simulation.FlagIsNotPartOfBody | main.c:250-257 | the body the scans read does not depend on the flag |
| Simulation.PlacementIgnoresGameOver | main.c:219-224 | nor does the apple GenerateNewApple draws |
| Simulation.GameOverSticks | main.c:116-125 | once set, the flag stays set through every frame |
| Simulation.FrameKeepsInv | main.c:75-80 | a frame keeps the ring invariant, and the counter goes up by one |
| Simulation.RunningBodyHasNoRepeats | main.c:116-125 | an invariant of UpdateGame: while the game runs, the body fits the ring and no cell occurs twice in it; a step that would repeat one, including eating at full length, raises the flag |
| Simulation.FullBodyHasNoRepeats | main.c:189-197 | the step of the above for a snake that fits the ring and does not collide |
| Simulation.AppleStaysOffBody | main.c:191-197 | an invariant of UpdateGame: an apple off the body stays off it, whether the snake eats (a new apple is drawn off the grown body) or slides |
| Simulation.ColumnColsIsNotGameOver | main.c:234-235 | an example of the boundary as written: a one-cell snake at (COLS-1, 0) heading right, with no apple at (COLS, 0), steps onto column COLS without ending the game, and the next step right would leave the bounds; the general fact is InsideIsOneCellWider |
| Simulation.EatFirstApple | main.c:167-199 | from the start cell heading right with the apple next to it, the snake eats: body (15,15),(16,15), the new apple off both cells, game on |
| SnakeGame.Game.constructor | main.c:43-48 | the static initial globals: a zeroed buffer of capacity ROWS*COLS, heading UP, every number zero, flags clear |
| SnakeGame.Game.Rand | main.c:221-222 | one rand() call returns the next oracle value and consumes it |
| SnakeGame.Game.InitSnake | main.c:155-164 | length 1, head = tail = parts[0] = (COLS/2, ROWS/2), both cursors 0, heading RIGHT |
| SnakeGame.Game.IsSnakeSegment | main.c:250-257 | true iff some i < length has parts[(curTailIndex + i) mod capacity] == (x, y), i.e. iff (x, y) is in the body |
| SnakeGame.Game.HasSnakeCollidedWithItself | main.c:240-247 | the same scan for the head over i < length - 1, which leaves out the head's own slot |
| SnakeGame.Game.HasSnakeCollidedWithApple | main.c:227-230 | true iff the head is the apple cell |
| SnakeGame.Game.GameEnded | main.c:233-237 | true iff the head is out of the strict bounds or collides with the body |
| SnakeGame.Game.DrawApple | main.c:221-222 | one try of the loop: the apple becomes the cell named by the next two oracle values, which are consumed |
| SnakeGame.Game.GenerateNewApple | main.c:219-224 | the retry loop computes Simulation.GenerateNewApple; the apple ends in the grid and off the body |
| SnakeGame.Game.InitGame | main.c:100-106 | computes Simulation.InitGame and establishes the ring invariant |
| SnakeGame.Game.MoveHead | main.c:171-189 | advances the head cursor and the head and stores it, as Simulation.Move |
| SnakeGame.Game.UpdateSnake | main.c:167-199 | computes Simulation.UpdateSnake in place |
| SnakeGame.Game.UpdateGame | main.c:116-125 | computes Simulation.UpdateGame in place |
| SnakeGame.Game.UpdateDrawFrame | main.c:109-113 | computes Simulation.UpdateDrawFrame in place |
| SnakeGame.Game.UpdateDirection | main.c:202-216 | computes Simulation.UpdateDirection, which is Steering.Turn on the heading and gate |
| SnakeGame.Game.Frame | main.c:75-80 | one pass of the main loop computes Simulation.Frame, keeps the ring invariant and counts one frame |

## Left out

- Rendering: `DrawGame` (main.c:128-152), including its `sprintf` into `text` and the two-colour loop over the body. It draws the state and does not change it.
- Window and input: the raylib calls `InitWindow`, `SetTargetFPS`, `WindowShouldClose`, `CloseWindow` and `IsKeyPressed`. Key presses are passed in as `Steering.Keys`.
- `hasTicked` (main.c:88-97): nothing calls it, and it is floating-point arithmetic on the wall clock.
- The `paused` flag (main.c:46): nothing reads or writes it.
- The repetition of the main loop (main.c:75-80): one pass is `Game.Frame`. Whether to stop is up to `WindowShouldClose`, which is outside the model. `Steering.OneTurnBetweenMoves` covers any number of frames of steering.
- `rand()`: only its values are modelled, as the oracle `draws`, not its distribution.
- C `int` overflow: coordinates, cursors and `frameCounter` are unbounded integers. The head can only drift far off the grid after the game is over, and the counter would need about 2^31 frames to wrap.
- SnakeGame.Game.GenerateNewApple: requires that some pair of the coming `rand()` values names a free cell. Without one, the C loop never returns, and the model does not describe a loop that never ends.
- Simulation.UpdateSnakeBody: stated only while the snake fits the ring (`Fits`) and does not eat at full length. `Simulation.GrowthAtCapacityOverwritesTail` covers the remaining case.
- Simulation.Move, Simulation.Grown, Simulation.Slid, Simulation.UpdateSnake, Simulation.UpdateGame, Simulation.UpdateDrawFrame, Simulation.Frame, Simulation.InitSnake, Simulation.GenerateNewApple: their own contracts only keep the buffer shape. What they compute is stated by the lemmas after them (MoveStep, EatOrSlide, UpdateSnakeKeepsInv, UpdateSnakeBody, GameOverFlag, FrameKeepsInv, InitGameState).
