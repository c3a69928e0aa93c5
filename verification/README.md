# Snake game engine — Dafny model

This project models the game-state engine of a browser snake game written
in Go and compiled to WebAssembly (`wasm/wasm.go`). The board is 16×16. The
snake is a slice of `Place`s, head first, plus the delta of its last
accepted move. The apple is one `Place`, and the score is an `int`. The
model covers:

- the occupancy test `Snake.CheckIfHasSquare`;
- the one state transition, `Snake.Move`. It rejects a head that reaches
  -1 or 16, and a head on any segment. Otherwise it shifts the body and
  records the heading. On the apple it draws a new apple, grows the body
  and adds a point;
- `createApple`, which draws random cells until one is off the snake;
- the arrow-key table and the key guard of `listenToKeys`;
- the timer step of `move`, which replays the stored heading;
- the game-over flag that an error from either caller sets (the cancelled
  context);
- the start-up sequence of `setup` and `main`.

Modules follow the program's pieces:

- `Grid` (grid.dfy): places, bounds, and counting the board's cells.
- `Snakes` (snake.dfy): the snake, `CheckIfHasSquare` and the body shift.
- `Apples` (apple.dfy): `createApple`.
- `Games` (game.dfy): the game state, `Move` and the invariant.
- `Loop` (loop.dfy): keys, timer, game over, event runs and start-up.
- `Wrappers` (wrappers.dfy): holds `Option`, which stands for Go's `error`.

Randomness is a parameter. Each call of `createApple` receives `draws`,
the successive `(rand.Intn(16), rand.Intn(16))` pairs the generator would
yield. It returns the first draw that is off the body. The source loops
until it finds such a draw, so the model requires that the draws contain
one. `Move` returns the state after the call together with the error it
returned. This is how the model represents mutation through the pointer
receiver and the globals `apple` and `score`.

The model follows the code in places where an idealised snake game would
behave differently:

- No cell is exempt from the collision test, not even the tail that is
  about to be vacated.
- There is no board-full outcome. `createApple` simply needs a free cell.
  `Games.AppleRoom` shows this is the case exactly while the body is
  shorter than 256 cells.
- An accepted key moves the snake at once. It does not merely set the
  heading for the next tick.
- The key guard compares x-components only. It does not compare full
  reversal vectors.
- Growth appends a copy of the new last segment. For one move the last two
  segments share a cell. So "no two segments are equal" holds only up to
  that tail pair (`Snakes.NearlyDistinct`).
- The bounds test is equality with -1 and 16, not a range test.
  `Grid.UnitStepBounds` shows the two agree for the unit deltas the game
  uses.

## Model

| member | source | states |
|---|---|---|
| `Snakes.CheckIfHasSquare` | wasm/wasm.go:60-67 | reports an error iff some segment equals (x, y), and the error is "has sqaure" |
| `Snakes.Shift` | wasm/wasm.go:82-93 | the new body keeps its length, starts at the new head, and segment i takes the old cell of segment i-1 |
| `Snakes.ShiftDistinct` | wasm/wasm.go:78-93 | shifting a body that repeats only its tail pair onto a cell it does not occupy leaves no repeated cell |
| `Grid.UnitStepBounds` | wasm/wasm.go:74 | from a cell on the board a unit step stays on the board iff it avoids -1 and 16, so the equality guard is a full bounds check |
| `Grid.FreeCellExists` | wasm/wasm.go:269-278 | a body shorter than 256 cells leaves some cell of the 16×16 board free for the apple |
| `Grid.FullBoard` | wasm/wasm.go:269-278 | distinct cells on the board number at most 256, and 256 of them cover every cell |
| `Apples.CreateApple` | wasm/wasm.go:269-283 | the apple is in bounds, off the body, and is the first draw that is off the body; every earlier draw lies on the body |
| `Apples.CoveredBoardStarves` | wasm/wasm.go:273-278 | when the body covers the board, no draw is ever free, so the loop cannot end |
| `Apples.FreeCellFinishes` | wasm/wasm.go:269-283 | every free cell is a possible apple: a generator whose first draw is that cell ends the loop there |
| `Games.Move` | wasm/wasm.go:69-107 | error "outbound" iff the new head has a coordinate of -1 or 16; error "has sqaure" iff it is not at -1 or 16 and is on any segment; an error leaves body, heading, apple and score unchanged; on success the head is the new cell, segment i is old segment i-1, and the heading becomes the delta; without eating, the length, apple and score stay the same; when eating, the length grows by one, the last two segments coincide, the score rises by one and the new apple is on the board and off the body |
| `Games.MovePreservesInv` | wasm/wasm.go:71-103 | with a unit or zero delta, a move keeps all segments on the board, repeats only the tail pair, keeps the apple free, keeps length equal to score plus three, and keeps the heading a unit or zero delta |
| `Games.TailIsNotExempt` | wasm/wasm.go:78-80 | a new head on the current tail is rejected with "has sqaure" and the state does not change |
| `Games.AppleRoom` | wasm/wasm.go:98-100 | when a move eats, a free cell for the new apple exists iff the body is shorter than 256 cells |
| `Loop.KeyDelta` | wasm/wasm.go:34-51 | a key maps to a unit delta, or to the zero `Place` exactly when it is not in the table |
| `Loop.OnTick` | wasm/wasm.go:161-164 | a tick on a running game ends it iff the stored heading leads out of bounds or onto the body, and then the state is unchanged; otherwise the state is exactly the one `Move` with the stored heading produces, so the head advances by that heading and the heading is kept; the score never falls and the body never shortens; a finished game ignores ticks |
| `Loop.OnKey` | wasm/wasm.go:184-192 | a rejected key or a finished game changes nothing; an accepted key ends the game with the state unchanged iff its delta leads out of bounds or onto the body, and otherwise the head moves at once and the heading becomes the key's delta; an accepted key leaves exactly the state `Move` with the key's delta produces |
| `Loop.Step` | wasm/wasm.go:156-196 | either event source leaves a finished game unchanged, ends a game without changing its state, never lowers the score, and never shortens the body |
| `Loop.Run` | wasm/wasm.go:156-196 | across any run of events, a finished game stays as it is, and the score and body length never decrease |
| `Loop.StepPreservesInv` | wasm/wasm.go:161-192 | ticks and keys keep the invariant |
| `Loop.RunPreservesInv` | wasm/wasm.go:156-196 | every state reached by a run of events from an invariant state satisfies the invariant |
| `Loop.Setup` | wasm/wasm.go:242-262 | the initial state satisfies the invariant, with score zero and a zero heading |
| `Loop.Start` | wasm/wasm.go:116-122 | after start-up the game is running, satisfies the invariant, heads right and has its head at (4, 8): the first move, whose error `main` ignores, always succeeds |
| `Loop.ReachableInv` | wasm/wasm.go:116-127 | every state reachable from start-up satisfies the invariant |
| `Loop.KeyActsIffAccepted` | wasm/wasm.go:186-192 | on a running game, a key changes the program state iff the guard accepts it |
| `Loop.SameHorizontalKeyIgnored` | wasm/wasm.go:186 | the key for the current horizontal direction is ignored |
| `Loop.HorizontalReversalEndsGame` | wasm/wasm.go:186-189 | the key reversing the current horizontal direction is accepted, runs into the neck, and ends the game with the state unchanged |
| `Loop.VerticalKeysIgnoredInColumn` | wasm/wasm.go:186 | while head and neck share a column, both vertical keys are ignored |
| `Loop.FirstMoveOntoApple` | wasm/wasm.go:96-103 | if the first apple is at (4, 8), the first move scores one and leaves the body [(4,8), (3,8), (2,8), (2,8)], which ends in a duplicated cell rather than the old tail |

## Left out

- Drawing is left out: `refresh`, `drawSquare`, `Snake.draw`, the canvas
  and window sizing in `setup`, and the score and game-over text. These
  are output only. The window sizing uses floating point.
- The goroutine, the channel, the `context` and the `select` in `main` and
  `move` are left out. The model serializes ticks and key presses into one
  sequence of events. Game over is an absorbing flag; in the source, `main`
  returns once the context is cancelled.
- `math/rand` and its seeding are left out. Every `createApple` call
  receives the draws the generator would yield.
- `fmt.Println`, the type-check panics on JavaScript values, and the
  `js.FuncOf` registrations are left out. They are I/O and foreign calls.
- `assets/script.js` is left out. It only forwards key names to the key
  handler.
- `Games.Move` uses unbounded integers. Go's 64-bit `int` never overflows
  here, because coordinates stay within [-1, 16] and the score is the body
  length minus three.
- `Apples.CreateApple` requires draws that contain a free cell. On a full
  board the source spins forever, and the model does not represent that
  non-termination (`Apples.CoveredBoardStarves` states when it happens).
