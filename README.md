# Snake game core in Dafny

A model of the game logic of a browser snake game (`script.js`): a snake
moves on a 20 × 20 board, one cell per tick of a timer. It grows when its
head reaches the apple, which speeds the timer up. It dies on its own body,
and also on the board's edge when walls mode is on; without walls it wraps
around the edges. The page's controls queue a new direction, pause the game,
restart it or switch the wall mode.

The project has four modules:

- `Grid` (`grid.dfy`): the configuration constants (GRID = 20,
  MIN_TICK = 55, START_TICK = 160, the 5 ms speed step, 2000 placement
  attempts), cells and direction vectors, JavaScript's remainder and the
  torus wrap built on it, and the body predicates (`Distinct`, `BodyOK`).
- `Rules` (`rules.dfy`): the whole game state as a value (`State`). Each
  operation is a function on it: `placeApple`, `resetGame`, `gameOver`,
  `tick`, `setDir`, `togglePause`, the mode button and the comparison in
  `saveBest`. Beside them sit the invariant `Inv` and the laws of the game,
  stated and proved as lemmas.
- `SnakeGame` (`game.dfy`): the class `Game`. Its fields are the script's
  top-level variables, and its methods update them in place as the
  script's functions do. `placeApple` keeps its loop of attempts. Each
  method is proved to produce exactly the state its `Rules` function
  describes. The constructor, `ResetGame`, `Tick`, `SetDir`, `TogglePause`
  and `ToggleMode` are also proved to end in a state that satisfies `Inv`.
  The helpers `PlaceApple`, `NextHead`, `Advance`, `GameOver` and
  `SaveBest` make no claim about `Inv`: they run only inside the methods
  above, which prove it.
- `Session` (`session.dfy`): the page's event handlers as a stream of
  events. It proves laws over every run of them: the invariant holds on
  every reachable state, the score only drops when a new game starts, and
  a finished game stays finished until one is started.

The invariant `Rules.Inv` holds in every reachable state. It says:

- the body has at least two cells, all on the board and no two the same;
- both directions are unit vectors;
- the queued direction never reverses the committed one;
- the apple is on the board;
- a paused game is a running one;
- the tick interval is max(55, 160 − 5·score);
- once a point is scored, the best score is at least the score.

The random source and the stored best score are inputs.

- `rng` is a sequence of integers in [0, GRID). Attempt `k` of an apple
  placement uses `rng[2k]` and `rng[2k+1]` as its x and y. This models
  `Math.floor(Math.random() * GRID)`.
- `loadedBest` is the value `loadBest` reads from storage when a game
  starts. It can be any integer, because `parseInt` accepts a negative
  string.

Two points where the code differs from the usual snake rules, and the
model follows the code:

- The tail gets no exemption. The self-collision test runs against the
  whole body before the tail moves (`script.js:104-105`). A head that moves
  onto the cell the tail is about to leave therefore ends the game
  (`Rules.TailIsDeadlyScenario`).
- The fallback apple is not checked against the body. When all 2000
  attempts hit the snake, the apple goes to (0, 0) even if the snake covers
  that cell (`Rules.FallbackOnSnake`).

On game over the committed direction has already been overwritten by the
queued one (`script.js:92`), and the model keeps that.

## Model

| member | source | states |
|---|---|---|
| Grid.JsRem | script.js:100-101 | JavaScript's `%`: the remainder lies strictly between −b and b, equals Dafny's modulus for a non-negative dividend and is never positive for a negative one |
| Grid.Wrap | script.js:100-101 | `(v + GRID) % GRID` lands on the board for every coordinate at least −GRID: a coordinate one cell below the board re-enters at the top edge, one on the board is kept, and one up to a board width above it comes back by one width |
| Grid.WrapPoint | script.js:100-101 | wrapping both coordinates of a cell at most one board width off the board puts it on the board |
| Grid.StepFrom | script.js:93 | the raw new head differs from the old head by exactly the direction vector |
| Grid.WrapStep | script.js:97-102 | one unit step of a cell on the board: an in-board step is kept by the wrap, and a step off any of the four edges re-enters at the opposite edge with the other coordinate unchanged |
| Grid.DistinctPush | script.js:104-107 | pushing a cell that the collision test found absent keeps the body's cells pairwise distinct |
| Rules.IntervalAfter | script.js:115 | the tick interval after n apples is START_TICK − 5n floored at MIN_TICK, and always lies in [MIN_TICK, START_TICK] |
| Rules.SpeedStep | script.js:115 | one eaten apple turns the interval for n apples into the interval for n + 1, which is never slower |
| Rules.FirstFree | script.js:77-86 | the attempts from k on always choose a cell on the board |
| Rules.PlaceSpec | script.js:74-87 | `placeApple` always puts the apple on the board; which cell it picks is stated by Rules.PlaceAppleLaw |
| Rules.FirstFreeLaw | script.js:76-86 | the attempts from k on choose a cell off the body that is the first free candidate, whenever any candidate is free; if every candidate is taken they choose the origin |
| Rules.PlaceAppleLaw | script.js:74-87 | `placeApple` puts the apple on the first of the 2000 candidates that is off the snake, or at (0, 0) when none is |
| Rules.FallbackOnSnake | script.js:85-86 | for every body that covers (0, 0) and holds every candidate, the apple is placed at (0, 0), inside the snake |
| Rules.FallbackInsideSnake | script.js:85-86 | an instance where that premise is met: with the all-zero stream and the body (0,0),(1,0), the apple lands on the body |
| Rules.SaveBestSpec | script.js:269-271 | the best score becomes the larger of best and score, and nothing else changes |
| Rules.ResetSpec | script.js:56-69 | `resetGame` gives the fixed start: body (8,10),(9,10), heading right with nothing else queued, score 0, START_TICK, running, not paused, best as loaded, apple placed over the new body; the wall mode survives |
| Rules.ResetEstablishesInv | script.js:56-69 | a reset, and the mode switch, establish the invariant from any state at all |
| Rules.GameOverSpec | script.js:127-129 | `gameOver` clears running and paused and changes nothing else |
| Rules.Target | script.js:93-102 | the new head: with walls, no head exactly when the raw step leaves the board and otherwise the raw step; without walls always a head; every head is on the board |
| Rules.AdvanceSpec | script.js:107-121 | committing a move onto a cell: it becomes the head, and the body and the score grow by one exactly when the cell holds the apple; direction, mode and flags are untouched |
| Rules.AdvanceKeepsInv | script.js:104-121 | a move onto a free cell on the board keeps the invariant, in both the eating and the plain case |
| Rules.TickSpec | script.js:90-125 | a live tick commits the queued direction; a tick never lowers the score and never changes the mode; a tick that ends the game leaves body, score and apple as they were |
| Rules.TickKeepsInv | script.js:90-125 | every tick keeps the invariant: distinct cells on the board, length at least 2, no reversal, the speed law and best ≥ score once a point is scored |
| Rules.TickInert | script.js:91 | with the game over or paused, a tick changes nothing |
| Rules.TickCommitsDirection | script.js:92 | a live tick's committed direction is the queued one, and that is never the reverse of the one before |
| Rules.WallDeath | script.js:95-97 | with walls on, a head off the board ends the game with body, score, apple and speed unchanged |
| Rules.WrapMove | script.js:98-101 | without walls the new head is the wrapped step, and an in-board step is taken as it is |
| Rules.SelfCollision | script.js:104-105 | a head landing on any body cell, the tail included, ends the game with everything but the flags and the committed direction unchanged |
| Rules.PlainMove | script.js:118-120 | a move onto a free cell without the apple keeps the length, appends the head, drops the old tail and changes nothing else |
| Rules.Eat | script.js:109-117 | eating: score + 1, the body grows by the head and keeps its tail, the interval steps down by 5 to its floor and matches the speed law, best becomes max(best, score), the new apple is placed over the grown body, and nothing else changes but the committed direction |
| Rules.SetDirSpec | script.js:184-188 | a request for the reverse of the committed direction is dropped and any other one is queued, so the queue never reverses the committed direction; nothing else changes |
| Rules.SetDirKeepsInv | script.js:184-188 | `setDir` with a unit direction keeps the invariant |
| Rules.TogglePauseSpec | script.js:249-254 | the pause flag flips exactly when a game is running, and nothing else changes |
| Rules.TogglePauseKeepsInv | script.js:249-254 | `togglePause` keeps the invariant |
| Rules.ToggleModeSpec | script.js:235-239 | the mode button flips the wall mode and starts a fresh game |
| Rules.FirstMoveScenario | script.js:56-125 | from a fresh game without walls and the apple elsewhere, the first tick moves the body to (9,10),(10,10) |
| Rules.TailIsDeadlyScenario | script.js:104-105 | a four-cell snake curled in a square and heading into its own tail dies with its body unchanged |
| Rules.WallScenario | script.js:95-97 | with walls, a head at the right edge moving right dies with its body unchanged |
| SnakeGame.Game.constructor | script.js:25-36 | the declared initial values followed by the boot's reset give exactly the fresh game, which satisfies the invariant |
| SnakeGame.Game.ResetGame | script.js:56-69 | the fields become the state `Rules.ResetSpec` gives, and the invariant holds |
| SnakeGame.Game.PlaceApple | script.js:74-87 | the loop of attempts sets the apple to the cell `Rules.PlaceSpec` chooses, and touches nothing else |
| SnakeGame.Game.Tick | script.js:90-125 | the fields become the state `Rules.TickSpec` gives, and the invariant is kept |
| SnakeGame.Game.NextHead | script.js:93-102 | the head computed in place is `Rules.Target` of the body, the committed direction and the mode |
| SnakeGame.Game.Advance | script.js:107-121 | push, then eat or shift: the fields become the state `Rules.AdvanceSpec` gives |
| SnakeGame.Game.GameOver | script.js:127-129 | only the two flags change, to the `Rules.GameOverSpec` state |
| SnakeGame.Game.SetDir | script.js:184-188 | the fields become the state `Rules.SetDirSpec` gives, and the invariant is kept |
| SnakeGame.Game.TogglePause | script.js:249-254 | the fields become the state `Rules.TogglePauseSpec` gives, and the invariant is kept |
| SnakeGame.Game.ToggleMode | script.js:235-239 | the fields become the state `Rules.ToggleModeSpec` gives, and the invariant holds |
| SnakeGame.Game.SaveBest | script.js:269-271 | only `best` changes, to the larger of best and score |
| Session.Apply | script.js:190-197 | one event: Enter starts a new game only when none is running and is otherwise ignored; a restart or mode event always gives a fresh game; only the mode button changes the wall mode, and it always flips it |
| Session.ApplyKeepsInv | script.js:190-239 | every handler keeps the invariant |
| Session.Run | script.js:190-254 | every state reached by a run of events satisfies the invariant |
| Session.ScoreNeverDrops | script.js:90-125 | without an event that starts a new game, the score never goes down and the mode never changes |
| Session.GameOverIsFinal | script.js:127-129 | after game over, and until a game is started, everything but the queued direction stays frozen |

## Left out

- Rendering, the canvas, the theme button, resizing and the status and score text are not modelled. They draw or label state and change no game state.
- Audio (`beep`) is not modelled: it is output only.
- Timers are not modelled. `restartLoop` and `setInterval` become the `Timer` event of `Session`, one event per tick, and the interval is kept as the field `tickInterval`.
- Storage is not modelled. `loadBest` becomes the `loadedBest` argument of a reset. The write to storage in `saveBest` is output only, so only the comparison is modelled.
- `Math.random` is not modelled. It becomes the `rng` stream of candidate coordinates, already scaled and floored into [0, GRID).
- The key, button and touch listeners are reduced to the events of `Session`. A key that is neither a direction, the space bar nor Enter does nothing. The swipe threshold and its geometry are not modelled, because a swipe only ever calls `setDir` with one of the four directions.
- Several listeners firing for one key press are not modelled. Each key maps to one event.
- The debug handle `window._snake` is not modelled.
- The boot-time render while the body is still empty is not modelled. The boot is modelled as the declared initial values followed by `resetGame`.
- Grid.JsRem: the ensures gives Dafny's modulus only for a non-negative dividend, and only the sign and range for a negative one. The wrap never has a negative dividend.
- Grid.Wrap: the ensures covers coordinates from −GRID to 2·GRID − 1. A unit step from the board only reaches −1 to GRID.
