# Snake game engine, modelled in Dafny

This project models the game-state engine of a single-player snake game
(`snake.py`, class `SnakeGame`). A snake moves on a 30 × 20 board of integer
cells. Each timer tick moves it one cell in its current direction. It dies on
hitting a wall or itself, and it grows and speeds up when it eats the food.
Keys steer it, restart the game (`r`) and pause or resume it (`space`).

Files:

- `wrappers.dfy`: module `Wrappers`, the `Option` type used for the food cell (Python's `None`).
- `grid.dfy`: module `Grid`. It holds the board size, cells, the free-cell set that
  `place_food` computes, and a proof that the board has exactly 600 cells.
  That proof lets "no food" be tied to "the snake fills the board".
- `rules.dfy`: module `Rules`. It holds the game constants and the fields of
  the game object as a record `Game`. Its functions are the state changes:
  `Reset` for `reset_game`, `Move` for `move_snake`, `SpeedUp` for the
  speed-up, and `KeyDirection` with `Steer` for the direction map and the
  reversal guard. It also holds the invariant of every reachable state and
  the lemmas about all of these.
- `game.dfy`: module `Snake`, the class `SnakeGame`. Its fields are `snake`,
  `direction`, `food`, `score`, `speed` and `running`, and its methods update
  them in place as the source does (`insert(0, …)` becomes prepending to the
  sequence, `pop()` becomes dropping its last element). Each method's
  `ensures` ties the new fields to the functions of `Rules`, and `Valid()` is
  `Rules.Invariant`.

Behaviour taken from the code as written:

- There is no separate pending direction. `on_key` writes `direction` at once, so up then left between two ticks reverses the snake into its neck (`Rules.TwoKeysHitNeck`).
- There is no game-over status. `game_over` only clears `running`, so `space` afterwards resumes the loop. Without steering first, the resumed tick collides again at once (`Rules.ResumeAfterCollision`).
- The self-collision test looks at the whole current snake, tail cell included (`Rules.TailCellCollides`).
- `start()` calls `loop()`, which moves the snake at once while `running` holds. So `r`, resuming with `space`, and the constructor all run one tick right away. `Rules.RestartTick` shows that the tick after a reset never collides.
- The initial head is at (15, 10), that is `(GRID_WIDTH // 2, GRID_HEIGHT // 2)`.

The invariant (`Rules.Invariant`) holds in every state the game reaches:
- the snake is non-empty, lies on the board and never overlaps itself;
- food, when present, lies on the board and off the snake;
- the direction is one of the four unit steps;
- the snake has 5 + score cells;
- the delay is `max(40, 120 - 3 * score)`.

## Model

| member | source | states |
|---|---|---|
| Grid.FreeCells | snake.py:68 | a cell is free exactly when it is on the 30 × 20 board and not a snake cell |
| Grid.AllCellsCount | snake.py:68 | the board comprehension has exactly GRID_WIDTH * GRID_HEIGHT = 600 cells |
| Grid.DistinctCellsCount | snake.py:68 | the set of a non-overlapping snake's cells has one element per segment |
| Grid.NoFreeCellIffFull | snake.py:67-72 | for a snake on the board without overlap, no cell is free exactly when it has 600 segments |
| Rules.InitialSnake | snake.py:40-42 | the starting snake is [(15,10),(14,10),(13,10),(12,10),(11,10)] |
| Rules.Reset | snake.py:38-45 | with food placed by place_food, the reset state satisfies the invariant and has food |
| Rules.ResetIsCanonical | snake.py:38-45 | reset_game gives the same state from every prior state, up to the running flag it leaves alone |
| Rules.PlacementNoneIffFull | snake.py:67-72 | placed food is on the board and off the snake; food is None exactly when the snake fills the board |
| Rules.SpeedUp | snake.py:97 | the new delay is exactly max(40, delay - 3): at least 40, at least delay - 3, and one of the two; never above the old delay when that was at least 40 |
| Rules.SpeedAfterStep | snake.py:16-18 | each food eaten moves the delay from max(40, 120 - 3n) to max(40, 120 - 3(n+1)), staying in [40, 120] |
| Rules.Move | snake.py:74-100 | one move: on collision only running changes, to False; otherwise the new head leads a prefix of the old snake, the length grows exactly by the score gained (1 when eating, else 0), the delay speeds up only on eating, food is replaced only on eating, and the direction is unchanged |
| Rules.PlainStep | snake.py:90-100 | without eating, the snake becomes [head + direction] + old snake minus its last cell; length, score, speed and food are kept |
| Rules.EatingStep | snake.py:93-98 | eating keeps the tail, adds 1 to the score, sets the delay to max(40, delay - 3) (117 from 120), and takes the newly placed food |
| Rules.TickPreservesInvariant | snake.py:80-100 | a move keeps the snake on the board and without overlap, the food off the snake, and the length, score and speed bookkeeping |
| Rules.MovesKeepInvariant | snake.py:74-100 | along any sequence of moves the invariant holds throughout, the delay never grows and stays in [40, 120], the score never falls, and the snake grows by exactly the score gained |
| Rules.ResumeAfterCollision | snake.py:118-122 | after a collision, space without steering runs the same colliding tick, so running is False again and nothing else changed |
| Rules.RestartTick | snake.py:48-63 | the tick that start() runs after reset_game never collides, so the game is running with head (16,10) and five cells, or six cells, score 1 and delay 117 when the food lay on (16,10) |
| Rules.Lower | snake.py:103 | lower-casing keeps the length, lowers each character in place, and leaves no upper-case ASCII letter |
| Rules.LowerKeys | snake.py:103-118 | the Tk key names "Up", "R", "W" and "space" become "up", "r", "w" and "space" |
| Rules.KeyDirection | snake.py:104-113 | every mapped key gives a unit direction, and neither "r" nor "space" is mapped |
| Rules.Steer | snake.py:127-129 | the result is the requested or the current direction; the request is taken exactly when it is not the negation of the current direction; for unit directions the result is a unit direction and never the reverse of the current one |
| Rules.TwoKeysHitNeck | snake.py:125-129 | up then left between ticks turns a right-moving snake around, and the next move from the initial snake collides with its neck |
| Rules.TailCellCollides | snake.py:85-88 | for every state whose new head is the current tail cell, the move is a collision that only clears running |
| Rules.TailCollisionReachable | snake.py:85-88 | a six-cell state that meets the invariant (score 1, delay 117) runs into its tail cell and stops |
| Snake.SnakeGame.constructor | snake.py:22-36 | the new game satisfies the invariant and is running, one tick after a reset |
| Snake.SnakeGame.ResetGame | snake.py:38-46 | the fields become the reset state, with food placed off the initial snake, keeping the invariant |
| Snake.SnakeGame.Start | snake.py:48-52 | running becomes True and one move follows at once |
| Snake.SnakeGame.Stop | snake.py:54-58 | the new state is the old one with running False, and the invariant is kept |
| Snake.SnakeGame.Loop | snake.py:60-65 | when running, one move; otherwise nothing changes |
| Snake.SnakeGame.PlaceFood | snake.py:67-72 | food becomes some free cell, or None when no cell is free; no other field changes |
| Snake.SnakeGame.MoveSnake | snake.py:74-100 | the fields change exactly as Rules.Move says, food is re-placed off the new snake after eating, and the invariant is kept |
| Snake.SnakeGame.OnKey | snake.py:102-129 | "r" resets and starts, leaving the game running; "space" stops a running game or starts a stopped one; a mapped key sets the direction unless it is the reverse of the current one; any other key changes nothing |
| Snake.SnakeGame.GameOver | snake.py:159-160 | the new state is the old one with running False, and the invariant is kept |

## Left out

- Tk widgets and drawing, which are UI calls with no game logic: the canvas, the score label and its text, `redraw`, `draw_cell`, `draw_grid` and the game-over text overlay. `CELL_SIZE` and the window size exist only for drawing.
- Timer scheduling with `root.after`, `after_cancel` and `after_id`, which belongs to the event loop. `Loop` is one firing of the timer, and when it fires again is not modelled.
- Snake.SnakeGame.PlaceFood: picks any free cell, not a uniformly random one, because `random.choice` is a library call and the model treats the pick as an unconstrained choice.
- Rules.Lower: lowers ASCII letters only. Tk key names are ASCII, and Unicode case mapping is not modelled.
- How key presses are captured (`event.keysym`) is not modelled: `OnKey` takes the key name as a string.
- The `__main__` block and the Tk main loop.
