# Tetris core as a verified state machine

This project models the game logic of `Tetris.py` as pure functions over immutable values:

- the tetromino catalogue (`PIECES`): seven kinds, each with four rotation states of four offsets;
- the falling `Piece`: kind, rotation index and origin, with its `cells` projection;
- the `Tetris` game on a fixed 12 x 22 grid: the collision check, all-or-nothing moves and
  rotations, locking, line clearing with scoring, the game-over latch and the gravity tick.

Three modules follow the structure of the program:

- `Shapes` (shapes.dfy): board size, `Kind`, the offset table, `Piece`, `Cells`.
- `Grid` (grid.dfy): grid squares, the board, the collision predicate, writing a locked piece,
  and removing full rows.
- `Tetris` (game.dfy): the `Game` record and its operations, the state invariant `Valid`, and
  runs of driver requests.

The clock and the random source are parameters. `Step` takes an integer timestamp `now` in
milliseconds, and the gravity interval `TickRate` is 625 ms (the original's 0.625 s). `Init`,
`Lock`, `DropOrLock` and `Step` take the kind of the piece they create instead of drawing it at
random.

The central safety fact is the invariant `Valid`. The grid keeps its 22 x 12 shape. The falling
piece always lies between the walls and above the floor. While the game is not over, it also
collides with nothing. The first fact holds even after game over, and `Lock` depends on it:
the original range-checks only the row (`Tetris.py:134`) before writing `board[y][x]`, so the
column must already be in range. `Init` establishes `Valid`, and every operation preserves it
(`Run`).

Python's `%` takes the floor, and Dafny's `%` is Euclidean. Both give a result in 0..3 for the
divisor 4, so `(rotation + d) % 4` is written unchanged.

## Model

| member | source | states |
|---|---|---|
| `Shapes.Rotations` | Tetris.py:51-89 | every kind has exactly four rotation states; each lists four distinct offsets with every coordinate in 0..3 |
| `Shapes.OStatesIdentical` | Tetris.py:58 | the four 'O' states are the same offsets |
| `Shapes.OthersRotateVisibly` | Tetris.py:52-88 | for every kind except 'O', one rotation step changes the occupied squares: some square of state r is not a square of state (r + 1) mod 4 |
| `Shapes.Cells` | Tetris.py:108-110 | there are four distinct cells, all inside the 4x4 box whose corner is the origin plus (dx, dy); `CellsOffsets` states which cells they are |
| `Shapes.CellsOffsets` | Tetris.py:108-110 | the i-th cell is exactly the i-th offset of state `rot mod 4` plus the origin plus (dx, dy) |
| `Shapes.OCellsIgnoreRotation` | Tetris.py:58 | an 'O' piece occupies the same cells whatever its rotation index |
| `Shapes.CellsTranslate` | Tetris.py:108-110 | candidate cells shifted by (dx, dy) are the cells of the piece whose origin has moved by (dx, dy), which is why a committed move lands on the cells that were checked |
| `Shapes.SpawnCells` | Tetris.py:101-106 | a fresh piece has rotation 0 and origin (4, 0) = (12 / 2 - 2, 0); its cells lie in columns 4..7 and rows 0..3 |
| `Grid.AboveBoardIsFree` | Tetris.py:126-129 | a cell above the board (y < 0) collides only with the walls, whatever the grid holds |
| `Grid.Blocked` | Tetris.py:124-130 | the check is true exactly when some cell has x < 0, x >= W or y >= H, or is a filled grid square with y >= 0; when it is false, every cell lies between the walls and above the floor |
| `Grid.Stamp` | Tetris.py:133-135 | the grid keeps its size; a square becomes the piece's kind exactly when it is one of the piece's cells, and every other square is unchanged; cells above the board are dropped |
| `Grid.KeptIndices` | Tetris.py:143 | the kept row indices are strictly increasing, in range and non-full, and every non-full row's index is among them |
| `Grid.NonFullRowsAtKeptIndices` | Tetris.py:143 | the filtered rows are exactly the grid rows at the kept indices, in that order |
| `Grid.KeptPlusFull` | Tetris.py:143-144 | kept rows plus full rows account for every row, so the number cleared equals the number of full rows |
| `Grid.KeptIndicesAllRows` | Tetris.py:143-144 | with no full row, the kept indices are 0, 1, ..., H - 1 |
| `Grid.Collapse` | Tetris.py:142-147 | the grid stays H x W; the number of removed rows is the number of full rows; that many empty rows are on top; below them the non-full rows follow in their original order |
| `Grid.CollapseNoFullRow` | Tetris.py:142-147 | with no full row, clearing leaves the grid unchanged and removes nothing |
| `Tetris.SpawnInside` | Tetris.py:101-106 | a fresh piece lies between the walls and above the floor |
| `Tetris.SpawnFits` | Tetris.py:105-106 | a fresh piece is not blocked when the spawn area is empty, as on a new board |
| `Tetris.SpawnBlockedByFilledSquare` | Tetris.py:139-140 | a fresh piece with a filled square under one of its cells is blocked, so promoting it ends the game |
| `Tetris.Init` | Tetris.py:113-119 | a new game satisfies the invariant: the grid is empty, both pieces are in spawn state, the score is 0, the game is not over and the drop clock starts at `now` |
| `Tetris.Move` | Tetris.py:150-155 | succeeds exactly when the shifted cells are unblocked; on success, only the origin moves, by exactly (dx, dy), and the piece then fits; on failure nothing changes |
| `Tetris.Rotate` | Tetris.py:157-161 | the new rotation (r + d) mod 4 is in 0..3; it is committed exactly when unblocked, and the piece then fits; otherwise nothing changes; the origin and the grid never change |
| `Tetris.ClearLines` | Tetris.py:142-148 | full rows are removed and the others keep their order below as many empty rows; the grid stays H x W; the score rises by exactly 100 per removed row; nothing else changes |
| `Tetris.Lock` | Tetris.py:132-140 | the invariant holds afterwards; the grid is the piece written in and then cleared; the score rises by 100 per completed row; the queued piece becomes current; a fresh piece is queued; the game is over exactly when it already was or the promoted piece is blocked |
| `Tetris.LockWithoutLines` | Tetris.py:133-136 | when no row completes, the grid afterwards differs from before exactly in the piece's on-grid cells, now of its kind, and the score is unchanged |
| `Tetris.DropOrLock` | Tetris.py:165-166 | if the squares below are free, the piece moves down one row and nothing else changes; otherwise the result is exactly `Lock` of the state (piece written in, full rows cleared and scored, the queued piece promoted, game over when it is blocked); the invariant and game over persist |
| `Tetris.Step` | Tetris.py:163-167 | before the interval has passed, nothing changes; after it, exactly one drop-or-lock happens and the drop time becomes `now`; the current piece is unchanged, one row lower, or the promoted one |
| `Tetris.StepNoCatchUp` | Tetris.py:163-167 | a late tick does the same single drop-or-lock however large the gap; only the recorded time differs |
| `Tetris.LeftWallStops` | Tetris.py:126 | a piece touching the left wall cannot move left, and the attempt changes nothing |
| `Tetris.RotateO` | Tetris.py:157-161 | while the game runs, an 'O' piece always turns and its cells stay where they were |
| `Tetris.Apply` | Tetris.py:150-167 | each single request keeps the invariant, never lowers the score and never clears game over |
| `Tetris.Run` | Tetris.py:112-167 | any sequence of moves, turns, drops and ticks keeps the invariant, so a running game's piece never collides; the score never falls; game over is never undone |

## Left out

- Rendering (`draw`, `draw_text`, fonts, colours, cell size, the next-piece preview) is left
  out. It only reads the state through pygame.
- The `run` loop is left out: event polling, key-repeat intervals, quitting and the wait after
  game over. It is I/O glue over float wall-clock time. Its key handlers call the modelled
  operations, and `Run` covers any sequence of those calls. Soft drop is `DropOrLock`.
- `start_menu`, `main` and the constants for the other games are left out. They are menu and
  process code, or configuration nothing here uses.
- `new_piece`'s `random.choice` is left out. The kind is supplied by the caller of `Init`,
  `Lock`, `DropOrLock` and `Step`.
- `time.time()` and the float `TICK_RATE` are replaced by integer millisecond timestamps. `step`
  reads the clock twice, once to compare and once to store. The model uses one `now` for both,
  so the stored time can be a few microseconds earlier than the original's.
- The original `rotate` returns nothing, so the model's rotation returns only the new state.
  Whether it committed can be read off its contract.
- Python's negative list indexing (a write at column -1 going to the last column) is not
  modelled. `Valid` proves that such a column never reaches `Stamp`.
