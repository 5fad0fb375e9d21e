# Minesweeper game engine and outcome recording, in Dafny

This project models the two parts of the minesweeper web game that hold its
rules.

- **The client's game engine** (`GameBoard.js`) is modelled in three modules:
  - `Grid` holds cells, the board as rows of cells, the eight-neighbourhood and mine counting.
  - `BoardGeneration` holds the difficulty presets, mine placement by rejection
    sampling over random draws, and the adjacent-mine counts.
  - `GameBoard` holds a `Session` class with the component's state (`board`,
    `gameOver`, `won`, `time`, `timerActive`, `gameId`). Its methods are the
    reveal handler, the flag handler, the win effect and the difficulty effect.
- **The backend's game controller** (`gameController.js`) is modelled in
  `GameController`. A `Store` class holds the Game and Leaderboard collections
  as two maps: games by id, and best times by (userId, difficulty).
- `Models` holds the difficulty and status enumerations of the backend schemas.
- `Wrappers` holds `Option`.

What is proved:
- A generated board is `rows` x `cols` and holds exactly `minesCount` mines,
  standing on the first `minesCount` distinct positions drawn.
- Every count on a generated board is 0 on a mine. On any other cell it is
  the number of mined positions in the cell's clipped 3x3 block, so it lies
  in [0, 8].
- Reveal and flag change one cell only. They keep mines and counts, and they
  never leave a cell both revealed and flagged.
- Toggling a flag twice restores the board.
- The win test holds exactly when every safe cell is revealed.
- A game that is over ignores every action.
- On the backend, the leaderboard holds the minimum of all qualifying winning
  times of each (user, difficulty).

Where this code departs from the usual minesweeper rules, the model follows the code:
- There is no flood fill. Line 115 skips it.
- There is no flag budget.
- A loss does not reveal the other mines.
- A flagged cell cannot be revealed, so reveal never clears a flag.
- A right click reveals and a left click flags.
- The presets are 8x8/10, 16x16/40 and 16x30/99. Any name other than
  'medium' or 'hard' selects the easy board.

Random draws are an input. `Math.floor(Math.random() * n)` becomes a sequence
of in-bounds positions. `GenerateBoard` returns `None` exactly when the draws
contain fewer than `minesCount` distinct positions, which is when the source's
loop would still be sampling.

The session methods mirror React's render cycle:
- `RightClick` runs the reveal handler. If the handler handed React a new
  board, it then runs the win effect.
- `LeftClick` runs the flag handler, which always hands React a new board
  while the game runs, and then runs the win effect.
- `ChangeDifficulty` runs the difficulty effect and then the win effect.

`ChangeDifficulty` keeps the previous game's `gameId`. Until the creation
request answers, an outcome is reported under the old game's id.

## Model

| member | source | states |
|---|---|---|
| BoardGeneration.GetBoardParams | minesweeper-frontend/src/components/GameBoard.js:55-63 | 'medium' gives 16x16/40, 'hard' gives 16x30/99, every other name ('easy' and unknown ones) gives 8x8/10; every preset has 0 < mines < rows*cols |
| BoardGeneration.PlaceMines | minesweeper-frontend/src/components/GameBoard.js:7-20 | the sampling loop stops at minesCount mines or when the draws run out; a draw on a mine is skipped, so the mines stand exactly on the distinct drawn positions and their number is the mine total; every cell stays hidden with count 0 |
| BoardGeneration.PlaceStep | minesweeper-frontend/src/components/GameBoard.js:16-19 | placing a mine on a drawn cell without one adds that position to the mined set and exactly one mine to the total; the board stays hidden and uncounted |
| BoardGeneration.CountNeighbours | minesweeper-frontend/src/components/GameBoard.js:23-38 | the eight-offset loop counts the in-bounds mined neighbours: the result equals the size of the cell's clipped 3x3 mined set and is at most 8 |
| BoardGeneration.FillCounts | minesweeper-frontend/src/components/GameBoard.js:29-42 | after the sweep every non-mine cell holds its adjacent-mine count and every mine keeps 0; mines, revealed and flagged bits are unchanged |
| BoardGeneration.FillRow | minesweeper-frontend/src/components/GameBoard.js:30-41 | one row of the sweep: afterwards every cell of that row and the rows before holds its final count, every later cell still holds 0, and only counts changed |
| BoardGeneration.GenerateBoard | minesweeper-frontend/src/components/GameBoard.js:5-44 | None exactly when the draws hold fewer than minesCount distinct positions; otherwise a rows x cols board whose mines stand exactly on the first minesCount distinct draws, all cells hidden and unflagged, all counts correct |
| BoardGeneration.FirstDistinctSize | minesweeper-frontend/src/components/GameBoard.js:13-19 | the first n distinct draws, the reference definition of where the loop puts mines, are drawn positions, number min(n, distinct draws), and are all the distinct draws when there are at most n |
| BoardGeneration.FirstDistinctStable | minesweeper-frontend/src/components/GameBoard.js:13 | once a prefix of the draws holds n distinct positions, the draws after it change nothing, as the loop stops there |
| Grid.BoardMinesUpdate | minesweeper-frontend/src/components/GameBoard.js:16-18 | replacing one cell changes the mine total by the difference of the two cells, so a mine placed on a free cell adds exactly one |
| Grid.AdjacentMinesIsNeighbourCount | minesweeper-frontend/src/components/GameBoard.js:33-37 | the count over the eight offsets equals the number of mined positions in the clipped 3x3 block without the centre, and lies in [0, 8] |
| Grid.CountsCorrectMeaning | minesweeper-frontend/src/components/GameBoard.js:29-42 | on a board with correct counts, a mine's count is 0, a safe cell's count is the size of its neighbour mine set, and every count lies in [0, 8] |
| Grid.SameLayoutKeepsCounts | minesweeper-frontend/src/components/GameBoard.js:106 | boards that differ only in revealed and flagged bits have the same mine total and agree on whether their counts are correct |
| Grid.SomeSafeCell | minesweeper-frontend/src/components/GameBoard.js:13 | a rows x cols board with fewer than rows*cols mines has a cell without a mine |
| GameBoard.CheckWinCondition | minesweeper-frontend/src/components/GameBoard.js:131-142 | true iff every non-mine cell is revealed; flags are ignored and the empty board passes |
| GameBoard.CheckWinConditionGuarded | minesweeper-frontend/src/components/GameBoard.js:131-142 | corrected test: true iff the board is non-empty and every non-mine cell is revealed |
| GameBoard.RevealKeepsInvariants | minesweeper-frontend/src/components/GameBoard.js:104-106 | revealing an unflagged cell reveals that cell and no other, changes no flag, mine or count, and keeps every cell from being both revealed and flagged |
| GameBoard.ToggleKeepsInvariants | minesweeper-frontend/src/components/GameBoard.js:125-126 | flipping the flag of a hidden cell changes that cell's flag only, reveals nothing, keeps mines and counts, and keeps every cell from being both revealed and flagged |
| GameBoard.ToggleTwice | minesweeper-frontend/src/components/GameBoard.js:126 | toggling the same cell twice restores the board |
| GameBoard.FreshBoardNotWon | minesweeper-frontend/src/components/GameBoard.js:131-142 | a generated board with fewer mines than cells is non-empty and fails the win test |
| GameBoard.Session.StatusReport | minesweeper-frontend/src/components/GameBoard.js:156-162 | no report without a truthy game id; otherwise the report carries the id, the status and the elapsed seconds |
| GameBoard.Session.Mount | minesweeper-frontend/src/components/GameBoard.js:144-154 | as written, the first commit's win effect sees the initial empty board and gameOver false, so the mounted session is won and over with its timer stopped, on a freshly generated board whose mines are the first distinct draws |
| GameBoard.Session.MountGuarded | minesweeper-frontend/src/components/GameBoard.js:144-154 | with the guarded test, the mounted session is in progress with its timer running, on a freshly generated board of the preset's size whose mines are its first mine-count distinct draws |
| GameBoard.Session.NewGame | minesweeper-frontend/src/components/GameBoard.js:65-73 | a fresh board of the preset's shape whose mines are the first mine-count distinct draws; gameOver and won cleared, time 0, timer active; gameId kept |
| GameBoard.Session.ChangeDifficulty | minesweeper-frontend/src/components/GameBoard.js:65-84 | after a difficulty change and the following win effect the game is in progress on a fresh board whose mines are the first mine-count distinct draws, and the previous gameId is still in place |
| GameBoard.Session.GameCreated | minesweeper-frontend/src/components/GameBoard.js:77-78 | the backend's id becomes the session's game id |
| GameBoard.Session.Tick | minesweeper-frontend/src/components/GameBoard.js:87-97 | one interval firing adds a second only while the timer is active and the game is not over |
| GameBoard.Session.Reveal | minesweeper-frontend/src/components/GameBoard.js:99-119 | no-op once over or on a flagged or revealed cell; otherwise exactly (r,c) is revealed (no flood fill); a mine sets gameOver, stops the timer and reports 'lost'; a safe cell changes nothing else |
| GameBoard.Session.ToggleFlag | minesweeper-frontend/src/components/GameBoard.js:121-129 | no-op once over; otherwise a hidden cell's flag flips with no flag limit, a revealed cell is left alone, and nothing but the board changes |
| GameBoard.Session.WinEffect | minesweeper-frontend/src/components/GameBoard.js:144-154 | when the render's game is not over and its board passes the win test: won, gameOver, timer stopped and 'won' reported; otherwise nothing changes |
| GameBoard.Session.WinEffectGuarded | minesweeper-frontend/src/components/GameBoard.js:144-154 | the same effect with the empty board excluded |
| GameBoard.Session.RightClick | minesweeper-frontend/src/components/GameBoard.js:99-119 | reveal then win effect: only (r,c) changes; a mine loses the game; a safe cell wins it iff every safe cell is now revealed; a finished game ignores the click |
| GameBoard.Session.LeftClick | minesweeper-frontend/src/components/GameBoard.js:121-129 | flag then win effect: the board is toggled at a hidden (r,c) only; a finished game ignores the click |
| GameBoard.FirstRevealAfterMount | minesweeper-frontend/src/components/GameBoard.js:144-154 | as written, the first right click on a mounted game reveals nothing and reports nothing: the game is already won |
| GameBoard.FirstRevealAfterGuardedMount | minesweeper-frontend/src/components/GameBoard.js:144-154 | with the guarded test, the first right click reveals its cell; the game is over iff it hit a mine or revealed the last safe cell |
| GameController.Store.CreateGame | minesweeper-backend/controllers/gameController.js:5-22 | inserts a game of the user and difficulty with status in_progress and no time under a fresh id; the leaderboard is unchanged |
| GameController.Store.UpdateGameStatus | minesweeper-backend/controllers/gameController.js:24-65 | unknown id: NotFound and no change; else status overwritten, time stored only if truthy, leaderboard changed only on a won status with a truthy time and only at the stored game's (userId, difficulty), to min(old best, time) or time if absent |
| GameController.BestTimeAfter | minesweeper-backend/controllers/gameController.js:44-57 | the new best is the minimum of the old best and the time, or the time when there was no entry; the old best is replaced only by a strictly lower time |
| GameController.BestOfIsMinimum | minesweeper-backend/controllers/gameController.js:40-57 | the best time kept per (user, difficulty) is absent iff no qualifying win of that pair was recorded, and otherwise is the smallest of their times |

## Findings

| source | as written | input that shows it | evidently intended | confidence | as-written member | corrected member |
|---|---|---|---|---|---|---|
| minesweeper-frontend/src/components/GameBoard.js:131-154 | On the first commit, the win effect runs with the first render's values. Those are `board = []` and `gameOver = false`. The loop at line 134 runs no row, so `checkWinCondition` answers true. The effect sets `won` and `gameOver` and stops the timer, and these updates come after the difficulty effect's resets. | Mount the component with difficulty 'easy' and any draws. The game shows as won, and every click is ignored. | A freshly started game is in progress until its last safe cell is revealed. | medium, not executed | GameBoard.Session.Mount (with GameBoard.FirstRevealAfterMount) | GameBoard.Session.MountGuarded (with GameBoard.CheckWinConditionGuarded and GameBoard.FirstRevealAfterGuardedMount) |

After mounting, the model runs the win effect through `WinEffectGuarded`.
`RightClick`, `LeftClick` and `ChangeDifficulty` do the same. On every
non-empty board, `WinEffectGuarded` behaves exactly like `WinEffect`.

## Left out

- BoardGeneration.GenerateBoard: the random draws are a finite input. When they
  run out, the result is `None`. The source keeps sampling instead, and it
  stops with probability 1 only because every preset has fewer mines than cells.
- BoardGeneration.GenerateBoard: a zero-row or zero-column board with mines to
  place makes the source fail on `board[0]`. No preset has one, and the
  in-bounds requirement on the draws excludes it.
- GameBoard.Session.Tick: the interval and wall-clock time are not modelled.
  One call stands for one firing of the one-second interval.
- Network calls are not modelled. These are `API.post('/games')`, the `PUT`
  of `updateGameStatus` and their failures. The model produces `Report`
  values and receives ids through `GameCreated`.
- Rendering, `e.preventDefault` and the other UI components are not modelled.
- React StrictMode's second effect run is not modelled.
- The aliasing of rows between `board` and `[...board]` is not modelled. The
  board is a value. The aliasing cannot be observed, because each mutation is
  followed by `setBoard` with the mutated array.
- JavaScript numbers are unbounded integers here. No time or count comes near
  2^53.
- GameController.Store.UpdateGameStatus: the status and the difficulty are
  enumerations. The schema's rejection of other strings on save (a 500
  answer) is not modelled, and neither are the other 500 paths.
- GameController.Store.UpdateGameStatus: no ownership check is modelled,
  because the source has none.
- GameController.Store.UpdateGameStatus: the `findOne` then `create` pair is
  not atomic. Concurrent requests are not modelled.
- Neither endpoint succeeds as written; the model describes what the calls
  evidently mean. `Game.findByPk` (gameController.js:29) is not a Mongoose
  method, so every `PUT /games/:gameId` throws and answers 500 before
  anything is saved. The middleware sets `req.user.userId`
  (authMiddleware.js:19) but the controller reads `req.user.id`
  (gameController.js:8), so `Game.create` fails the schema's required
  `userId` and every `POST /games` answers 500. The client then keeps
  `gameId` null and never sends an outcome (GameBoard.js:79-81 and 157).
- GameController.Store.UpdateGameStatus: the game is looked up by id and the
  leaderboard entry by (userId, difficulty), the evident meaning of
  `findByPk` and of `findOne({ where })`; the latter is another ORM's query
  form, not Mongoose's plain filter, so its effect as written is not modelled.
- GameController.Store.CreateGame: the user id is a parameter, the
  authenticated user the middleware evidently means to pass on.
- The `wins` log behind `Store.Valid` starts with an empty leaderboard. An
  existing database is not modelled.
- Authentication, the user and leaderboard controllers, routes and server
  wiring are not part of this model.
