# Falling-block game simulation in Dafny

This project models the game logic of `GPTs_Tetris.py`, a single-player falling-block
game written with tkinter. The board is 20 rows by 10 columns. There are seven
four-cell pieces (I, O, T, S, Z, J, L). One piece falls at a time, and a preview shows
the next piece. A full row is cleared for 500 points and each new piece is worth 100.
After a game over, the in-memory ranking keeps the three best scores. The tkinter
drawing, key bindings, timer scheduling and CSV file access are left out. What remains
is a deterministic state machine, and this project models and proves it.

Files and modules:

- `shapes.dfy`, module `Shapes`: the table of the seven shapes and the quarter turn
  `(x, y) -> (y, -x)` that a rotation applies.
- `grid.dfy`, module `Grid`: the board as a `seq<seq<bool>>` (true = occupied). It holds
  the position check `IsValidPosition`, the marking of a settled piece (`Stamped`), the
  row filter of a line clear (`NonFull`, `Cleared`) and the landing search used by the
  drop preview (`LandingPosition`, a `while` loop).
- `high_scores.dfy`, module `HighScores`: sorting the score list in descending order and
  keeping its first three entries.
- `rules.dfy`, module `Rules`: the state of the `Tetris` object as a value (`Game`) and
  one function per operation. `Inv` is the invariant that every handler keeps, and
  `Run` applies any sequence of key presses (the return key restarts) and timer ticks.
- `game.dfy`, module `Game`: class `Tetris`, whose fields are the source's attributes.
  Its methods update those fields step by step as the source does. For example, `Place`
  loops over the piece's cells and writes the board one cell at a time. Each method is
  proved to produce exactly the state that the matching `Rules` function gives.

Modelling decisions:

- A board cell holds either a canvas rectangle id or `None` in the source. Only "is
  `None`" is ever read, so a cell is a boolean here.
- `random.choice(list(TETROMINOS.values()))` becomes a parameter `pick`, an index into
  the shape table in the dictionary's order I, O, T, S, Z, J, L.
- `load_high_scores` reads a file. It becomes the parameter `history`, the list of
  integers read from that file. A restart (the return key) runs `init_game` again,
  which reloads the file, so the restart event `Rules.KeyReturn` carries the list it
  reads.
- The class methods require `Valid()`, that is, a game that has been started. Before the
  first start, `current_tetromino` is `None` and `current_position` is `None`: the
  move keys fail on `current_position[0]` (GPTs_Tetris.py:178, 186, 194), the up key
  fails when it iterates over the piece, and the space bar sets the flag and the
  interval before it fails in `draw_prediction` (GPTs_Tetris.py:252). Every state reached from a start satisfies `Rules.Inv`:
  `Rules.Start` establishes it and `Rules.Run` preserves it.
- Python integers are unbounded, and so are Dafny's. Scores are `nat`.

Three behaviours of the code worth noting:

- Only the timer checks `is_game_over` (GPTs_Tetris.py:275). The key handlers do not
  check it. After a game over, the down key can still settle the piece and spawn
  another one. That spawn adds 100 points and, when that piece does not fit either,
  calls `game_over` again, which saves the score again. When the settle clears the
  top rows so that the new piece fits, the flag stays set and the ranking is
  unchanged (`Rules.Settle`). `Rules.KeysAfterGameOver` states the settle.
- `new_tetromino` only ever sets `is_game_over` to true. It never resets the flag, so
  after a spawn the flag is "it was already set, or the new piece does not fit".
- A rotation builds a new offset list (GPTs_Tetris.py:206). The shape table itself is
  never changed, so every spawned piece is one of the seven original shapes.

## Model

| member | source | states |
|---|---|---|
| `Shapes.Rotated` | GPTs_Tetris.py:206 | a rotation keeps the number of cells, and the opposite quarter turn (x, y) -> (-y, x) gives back each original offset |
| `Shapes.ShapesAreTetrominos` | GPTs_Tetris.py:19-27 | each of the seven shapes has exactly four distinct cells, with column offsets in 0..3 and row offsets in 0..1 |
| `Shapes.RotatedTwice` | GPTs_Tetris.py:206 | two quarter turns negate every offset (a half turn), keeping the list length |
| `Shapes.RotatedFourTimes` | GPTs_Tetris.py:206 | the turn (x, y) -> (y, -x) has order four: four turns give back every offset list unchanged |
| `Shapes.RotatedKeepsCells` | GPTs_Tetris.py:206 | a turn keeps the number of cells and never makes two distinct cells coincide |
| `Grid.IsValidPosition` | GPTs_Tetris.py:149-158 | true exactly when every cell is within columns 0..9 and above row 20 and, when its row is at least 0, lands on an empty cell; cells above the board are not checked for occupancy |
| `Grid.Stamped` | GPTs_Tetris.py:160-170 | marking an in-bounds piece keeps the board 20 rows of 10 cells |
| `Grid.StampedCells` | GPTs_Tetris.py:160-170 | after marking, a cell is occupied exactly when it was occupied before or a piece cell lies on it; cells above the board are dropped |
| `Grid.CountFull` | GPTs_Tetris.py:234 | the number of full rows is at most the number of rows, and it is zero exactly when no row is full |
| `Grid.NonFull` | GPTs_Tetris.py:233 | the kept rows are exactly the board's rows that have an empty cell, none of them is full, and their number is the row count minus the number of full rows |
| `Grid.NonFullAppend` | GPTs_Tetris.py:233 | the filter preserves order: filtering two stacked parts is filtering each and stacking the results |
| `Grid.NonFullAll` | GPTs_Tetris.py:233 | with no full row the filter keeps the board as it is |
| `Grid.Cleared` | GPTs_Tetris.py:233-237 | the board after a clear is still 20 rows of 10 cells and has no full row |
| `Grid.ClearedRows` | GPTs_Tetris.py:233-237 | after a clear the top N rows are empty (N = number of full rows), and below them are the non-full rows in their original order |
| `Grid.ClearedWithoutFullRow` | GPTs_Tetris.py:234-238 | with no full row a clear leaves the board unchanged |
| `Grid.LandingPosition` | GPTs_Tetris.py:252-255 | the landing search keeps the column and never moves up; every row it passes through is valid and the row below its result is not, so the result is the first row whose successor is invalid; it terminates because a row past the floor is never valid |
| `HighScores.Insert` | GPTs_Tetris.py:301 | inserting into a descending list gives a descending list with the same scores plus the new one |
| `HighScores.SortDescending` | GPTs_Tetris.py:301 | `sorted(..., reverse=True)`: the result is descending and a permutation of the input |
| `HighScores.TopThree` | GPTs_Tetris.py:301 | the ranking has min(3, n) entries in descending order, all taken from the list |
| `HighScores.TopThreeIsRanking` | GPTs_Tetris.py:300-301 | no entry the ranking drops is above an entry it keeps, so the kept entries are the highest |
| `Rules.Init` | GPTs_Tetris.py:66-80 | the initialised game has an empty board (well-formed, no full row), the chosen shape as next piece, score 0, the loaded history, is not over, has no hard drop and the 500 ms interval |
| `Rules.SpawnedShape` | GPTs_Tetris.py:138-140 | a shape from the table, placed at the spawn origin [0, 3], has four distinct cells, all within the walls and above the floor |
| `Rules.GameOver` | GPTs_Tetris.py:279-282 | game over sets the flag and replaces the ranking with the top three of the old list plus the final score; nothing else changes |
| `Rules.Spawn` | GPTs_Tetris.py:136-147 | the old next piece becomes current at [0, 3], the picked shape becomes next, the score grows by exactly 100, and the board is unchanged; the game is over exactly when it already was or the new piece does not fit, and only then is the ranking updated with the new score |
| `Rules.Start` | GPTs_Tetris.py:313-317 | a new game has an empty board, score 100, is not over, keeps normal speed and the loaded history, and satisfies the invariant |
| `Rules.MoveLeft` | GPTs_Tetris.py:176-182 | only the column can change; it decreases by one exactly when the piece fits there, and otherwise the state is unchanged; the invariant is kept |
| `Rules.MoveRight` | GPTs_Tetris.py:184-190 | only the column can change; it increases by one exactly when the piece fits there, and otherwise the state is unchanged; the invariant is kept |
| `Rules.Rotate` | GPTs_Tetris.py:204-210 | only the shape can change; it becomes the turned shape when that fits at the same origin, and otherwise the state is unchanged; the origin never changes and the invariant is kept |
| `Rules.HardDrop` | GPTs_Tetris.py:212-216 | only the flag and the interval change (to 50 ms); the piece is not moved |
| `Rules.Place` | GPTs_Tetris.py:160-174 | settling changes only the board, clears the hard-drop flag and resets the interval to 500 ms; the piece still fits the board's shape |
| `Rules.PlaceMarksPiece` | GPTs_Tetris.py:160-170 | exactly the piece's on-board cells become occupied; every other cell keeps its value |
| `Rules.ClearLines` | GPTs_Tetris.py:231-238 | the board becomes the cleared board and the score grows by exactly 500 per full row; with no full row, nothing changes |
| `Rules.Settle` | GPTs_Tetris.py:197-200 | place, clear and spawn: the new board is the clear of the marked board, its non-full rows sit at the bottom, the score grows by 500 per full row plus 100, the next piece spawns at [0, 3], the hard drop ends, and the invariant is kept; the game is over exactly when it already was or the new piece does not fit on the cleared board; the ranking is unchanged when it fits and is the top three of the old ranking plus the new score when it does not |
| `Rules.MoveDown` | GPTs_Tetris.py:192-202 | when the row below fits, only the row grows by one; otherwise the piece settles; the score never decreases and the invariant is kept |
| `Rules.Tick` | GPTs_Tetris.py:273-276 | the timer changes nothing once the game is over, and is a move down otherwise |
| `Rules.StartThenTick` | GPTs_Tetris.py:313-318 | the tick that starting a game runs at once moves the first piece to row 1 and changes nothing else |
| `Rules.KeysAfterGameOver` | GPTs_Tetris.py:192-200 | after game over the timer is inert, but a down key that cannot move the piece still settles it, raises the score and leaves the game over |
| `Rules.Handle` | GPTs_Tetris.py:50-55 | every bound key and the tick keep the invariant; apart from the return key they never lower the score and never clear the game-over flag; the return key starts a new game on an empty board with score 100, not over, with the loaded history |
| `Rules.Run` | GPTs_Tetris.py:50-55 | over any sequence of key presses and ticks the invariant holds; within one game (no return key) the score never decreases and a game that is over stays over |
| `Rules.RunConcat` | GPTs_Tetris.py:50-55 | handling two input sequences one after the other is handling their concatenation |
| `Rules.RestartForgets` | GPTs_Tetris.py:313-318 | whatever inputs came before a restart, the inputs after it act on a freshly started game: the restart forgets the in-memory state (scores the earlier game saved to the file come back only through the history it loads) |
| `Game.Tetris.constructor` | GPTs_Tetris.py:46-47 | construction leaves the object in the initialised state |
| `Game.Tetris.InitGame` | GPTs_Tetris.py:66-80 | empty board, no piece yet, the first next piece, not over, no hard drop, 500 ms, score 0, and the loaded history |
| `Game.Tetris.StartGame` | GPTs_Tetris.py:313-318 | initialise, spawn, and run one tick: the first piece is at row 1, the score is 100, and the next tick is due after 500 ms |
| `Game.Tetris.UpdateScore` | GPTs_Tetris.py:131-134 | adds the points to the score and changes nothing else |
| `Game.Tetris.NewTetromino` | GPTs_Tetris.py:136-147 | the fields become the state `Rules.Spawn` gives |
| `Game.Tetris.GameOver` | GPTs_Tetris.py:279-282 | the fields become the state `Rules.GameOver` gives |
| `Game.Tetris.SaveScore` | GPTs_Tetris.py:300-301 | appends the score and keeps the top three in descending order; nothing else changes |
| `Game.Tetris.Place` | GPTs_Tetris.py:160-174 | the cell loop marks exactly the piece's on-board cells and resets the hard drop, as `Rules.Place` gives |
| `Game.Tetris.ClearLines` | GPTs_Tetris.py:231-238 | the fields become the state `Rules.ClearLines` gives |
| `Game.Tetris.MoveLeft` | GPTs_Tetris.py:176-182 | the fields become the state `Rules.MoveLeft` gives, and the invariant is kept |
| `Game.Tetris.MoveRight` | GPTs_Tetris.py:184-190 | the fields become the state `Rules.MoveRight` gives, and the invariant is kept |
| `Game.Tetris.MoveDown` | GPTs_Tetris.py:192-202 | the fields become the state `Rules.MoveDown` gives; the score does not decrease |
| `Game.Tetris.RotateTetromino` | GPTs_Tetris.py:204-210 | the fields become the state `Rules.Rotate` gives, and the invariant is kept |
| `Game.Tetris.HardDrop` | GPTs_Tetris.py:212-216 | the fields become the state `Rules.HardDrop` gives |
| `Game.Tetris.Tick` | GPTs_Tetris.py:273-277 | the fields become the state `Rules.Tick` gives; the next tick is requested after the current interval unless the game was already over |

## Left out

- Drawing is not modelled. This covers `draw_tetromino`, `draw_next_tetromino`, the
  drawing half of `draw_prediction`, the canvas redraw in `clear_lines`
  (GPTs_Tetris.py:240-248), the "Game Over" text and the `create_*_window` widgets.
  It is tkinter presentation with no effect on the game state.
- `update_high_scores` (the label refresh) is not modelled, because it is presentation.
  It indexes its three labels by position in the whole list (GPTs_Tetris.py:128-129),
  and the constructor calls it on the list loaded from the file (GPTs_Tetris.py:64,
  124). Every game over appends a row to that file (GPTs_Tetris.py:289-298), the
  repeated ones after a block-out included. Once the file holds four scores, the
  constructor raises `IndexError`, so the program no longer starts. The model's
  constructor accepts any `history`.
- Key bindings and `root.after` (GPTs_Tetris.py:50-55, 277) are the tkinter event loop.
  Each handler is a method call, and `Tick` returns the delay it would schedule.
  Starting again while a game runs leaves the old timer chain running beside the new
  one. Those interleaved timer callbacks are not modelled.
- The CSV writes in `save_score` (GPTs_Tetris.py:289-298) and the file read in
  `load_high_scores` (GPTs_Tetris.py:303-311) are not modelled, because they are file
  I/O. The file's contents enter as the `history` parameter, and a malformed file is
  not modelled.
- `random.choice` is replaced by the caller-supplied index `pick`.
- `current_rotation` (GPTs_Tetris.py:72, 141) is written but never read, so it is not
  modelled.
- The state before the first start, when `current_tetromino` is `None`, is modelled as
  an empty shape. Key presses in that state make the source fail, and they are outside
  the model: the methods require a started game.
- setup.py is packaging configuration and is not part of this model.
