# Tetris game engine — a verified Dafny model

This project models the game-state engine of a browser Tetris game, the
`Tetris` class of `tetris.js`:

- the piece table: seven kinds, four orientations, four `(dx, dy)` offsets each;
- the 10 × 20 board, held as a column-major 2-D array `stage[x, y]` like the
  source's `virtualStage[x][y]`;
- the placement test, locking a piece, and the bottom-up row-clearing scan
  that examines the same row index again after each removal;
- scoring and levels;
- the falling-piece commands: fall, soft drop, hard drop, left, right, and
  rotate with the simple wall kick;
- the session and clock steps: start, pause, spawn, and the descent timer.

Four modules:

- `Pieces`: the shape table.
- `Board`: pure definitions on a row-major value view of the board (`Grid`).
  - `Placeable` is the placement rule.
  - `Fixed` is the board after a lock.
  - `Compact` is the board after every full row is removed: one empty row per
    removed row on top, then the other rows in order.
  - `LandingY` is where a hard drop stops.
  - `Kick` is the rotation with the wall kick.
- `Scoring`: the line points, the level rule, `Credit` (the effect of one
  lock) and the descent interval.
- `Game`: the class `Tetris`.
  - Its fields are the source's fields.
  - A ghost field `cells` is the `Grid` view of `stage`, kept equal to it by
    `Valid()`.
  - Each method's contract states its new state with the `Board` and
    `Scoring` definitions.
  - The loops are proved against those definitions. `CheckBlockMove` computes
    `Placeable`, `WriteBlock` computes `Fixed`, `RemoveFullRows` computes
    `Compact`, and `DropToLanding` computes `LandingY`.
  - `Safe()` holds before and after every command, `TogglePause` included:
    while the game is not over, the falling piece is placeable.

The model follows the code in these points:

- The input commands check only whether a piece is falling, not `paused` or
  `gameOver`. After a failed spawn the piece stays set, so game over does not
  end these commands.
- The "is a piece falling" test is the intended null test (`NoPiece`), not the
  source's truthiness test on the piece's table index, which also fails for a
  falling I piece (index 0). That difference is the one entry under
  "## Findings", and `Game.NoPieceAsWritten` models the test as written.
- The first spawn in `startGame` is not checked. `Board.SpawnOnEmptyBoard`
  shows that it always fits.
- `startGame` does not reset the descent accumulator.
- Locked cells above row 0 are dropped.

Two consequences of the code that the lemmas make explicit:

- At the spawn anchor (4, -1), I, J, L and T lie wholly above the board. They
  always spawn; if they cannot fall they lock entirely off the board and
  vanish (`Board.SpawnAboveBoard`).
- Only O, S and Z reach row 0 at the spawn anchor, so only they can make a
  spawn fail. O and Z fail when (4, 0) or (5, 0) is occupied, S when (3, 0)
  or (4, 0) is (`Board.SpawnFits` states this exactly). An occupied (4, 0)
  stops all three (`Board.SpawnBlockedAtCentre`).

Randomness and time are parameters:

- `StartGame(first, second)`, `Update(next)` and `Advance(deltaMs, next)` take
  the kinds that `getRandomBlock` would draw.
- `Advance` takes the milliseconds elapsed since the previous frame.
- `ended` reports a game over, the point where the source saves the high score.

## Model

| member | source | states |
|---|---|---|
| Pieces.Shape | tetris.js:70-152 | every orientation has four offsets, including the anchor (0, 0), all within [-1, 2] in both coordinates |
| Pieces.ShapeCellsDistinct | tetris.js:70-152 | the four cells of every orientation are distinct |
| Pieces.RotationalSymmetry | tetris.js:70-152 | O is the same in every orientation, I, S and Z repeat after two steps, J, L and T have four distinct orientations |
| Pieces.NextAngle | tetris.js:466 | one rotation step is `(angle + 1) % 4` |
| Pieces.Index | tetris.js:70-152 | a kind's position in the block table is below 7, and only I is at position 0 |
| Pieces.IndexInjective | tetris.js:70-152 | distinct kinds have distinct table positions |
| Board.PlaceableAnchor | tetris.js:342-358 | a placeable piece has its anchor inside the side walls and not below the floor, and on an empty cell when it is on the board |
| Board.Put | tetris.js:364-366 | setting one cell changes that cell when it is on the board and nothing else |
| Board.WriteCellsAt | tetris.js:360-368 | writing a list of offsets sets exactly the listed on-board cells to the kind |
| Board.FixedAt | tetris.js:360-368 | locking writes the kind into exactly the piece's cells that lie on the board and leaves every other cell unchanged; cells above row 0 are dropped |
| Board.FixedBlocksSamePlace | tetris.js:342-368 | after a lock with the anchor on the board, the piece is no longer placeable where it was locked |
| Board.SurvivorsShape | tetris.js:372-396 | the kept rows number the rows minus the full rows, and each is a non-full row of the board |
| Board.CompactWellFormed | tetris.js:372-396 | compaction keeps a 20 × 10 board |
| Board.NoFullRowAfterCompact | tetris.js:372-396 | after clearing, no row is full, the top n rows are empty, and below them lie the non-full rows in their original order |
| Board.NoFullRowCount | tetris.js:372-396 | a board with no full row has nothing to clear |
| Board.CompactIdempotent | tetris.js:372-396 | a second clearing pass changes nothing |
| Board.CompactOccupied | tetris.js:372-396 | clearing n rows removes exactly 10·n occupied cells |
| Board.OccupiedAppend | tetris.js:372-396 | occupied cells add up over stacked parts of the board |
| Board.SurvivorsOccupied | tetris.js:372-396 | the kept rows hold all occupied cells except 10 per full row |
| Board.CompactKeepStep | tetris.js:374-382 | a non-full examined row joins the finished part of the scan unchanged |
| Board.CompactRemoveStep | tetris.js:383-394 | removing a full row (shift down, empty top row, same index again) does not change the final result and uses up one full row |
| Board.LandingY | tetris.js:439-444 | the hard-drop resting row is at or below the start, the row below it is not placeable, and every row passed through is placeable |
| Board.PassesDownRows | tetris.js:441-444 | the descent predicate holds exactly when every row from below the start down to the end row is placeable |
| Board.PassesDownExtend | tetris.js:441-444 | one more placeable row extends a descent |
| Board.LandingYUnique | tetris.js:441-444 | the resting row is the only one that can be reached row by row and from which the piece cannot go on |
| Board.Kick | tetris.js:464-482 | rotation tries x, then x-1, then x+1, adopts the first placeable one, and refuses only when all three fail |
| Board.LeftWallKick | tetris.js:464-482 | against the left wall only the x+1 kick can succeed |
| Board.SpawnOnEmptyBoard | tetris.js:155-173 | every kind fits at the spawn anchor on an empty board, so the unchecked first spawn is sound |
| Board.SpawnBlockedAtCentre | tetris.js:243-259 | O, S and Z cannot spawn when cell (4, 0) is occupied |
| Board.SpawnAboveBoard | tetris.js:243-259 | I, J, L and T always spawn, and locking them at the spawn anchor leaves the board as it was |
| Board.SpawnFits | tetris.js:243-259 | the spawn at (4, -1, 0) succeeds exactly when: for O and Z, cells (4, 0) and (5, 0) are empty; for S, cells (3, 0) and (4, 0) are empty; for I, J, L and T, always |
| Board.PlaceableCells | tetris.js:342-358 | the placement test passes exactly when each of the four cell tests passes |
| Scoring.LinePoints | tetris.js:400-401 | 1, 2, 3 and 4 rows pay 100, 300, 500 and 800; more than four rows pay 200·n; zero rows pay nothing |
| Scoring.LinePointsIncrease | tetris.js:400-401 | more rows in one lock always pay more, and at least 100 a row |
| Scoring.LevelFor | tetris.js:405 | the level is at least 1 and rises by one every ten cleared rows |
| Scoring.Credit | tetris.js:398-408 | for n > 0 rows the score gains LinePoints(n), lines gain n, and the level becomes max(level, lines/10 + 1); with n = 0 nothing changes |
| Scoring.CreditKeepsLevel | tetris.js:402-408 | when the level matches the cleared rows before a lock it matches them after it |
| Scoring.EffectiveInterval | tetris.js:207 | the descent interval is max(80, base − 40·(level − 1)), never below 80 ms |
| Scoring.IntervalShrinks | tetris.js:207 | a higher level never descends more slowly |
| Game.NoPieceAsWrittenMissesI | tetris.js:228 | the source's "no piece" test on the table index is also true for a falling I piece, and differs from "no piece" only there |
| Game.Tetris.constructor | tetris.js:38-47 | a new game starts as a new session: empty board, zero score and lines, level 1, first piece at the spawn anchor, zero accumulator |
| Game.Tetris.StartGame | tetris.js:155-173 | a fresh empty board, score and lines zero, level 1, interval 500, not paused or over, `first` falling at (4, -1, 0), `second` queued, accumulator untouched |
| Game.Tetris.Restart | tetris.js:180-184 | restart is a fresh session |
| Game.Tetris.TogglePause | tetris.js:186-195 | pausing flips the flag unless the game is over, where it does nothing; `Safe()` is kept |
| Game.Tetris.Advance | tetris.js:197-212 | paused or over: nothing changes; otherwise the accumulator grows by deltaMs, and once it reaches the level's interval it is reset to 0 and one automatic step runs; below the interval only the clock changes |
| Game.Tetris.Update | tetris.js:227-241 | with no falling piece the queued one spawns and the game ends exactly when it is not placeable; otherwise the piece falls one step |
| Game.Tetris.SpawnBlock | tetris.js:243-251 | the queued piece becomes the falling one at (4, -1) in orientation 0, and the new draw is queued |
| Game.Tetris.CreateNewBlock | tetris.js:253-259 | spawns and reports whether the spawned piece is placeable |
| Game.Tetris.CheckBlockMove | tetris.js:342-358 | the cell-by-cell test with its early returns answers exactly `Placeable`: every cell inside the side walls, not below the floor, and empty when it is on the board |
| Game.Tetris.FixBlock | tetris.js:360-370 | the board becomes the compacted locked board, and progress is credited with its full rows |
| Game.Tetris.WriteBlock | tetris.js:360-368 | the write loop produces exactly `Fixed` |
| Game.Tetris.SetCell | tetris.js:364-366 | one guarded write is `Put` on the board view, and the array stays in step |
| Game.Tetris.ClearFullLines | tetris.js:372-411 | the board becomes `Compact` of the old board, and score, lines and level are `Credit`ed with the number of full rows |
| Game.Tetris.RemoveFullRows | tetris.js:373-396 | the bottom-up scan with its same-index re-check ends with the compacted board and counts exactly the full rows |
| Game.Tetris.RowFull | tetris.js:375-381 | the early-exit row test answers whether the row is full |
| Game.Tetris.RemoveRow | tetris.js:384-393 | the rows above y move down one, row 0 becomes empty, and the rows below y stay |
| Game.Tetris.ShiftRowsDown | tetris.js:385-389 | every row 1..y takes the old contents of the row above it, and the other rows are unchanged |
| Game.Tetris.ClearTopRow | tetris.js:391-393 | row 0 becomes empty, and the other rows are unchanged |
| Game.Tetris.FallBlock | tetris.js:414-424 | moves down one row when it is placeable; otherwise locks in place (lock, clear, credit) and leaves no falling piece; the queued piece is kept |
| Game.Tetris.SoftDrop | tetris.js:426-437 | as the fall step and paying 1 point for the row moved; without a falling piece nothing changes |
| Game.Tetris.HardDrop | tetris.js:439-448 | the piece locks at `LandingY`, the score gains exactly 2 per row descended before the lock's credit, and no piece is left falling |
| Game.Tetris.DropToLanding | tetris.js:441-444 | the descent loop stops exactly at `LandingY`, two points a row |
| Game.Tetris.MoveLeft | tetris.js:450-455 | x decreases by one exactly when the piece falls and x-1 is placeable; otherwise nothing changes |
| Game.Tetris.MoveRight | tetris.js:457-462 | x increases by one exactly when the piece falls and x+1 is placeable; otherwise nothing changes |
| Game.Tetris.Rotate | tetris.js:464-482 | the angle becomes `(angle + 1) % 4` at the column `Kick` chooses, and everything stays unchanged when no kick fits; a placeable piece stays placeable |

## Left out

- Rendering (`clear`, `drawCell`, `drawBlock`, `drawStage`, `drawNextBlock` and the draw calls of `loop`): pure output with floating-point pixel arithmetic.
- The DOM lookups and the cell size and padding in the constructor: DOM and floating-point arithmetic.
- `updateUI`, the message text and the pause button's `aria-pressed` attribute: display side effects only.
- `saveHighScore` and the `localStorage` high score: persistent storage. The model reports the end of a session through `ended`.
- Keyboard, touch and button wiring: event plumbing that only calls the modelled commands.
- `requestAnimationFrame`, `performance.now` and `lastTime`: the host scheduler. `Advance` takes the elapsed milliseconds as a natural number. The reset of `lastTime` when `togglePause` resumes is therefore not modelled, and neither are fractional timestamps.
- `Math.random` in `getRandomBlock`: the drawn kinds are parameters.
- Piece colours: rendering only.
- Game.Tetris.Update, Game.Tetris.SoftDrop, Game.Tetris.HardDrop, Game.Tetris.MoveLeft, Game.Tetris.MoveRight, Game.Tetris.Rotate: these use the intended null test for the falling piece. The source tests the table index for truthiness, so for a falling I piece its `update` spawns the queued piece over it instead of letting it fall, and its `softDrop`, `hardDrop`, `moveLeft`, `moveRight` and `rotate` do nothing. The model does not reproduce that; `Game.NoPieceAsWritten` and `Game.NoPieceAsWrittenMissesI` state it.
- Game.Tetris.Advance: the frame's drawing and rescheduling are not modelled, only its timing and automatic step.

## Findings

| source | as written | input that shows it | evidently intended | confidence | as-written member | corrected member |
|---|---|---|---|---|---|---|
| tetris.js:228 | the no-piece guards of `update` (line 228), `softDrop` (428, 432), `hardDrop` (440), `moveLeft` (451), `moveRight` (458) and `rotate` (465) test the falling piece's table index for truthiness (`!this.currentBlock`, `this.currentBlock && …`), and the I piece has index 0 | a falling I piece: `update` spawns the queued piece in its place instead of letting it fall, and every input command ignores it | the guards test for a null piece only, so an I piece falls, moves, rotates and locks like the others | high; not executed | Game.NoPieceAsWrittenMissesI | Game.Tetris.Update, Game.Tetris.SoftDrop, Game.Tetris.HardDrop, Game.Tetris.MoveLeft, Game.Tetris.MoveRight, Game.Tetris.Rotate |
