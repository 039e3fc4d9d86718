/** The game object: the board array, the falling piece, the score and the
    clock.  Every command that the input handlers and the frame loop call is
    a method here; what each does to the state is stated with the value-level
    definitions of modules Board and Scoring. */
module Game {
  import opened Pieces
  import opened Board
  import opened Scoring

  /** The "no falling piece" test as the source writes it, `!this.currentBlock`
      on the table index of the piece: null and index 0 both read as no piece,
      so a falling I piece is taken for an empty slot. */
  predicate NoPieceAsWritten(current: Option<Kind>)
  {
    current.None? || Index(current.value) == 0
  }

  /** The test the guards evidently mean: no piece is falling. */
  predicate NoPiece(current: Option<Kind>)
  {
    current.None?
  }

  /** The two tests differ on the I piece and nowhere else. */
  lemma NoPieceAsWrittenMissesI(current: Option<Kind>)
    ensures NoPieceAsWritten(Some(I)) && !NoPiece(Some(I))
    ensures NoPieceAsWritten(current) <==> NoPiece(current) || current == Some(I)
  {
    if current.Some? && Index(current.value) == 0 {
      assert Index(I) == 0;
    }
  }

  class Tetris {
    /** The board, column-major like the source: `stage[x, y]`. */
    var stage: array2<Cell>
    var score: nat
    var deletedLines: nat
    var level: nat
    /** The base descent interval in milliseconds. */
    var dropInterval: nat
    /** Milliseconds accumulated since the last automatic step. */
    var dropAccumulator: nat
    var paused: bool
    var gameOver: bool
    /** The falling piece (`None` between a lock and the next spawn). */
    var currentBlock: Option<Kind>
    var nextBlock: Kind
    var blockX: int
    var blockY: int
    var blockAngle: Angle

    /** The board as rows, `cells[y][x]` being `stage[x, y]`. */
    ghost var cells: Grid

    /** The array has the board's size. */
    ghost predicate Sized()
      reads this`stage
    {
      stage.Length0 == Width && stage.Length1 == Height
    }

    /** The array and `cells` agree, and the level matches the cleared rows. */
    ghost predicate Valid()
      reads this`stage, this`cells, this`deletedLines, this`level, stage
    {
      Sized() && WellFormed(cells)
      && (forall x, y :: 0 <= x < Width && 0 <= y < Height ==> stage[x, y] == cells[y][x])
      && level == LevelFor(deletedLines)
    }

    /** The score, the cleared-row count and the level, as one value. */
    ghost function Counters(): Progress
      reads this`score, this`deletedLines, this`level
    {
      Scoring.Progress(score, deletedLines, level)
    }

    /** The falling piece, if any, sits where it may sit. */
    ghost predicate ActivePlaceable()
      requires WellFormed(cells)
      reads this
    {
      currentBlock.Some? ==> Placeable(cells, blockX, blockY, currentBlock.value, blockAngle)
    }

    /** The invariant every command keeps: until the game is over the falling
        piece never overlaps the board or leaves it sideways or downwards. */
    ghost predicate Safe()
      reads this, stage
    {
      Valid() && (!gameOver ==> ActivePlaceable())
    }

    /** A new session: empty board, zero score and lines, level 1, the first
        piece spawned at the centre and the second one queued. */
    ghost predicate NewSession(first: Kind, second: Kind)
      reads this, stage
    {
      Safe() && cells == EmptyGrid() && Counters() == Initial && dropInterval == 500
      && !paused && !gameOver
      && currentBlock == Some(first) && nextBlock == second
      && blockX == SpawnX && blockY == SpawnY && blockAngle == 0
    }

    // -------------------------------------------------------------------
    // Session

    constructor (first: Kind, second: Kind)
      ensures NewSession(first, second) && fresh(stage)
      ensures dropAccumulator == 0
    {
      stage := new Cell[Width, Height]((x, y) => Empty);
      cells := EmptyGrid();
      deletedLines, score, level := 0, 0, 1;
      dropInterval := 500;
      dropAccumulator := 0;
      paused, gameOver := false, false;
      new;
      StartGame(first, second);
    }

    /** Resets the session; `first` and `second` stand for the two random
        draws (the piece that spawns and the one queued after it).  The first
        spawn is not checked: on an empty board it always fits. */
    method StartGame(first: Kind, second: Kind)
      modifies this
      ensures NewSession(first, second) && fresh(stage)
      ensures dropAccumulator == old(dropAccumulator)
    {
      stage := new Cell[Width, Height]((x, y) => Empty);
      cells := EmptyGrid();
      deletedLines := 0;
      score := 0;
      level := 1;
      dropInterval := 500;
      gameOver := false;
      paused := false;
      currentBlock := None;
      nextBlock := first;
      SpawnBlock(second);
      SpawnOnEmptyBoard(first);
    }

    method Restart(first: Kind, second: Kind)
      modifies this
      ensures NewSession(first, second) && fresh(stage)
      ensures dropAccumulator == old(dropAccumulator)
    {
      StartGame(first, second);
    }

    /** Pausing is refused once the game is over. */
    method TogglePause()
      modifies this`paused
      ensures paused == if gameOver then old(paused) else !old(paused)
      ensures old(Safe()) ==> Safe()
    {
      if gameOver {
        return;
      }
      paused := !paused;
    }

    /** The timing part of one animation frame, `deltaMs` after the previous
        one: while paused or over nothing happens; otherwise the time
        accumulates and, once it reaches the level's interval, it is reset to
        zero and one automatic step runs.  `next` is the random draw a spawn
        would use; `ended` reports that this frame ended the session. */
    method Advance(deltaMs: nat, next: Kind) returns (ended: bool)
      requires Safe()
      modifies stage, this`cells, this`dropAccumulator, this`currentBlock, this`nextBlock, this`blockX, this`blockY,
        this`blockAngle, this`gameOver, this`score, this`deletedLines, this`level
      ensures Safe()
      ensures old(paused || gameOver) ==> unchanged(this) && unchanged(stage) && !ended
      ensures !old(paused || gameOver) ==>
        if old(dropAccumulator) + deltaMs >= EffectiveInterval(dropInterval, old(level)) then
          dropAccumulator == 0 && Updated(next, ended)
        else
          dropAccumulator == old(dropAccumulator) + deltaMs && !ended && unchanged(stage)
          && OnlyClockChanged()
    {
      ended := false;
      if paused || gameOver {
        return;
      }
      dropAccumulator := dropAccumulator + deltaMs;
      var effectiveInterval := EffectiveInterval(dropInterval, level);
      if dropAccumulator >= effectiveInterval {
        dropAccumulator := 0;
        ended := Update(next);
      }
    }

    twostate predicate OnlyClockChanged()
      reads this
    {
      currentBlock == old(currentBlock) && nextBlock == old(nextBlock) && blockX == old(blockX)
      && blockY == old(blockY) && blockAngle == old(blockAngle) && gameOver == old(gameOver)
      && Counters() == old(Counters())
    }

    /** One automatic step: with no falling piece, spawn the queued one (and
        end the game if it does not fit); otherwise let the piece fall. */
    method Update(next: Kind) returns (ended: bool)
      requires Safe()
      modifies stage, this`cells, this`currentBlock, this`nextBlock, this`blockX, this`blockY, this`blockAngle,
        this`gameOver, this`score, this`deletedLines, this`level
      ensures Safe()
      ensures Updated(next, ended)
    {
      ended := false;
      if NoPiece(currentBlock) {
        var ok := CreateNewBlock(next);
        if !ok {
          gameOver := true;
          ended := true;
          return;
        }
      } else {
        FallBlock();
      }
    }

    /** What one automatic step did, from the state before it. */
    twostate predicate Updated(next: Kind, ended: bool)
      requires WellFormed(old(cells))
      reads this
    {
      if old(currentBlock).None? then
        Spawned(old(nextBlock), next)
        && ended == !Placeable(old(cells), SpawnX, SpawnY, old(nextBlock), 0)
        && gameOver == (old(gameOver) || ended)
        && cells == old(cells) && Counters() == old(Counters())
      else
        !ended && gameOver == old(gameOver) && Fell(old(Counters()))
    }

    /** The queued piece became the falling one at the spawn anchor. */
    ghost predicate Spawned(kind: Kind, next: Kind)
      reads this
    {
      currentBlock == Some(kind) && nextBlock == next
      && blockX == SpawnX && blockY == SpawnY && blockAngle == 0
    }

    method SpawnBlock(next: Kind)
      modifies this`currentBlock, this`nextBlock, this`blockX, this`blockY, this`blockAngle
      ensures Spawned(old(nextBlock), next)
    {
      currentBlock := Some(nextBlock);
      nextBlock := next;
      blockX := Width / 2 - 1;
      blockY := -1;
      blockAngle := 0;
    }

    /** Spawns the queued piece and reports whether it fits. */
    method CreateNewBlock(next: Kind) returns (ok: bool)
      requires Valid()
      modifies this`currentBlock, this`nextBlock, this`blockX, this`blockY, this`blockAngle
      ensures Spawned(old(nextBlock), next)
      ensures ok == Placeable(cells, SpawnX, SpawnY, old(nextBlock), 0)
    {
      SpawnBlock(next);
      ok := CheckBlockMove(blockX, blockY, currentBlock.value, blockAngle);
    }

    // -------------------------------------------------------------------
    // Board

    /** The placement test, cell by cell, stopping at the first failing cell. */
    method CheckBlockMove(x: int, y: int, kind: Kind, angle: Angle) returns (ok: bool)
      requires Valid()
      ensures ok == Placeable(cells, x, y, kind, angle)
    {
      var shape := Shape(kind, angle);
      var i := 0;
      while i < |shape|
        invariant 0 <= i <= |shape|
        invariant forall j :: 0 <= j < i ==> CellFree(cells, CellX(x, kind, angle, j), CellY(y, kind, angle, j))
      {
        var cellX := x + shape[i].dx;
        var cellY := y + shape[i].dy;
        if cellX < 0 || cellX > Width - 1 {
          assert !CellFree(cells, CellX(x, kind, angle, i), CellY(y, kind, angle, i));
          return false;
        }
        if cellY > Height - 1 {
          assert !CellFree(cells, CellX(x, kind, angle, i), CellY(y, kind, angle, i));
          return false;
        }
        if cellY < 0 {
          i := i + 1;
          continue;
        }
        if stage[cellX, cellY] != Empty {
          assert !CellFree(cells, CellX(x, kind, angle, i), CellY(y, kind, angle, i));
          return false;
        }
        i := i + 1;
      }
      return true;
    }

    /** Locks a piece: writes its kind into its cells that are on the board,
        then clears full rows. */
    method FixBlock(x: int, y: int, kind: Kind, angle: Angle)
      requires Valid()
      modifies stage, this`cells, this`score, this`deletedLines, this`level
      ensures Valid()
      ensures cells == Compact(Fixed(old(cells), x, y, kind, angle))
      ensures Counters() == Credit(old(Counters()), CountFull(Fixed(old(cells), x, y, kind, angle)))
    {
      WriteBlock(x, y, kind, angle);
      ClearFullLines();
    }

    /** Writes `kind` into each cell of the piece in turn, skipping cells that
        are off the board. */
    method WriteBlock(x: int, y: int, kind: Kind, angle: Angle)
      requires Valid()
      modifies stage, this`cells
      ensures Valid()
      ensures cells == Fixed(old(cells), x, y, kind, angle)
    {
      var shape := Shape(kind, angle);
      var i := 0;
      while i < |shape|
        invariant 0 <= i <= |shape|
        invariant Valid()
        invariant cells == WriteCells(old(cells), x, y, kind, shape[..i])
      {
        SetCell(x + shape[i].dx, y + shape[i].dy, Block(kind));
        assert shape[..i + 1][..i] == shape[..i];
        i := i + 1;
      }
      assert shape[..4] == shape;
    }

    /** Sets cell (cx, cy) to `v` when it is on the board. */
    method SetCell(cx: int, cy: int, v: Cell)
      requires Valid()
      modifies stage, this`cells
      ensures Valid()
      ensures cells == Put(old(cells), cx, cy, v)
    {
      if cy >= 0 && cy < Height && cx >= 0 && cx < Width {
        stage[cx, cy] := v;
      }
      cells := Put(cells, cx, cy, v);
    }

    /** Removes every full row, then credits the rows removed. */
    method ClearFullLines()
      requires Valid()
      modifies stage, this`cells, this`score, this`deletedLines, this`level
      ensures Valid()
      ensures cells == Compact(old(cells))
      ensures Counters() == Credit(old(Counters()), CountFull(old(cells)))
    {
      var linesCleared := RemoveFullRows();
      if linesCleared > 0 {
        score := score + LinePoints(linesCleared);
        deletedLines := deletedLines + linesCleared;
        var newLevel := LevelFor(deletedLines);
        if newLevel > level {
          level := newLevel;
        }
      }
      CreditKeepsLevel(old(Counters()), linesCleared);
    }

    /** The scan of the clearing pass: from the bottom row up, a full row is
        removed and the same row index is examined again; any other row is
        passed. */
    method RemoveFullRows() returns (linesCleared: nat)
      requires Valid()
      modifies stage, this`cells
      ensures Valid()
      ensures cells == Compact(old(cells))
      ensures linesCleared == CountFull(old(cells))
    {
      linesCleared := 0;
      var y := Height - 1;
      assert cells[..y + 1] == cells && cells[y + 1..] == [];
      while y >= 0
        invariant -1 <= y < Height
        invariant Valid()
        invariant Compact(cells[..y + 1]) + cells[y + 1..] == Compact(old(cells))
        invariant linesCleared + CountFull(cells[..y + 1]) == CountFull(old(cells))
        decreases y + 1 + CountFull(cells[..y + 1])
      {
        ghost var before := cells;
        var filled := RowFull(y);
        if filled {
          linesCleared := linesCleared + 1;
          RemoveRow(y);
          assert before[..y + 1] == before[..y] + [before[y]];
          assert cells[..y + 1] == [EmptyRow()] + before[..y];
          assert cells[y + 1..] == before[y + 1..];
          CompactRemoveStep(before[..y], before[y]);
        } else {
          assert before[..y + 1] == before[..y] + [before[y]];
          assert before[y..] == [before[y]] + before[y + 1..];
          CompactKeepStep(before[..y], before[y]);
          y := y - 1;
        }
      }
      ScanDone(cells, linesCleared, old(cells));
    }

    /** Whether row `y` has no empty cell, stopping at the first empty one. */
    method RowFull(y: int) returns (filled: bool)
      requires Valid() && 0 <= y < Height
      ensures filled == IsFull(cells[y])
    {
      filled := true;
      var x := 0;
      while x < Width
        invariant 0 <= x <= Width
        invariant forall xx :: 0 <= xx < x ==> stage[xx, y] != Empty
      {
        if stage[x, y] == Empty {
          filled := false;
          break;
        }
        x := x + 1;
      }
    }

    /** Removes row `y`: the rows above it move down one row and row 0 becomes empty. */
    method RemoveRow(y: int)
      requires Valid() && 0 <= y < Height
      modifies stage, this`cells
      ensures Valid()
      ensures cells == [EmptyRow()] + old(cells)[..y] + old(cells)[y + 1..]
    {
      ShiftRowsDown(y);
      ClearTopRow();
      cells := [EmptyRow()] + cells[..y] + cells[y + 1..];
      forall x, r | 0 <= x < Width && 0 <= r < Height ensures stage[x, r] == cells[r][x] {
        if r == 0 {
        } else if r <= y {
          assert cells[r] == old(cells)[r - 1];
        } else {
          assert cells[r] == old(cells)[r];
        }
      }
    }

    /** Copies every row above `y` one row down, overwriting row `y`. */
    method ShiftRowsDown(y: int)
      requires Sized() && 0 <= y < Height
      modifies stage
      ensures forall x, r :: 0 <= x < Width && 0 <= r < Height ==>
        stage[x, r] == if 0 < r <= y then old(stage[x, r - 1]) else old(stage[x, r])
    {
      var y2 := y;
      while y2 > 0
        invariant 0 <= y2 <= y
        invariant forall x, r :: 0 <= x < Width && 0 <= r < Height ==>
          stage[x, r] == if y2 < r <= y then old(stage[x, r - 1]) else old(stage[x, r])
      {
        var x := 0;
        while x < Width
          invariant 0 <= x <= Width
          invariant forall xx, r :: 0 <= xx < Width && 0 <= r < Height ==>
            stage[xx, r] == if y2 < r <= y || (r == y2 && xx < x) then old(stage[xx, r - 1]) else old(stage[xx, r])
        {
          stage[x, y2] := stage[x, y2 - 1];
          x := x + 1;
        }
        y2 := y2 - 1;
      }
    }

    method ClearTopRow()
      requires Sized()
      modifies stage
      ensures forall x, r :: 0 <= x < Width && 0 <= r < Height ==>
        stage[x, r] == if r == 0 then Empty else old(stage[x, r])
    {
      var x := 0;
      while x < Width
        invariant 0 <= x <= Width
        invariant forall xx, r :: 0 <= xx < Width && 0 <= r < Height ==>
          stage[xx, r] == if r == 0 && xx < x then Empty else old(stage[xx, r])
      {
        stage[x, 0] := Empty;
        x := x + 1;
      }
    }

    // -------------------------------------------------------------------
    // The falling piece

    /** The board and counters after the piece `kind` locked at (x, y, angle),
        starting from the board before the command and the progress `before`. */
    twostate predicate Locked(kind: Kind, x: int, y: int, angle: Angle, before: Progress)
      requires WellFormed(old(cells))
      reads this
    {
      var g := Fixed(old(cells), x, y, kind, angle);
      blockX == x && blockY == y && blockAngle == angle && currentBlock.None?
      && cells == Compact(g) && Counters() == Credit(before, CountFull(g))
    }

    /** One fall step of the falling piece: down one row if that row is
        placeable (the progress then becomes `moved`), otherwise locked where
        it is. */
    twostate predicate Fell(moved: Progress)
      requires old(currentBlock).Some? && WellFormed(old(cells))
      reads this
    {
      var kind := old(currentBlock).value;
      nextBlock == old(nextBlock) &&
      if Placeable(old(cells), old(blockX), old(blockY) + 1, kind, old(blockAngle)) then
        blockX == old(blockX) && blockY == old(blockY) + 1 && blockAngle == old(blockAngle)
        && currentBlock == old(currentBlock) && cells == old(cells) && Counters() == moved
      else
        Locked(kind, old(blockX), old(blockY), old(blockAngle), old(Counters()))
    }

    /** The automatic step of a falling piece. */
    method FallBlock()
      requires Safe() && currentBlock.Some?
      modifies stage, this`cells, this`blockY, this`currentBlock, this`score, this`deletedLines, this`level
      ensures Safe()
      ensures Fell(old(Counters()))
    {
      var canFall := CheckBlockMove(blockX, blockY + 1, currentBlock.value, blockAngle);
      if canFall {
        blockY := blockY + 1;
      } else {
        FixBlock(blockX, blockY, currentBlock.value, blockAngle);
        currentBlock := None;
      }
    }

    /** The player's one-row drop: one point for a row gained, a lock when the
        row below is not placeable; nothing without a falling piece. */
    method SoftDrop()
      requires Safe()
      modifies stage, this`cells, this`blockY, this`currentBlock, this`score, this`deletedLines, this`level
      ensures Safe()
      ensures old(currentBlock).None? ==> unchanged(this) && unchanged(stage)
      ensures old(currentBlock).Some? ==> Fell(old(Counters()).(score := old(score) + 1))
    {
      if NoPiece(currentBlock) {
        return;
      }
      var canFall := CheckBlockMove(blockX, blockY + 1, currentBlock.value, blockAngle);
      if canFall {
        blockY := blockY + 1;
        score := score + 1;
      } else {
        FixBlock(blockX, blockY, currentBlock.value, blockAngle);
        currentBlock := None;
      }
    }

    /** Drops the piece as far as it goes, two points a row, and locks it. */
    method HardDrop()
      requires Safe()
      modifies stage, this`cells, this`blockY, this`currentBlock, this`score, this`deletedLines, this`level
      ensures Safe()
      ensures old(currentBlock).None? ==> unchanged(this) && unchanged(stage)
      ensures old(currentBlock).Some? ==>
        var landed := LandingY(old(cells), blockX, old(blockY), old(currentBlock).value, blockAngle);
        Locked(old(currentBlock).value, blockX, landed, blockAngle,
               old(Counters()).(score := old(score) + 2 * (landed - old(blockY))))
    {
      if NoPiece(currentBlock) {
        return;
      }
      var kind := currentBlock.value;
      DropToLanding(kind);
      FixBlock(blockX, blockY, kind, blockAngle);
      currentBlock := None;
    }

    /** The descent of a hard drop: the piece moves down while the next row is
        placeable, two points a row, and stops on its landing row. */
    method DropToLanding(kind: Kind)
      requires Valid() && currentBlock == Some(kind)
      modifies this`blockY, this`score
      ensures Valid()
      ensures blockY == LandingY(cells, blockX, old(blockY), kind, blockAngle)
      ensures score == old(score) + 2 * (blockY - old(blockY))
    {
      var canFall := CheckBlockMove(blockX, blockY + 1, kind, blockAngle);
      while canFall
        invariant Valid() && cells == old(cells)
        invariant old(blockY) <= blockY
        invariant score == old(score) + 2 * (blockY - old(blockY))
        invariant PassesDown(cells, blockX, old(blockY), blockY, kind, blockAngle)
        invariant canFall == Placeable(cells, blockX, blockY + 1, kind, blockAngle)
        decreases Height - blockY
      {
        PlaceableAnchor(cells, blockX, blockY + 1, kind, blockAngle);
        PassesDownExtend(cells, blockX, old(blockY), blockY, kind, blockAngle);
        blockY := blockY + 1;
        score := score + 2;
        canFall := CheckBlockMove(blockX, blockY + 1, kind, blockAngle);
      }
      LandingYUnique(cells, blockX, old(blockY), blockY, kind, blockAngle);
    }

    /** Moves the piece one column left when that column is placeable. */
    method MoveLeft()
      requires Safe()
      modifies this`blockX
      ensures Safe()
      ensures blockX == if old(currentBlock).Some? && Placeable(cells, old(blockX) - 1, blockY, currentBlock.value, blockAngle)
                        then old(blockX) - 1 else old(blockX)
    {
      if NoPiece(currentBlock) {
        return;
      }
      var ok := CheckBlockMove(blockX - 1, blockY, currentBlock.value, blockAngle);
      if ok {
        blockX := blockX - 1;
      }
    }

    /** Moves the piece one column right when that column is placeable. */
    method MoveRight()
      requires Safe()
      modifies this`blockX
      ensures Safe()
      ensures blockX == if old(currentBlock).Some? && Placeable(cells, old(blockX) + 1, blockY, currentBlock.value, blockAngle)
                        then old(blockX) + 1 else old(blockX)
    {
      if NoPiece(currentBlock) {
        return;
      }
      var ok := CheckBlockMove(blockX + 1, blockY, currentBlock.value, blockAngle);
      if ok {
        blockX := blockX + 1;
      }
    }

    /** Rotates one step, with the simple wall kick of Board.Kick. */
    method Rotate()
      requires Safe()
      modifies this`blockX, this`blockAngle
      ensures Safe()
      ensures old(currentBlock).None? ==> blockX == old(blockX) && blockAngle == old(blockAngle)
      ensures old(currentBlock).Some? ==>
        match Kick(cells, old(blockX), blockY, currentBlock.value, old(blockAngle))
        case Some(kickedX) => blockX == kickedX && blockAngle == NextAngle(old(blockAngle))
        case None => blockX == old(blockX) && blockAngle == old(blockAngle)
    {
      if NoPiece(currentBlock) {
        return;
      }
      var newAngle := NextAngle(blockAngle);
      var ok := CheckBlockMove(blockX, blockY, currentBlock.value, newAngle);
      if ok {
        blockAngle := newAngle;
        return;
      }
      ok := CheckBlockMove(blockX - 1, blockY, currentBlock.value, newAngle);
      if ok {
        blockX := blockX - 1;
        blockAngle := newAngle;
        return;
      }
      ok := CheckBlockMove(blockX + 1, blockY, currentBlock.value, newAngle);
      if ok {
        blockX := blockX + 1;
        blockAngle := newAngle;
        return;
      }
    }
  }
}
