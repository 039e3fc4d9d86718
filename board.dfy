/** The playing field as a value: a 10 x 20 grid of cells, the placement
    rule, the effect of locking a piece into the grid and the effect of
    removing full rows.  The grid is kept row by row, `g[y][x]`, with row 0
    at the top; the game object stores the same cells column-major. */
module Board {
  import opened Pieces

  const Width: int := 10
  const Height: int := 20

  /** The spawn anchor: horizontal centre `Width / 2 - 1`, one row above the top. */
  const SpawnX: int := Width / 2 - 1
  const SpawnY: int := -1

  /** A board cell: empty (the source's `null`) or holding the kind that was locked there. */
  datatype Cell = Empty | Block(kind: Kind)

  type Row = seq<Cell>
  type Grid = seq<Row>

  /** An optional value: the falling-piece slot, and the column a wall kick picks. */
  datatype Option<T> = None | Some(value: T)

  predicate WellFormed(g: Grid) {
    |g| == Height && forall y :: 0 <= y < |g| ==> |g[y]| == Width
  }

  function EmptyRow(): (r: Row)
    ensures |r| == Width && forall x :: 0 <= x < |r| ==> r[x] == Empty
  {
    seq(Width, _ => Empty)
  }

  /** `n` empty rows. */
  function Blank(n: nat): (b: Grid)
    ensures |b| == n && forall y :: 0 <= y < n ==> b[y] == EmptyRow()
  {
    seq(n, _ => EmptyRow())
  }

  function EmptyGrid(): (g: Grid)
    ensures WellFormed(g)
  {
    Blank(Height)
  }

  // ---------------------------------------------------------------------
  // Placement

  /** The absolute cell the `i`th offset of a piece anchored at (x, y) lands on. */
  function CellX(x: int, kind: Kind, angle: Angle, i: int): int
    requires 0 <= i < 4
  {
    x + Shape(kind, angle)[i].dx
  }

  function CellY(y: int, kind: Kind, angle: Angle, i: int): int
    requires 0 <= i < 4
  {
    y + Shape(kind, angle)[i].dy
  }

  /** One target cell passes: inside the side walls, not below the floor, and
      empty unless it is still above the top row. */
  predicate CellFree(g: Grid, cx: int, cy: int)
    requires WellFormed(g)
  {
    0 <= cx < Width && cy <= Height - 1 && (cy >= 0 ==> g[cy][cx] == Empty)
  }

  /** A piece may occupy (x, y, angle) when all four of its cells pass. */
  predicate Placeable(g: Grid, x: int, y: int, kind: Kind, angle: Angle)
    requires WellFormed(g)
  {
    forall i :: 0 <= i < 4 ==> CellFree(g, CellX(x, kind, angle, i), CellY(y, kind, angle, i))
  }

  /** Every shape contains its anchor cell, so a placeable anchor is itself
      inside the side walls and not below the floor. */
  lemma PlaceableAnchor(g: Grid, x: int, y: int, kind: Kind, angle: Angle)
    requires WellFormed(g) && Placeable(g, x, y, kind, angle)
    ensures 0 <= x < Width && y <= Height - 1
    ensures y >= 0 ==> g[y][x] == Empty
  {
    var i :| 0 <= i < 4 && Shape(kind, angle)[i] == Offset(0, 0);
    assert CellFree(g, CellX(x, kind, angle, i), CellY(y, kind, angle, i));
  }

  // ---------------------------------------------------------------------
  // Locking a piece

  /** The grid with cell (cx, cy) set to `v`; a cell outside the grid is ignored. */
  function Put(g: Grid, cx: int, cy: int, v: Cell): (h: Grid)
    requires WellFormed(g)
    ensures WellFormed(h)
    ensures forall xx, yy :: 0 <= xx < Width && 0 <= yy < Height ==>
      h[yy][xx] == (if xx == cx && yy == cy then v else g[yy][xx])
  {
    if 0 <= cy < Height && 0 <= cx < Width then g[cy := g[cy][cx := v]] else g
  }

  /** Writes `kind` at the anchor plus each offset of `cells`, in order. */
  function WriteCells(g: Grid, x: int, y: int, kind: Kind, cells: seq<Offset>): (h: Grid)
    requires WellFormed(g)
    ensures WellFormed(h)
  {
    if cells == [] then g
    else
      var c := cells[|cells| - 1];
      Put(WriteCells(g, x, y, kind, cells[..|cells| - 1]), x + c.dx, y + c.dy, Block(kind))
  }

  /** The grid after locking a piece, before any row is cleared. */
  function Fixed(g: Grid, x: int, y: int, kind: Kind, angle: Angle): (h: Grid)
    requires WellFormed(g)
    ensures WellFormed(h)
  {
    WriteCells(g, x, y, kind, Shape(kind, angle))
  }

  /** Whether the piece anchored at (x, y, angle) covers board cell (cx, cy). */
  predicate Covers(x: int, y: int, kind: Kind, angle: Angle, cx: int, cy: int) {
    Offset(cx - x, cy - y) in Shape(kind, angle)
  }

  lemma {:induction false} WriteCellsAt(g: Grid, x: int, y: int, kind: Kind, cells: seq<Offset>, cx: int, cy: int)
    requires WellFormed(g) && 0 <= cx < Width && 0 <= cy < Height
    ensures WriteCells(g, x, y, kind, cells)[cy][cx]
         == if Offset(cx - x, cy - y) in cells then Block(kind) else g[cy][cx]
  {
    if cells != [] {
      var front := cells[..|cells| - 1];
      var c := cells[|cells| - 1];
      WriteCellsAt(g, x, y, kind, front, cx, cy);
      assert cells == front + [c];
      assert Offset(cx - x, cy - y) in cells <==> Offset(cx - x, cy - y) in front || Offset(cx - x, cy - y) == c;
    }
  }

  /** Locking writes the kind into exactly the piece's cells that lie on the
      board and leaves every other cell as it was; cells above the top row
      are dropped. */
  lemma FixedAt(g: Grid, x: int, y: int, kind: Kind, angle: Angle, cx: int, cy: int)
    requires WellFormed(g) && 0 <= cx < Width && 0 <= cy < Height
    ensures Fixed(g, x, y, kind, angle)[cy][cx]
         == if Covers(x, y, kind, angle, cx, cy) then Block(kind) else g[cy][cx]
  {
    WriteCellsAt(g, x, y, kind, Shape(kind, angle), cx, cy);
  }

  /** A piece locked with its anchor on the board cannot be placed again where it
      was: the lock really fills the cells it checked. */
  lemma FixedBlocksSamePlace(g: Grid, x: int, y: int, kind: Kind, angle: Angle)
    requires WellFormed(g) && Placeable(g, x, y, kind, angle) && y >= 0
    ensures !Placeable(Fixed(g, x, y, kind, angle), x, y, kind, angle)
  {
    PlaceableAnchor(g, x, y, kind, angle);
    FixedAt(g, x, y, kind, angle, x, y);
    var h := Fixed(g, x, y, kind, angle);
    var i :| 0 <= i < 4 && Shape(kind, angle)[i] == Offset(0, 0);
    assert !CellFree(h, CellX(x, kind, angle, i), CellY(y, kind, angle, i));
  }

  // ---------------------------------------------------------------------
  // Full rows and compaction

  /** A row is full when no cell of it is empty. */
  predicate IsFull(r: Row) {
    forall x :: 0 <= x < |r| ==> r[x] != Empty
  }

  /** Number of full rows. */
  function CountFull(g: Grid): nat {
    if g == [] then 0
    else CountFull(g[..|g| - 1]) + (if IsFull(g[|g| - 1]) then 1 else 0)
  }

  /** The rows that are not full, top to bottom, in their original order. */
  function Survivors(g: Grid): Grid {
    if g == [] then []
    else Survivors(g[..|g| - 1]) + (if IsFull(g[|g| - 1]) then [] else [g[|g| - 1]])
  }

  /** The grid once every full row is removed: the surviving rows settle to
      the bottom, in order, under one empty row per removed row. */
  function Compact(g: Grid): Grid {
    Blank(CountFull(g)) + Survivors(g)
  }

  /** Number of occupied cells in a row and in a grid. */
  function RowCount(r: Row): nat {
    if r == [] then 0 else RowCount(r[..|r| - 1]) + (if r[|r| - 1] != Empty then 1 else 0)
  }

  function Occupied(g: Grid): nat {
    if g == [] then 0 else Occupied(g[..|g| - 1]) + RowCount(g[|g| - 1])
  }

  lemma {:induction false} SurvivorsShape(g: Grid)
    ensures |Survivors(g)| + CountFull(g) == |g|
    ensures forall r :: r in Survivors(g) ==> r in g && !IsFull(r)
  {
    if g != [] {
      SurvivorsShape(g[..|g| - 1]);
    }
  }

  /** Removing rows keeps the grid's size and row width. */
  lemma CompactWellFormed(g: Grid)
    requires WellFormed(g)
    ensures WellFormed(Compact(g))
  {
    SurvivorsShape(g);
    var c := Compact(g);
    forall y | 0 <= y < |c| ensures |c[y]| == Width {
      if y >= CountFull(g) {
        assert c[y] in Survivors(g);
      }
    }
  }

  /** After compaction no row is full, the top CountFull(g) rows are empty and
      the rest are the non-full rows of `g` in their original order. */
  lemma NoFullRowAfterCompact(g: Grid)
    ensures |Compact(g)| == |g|
    ensures forall y :: 0 <= y < |Compact(g)| ==> !IsFull(Compact(g)[y])
    ensures Compact(g)[..CountFull(g)] == Blank(CountFull(g))
    ensures Compact(g)[CountFull(g)..] == Survivors(g)
    ensures CountFull(Compact(g)) == 0
  {
    SurvivorsShape(g);
    var c := Compact(g);
    forall y | 0 <= y < |c| ensures !IsFull(c[y]) {
      if y < CountFull(g) {
        assert c[y] == EmptyRow() && c[y][0] == Empty;
      } else {
        assert c[y] in Survivors(g);
      }
    }
    NoFullRowCount(c);
  }

  lemma {:induction false} NoFullRowCount(g: Grid)
    requires forall y :: 0 <= y < |g| ==> !IsFull(g[y])
    ensures CountFull(g) == 0 && Survivors(g) == g
  {
    if g != [] {
      NoFullRowCount(g[..|g| - 1]);
    }
  }

  /** Compacting twice is compacting once. */
  lemma CompactIdempotent(g: Grid)
    ensures Compact(Compact(g)) == Compact(g)
  {
    NoFullRowAfterCompact(g);
    NoFullRowCount(Compact(g));
  }

  lemma {:induction false} FullRowCount(r: Row)
    requires IsFull(r)
    ensures RowCount(r) == |r|
  {
    if r != [] {
      FullRowCount(r[..|r| - 1]);
    }
  }

  lemma {:induction false} EmptyRowCount(r: Row)
    requires forall x :: 0 <= x < |r| ==> r[x] == Empty
    ensures RowCount(r) == 0
  {
    if r != [] {
      EmptyRowCount(r[..|r| - 1]);
    }
  }

  lemma {:induction false} OccupiedAppend(a: Grid, b: Grid)
    ensures Occupied(a + b) == Occupied(a) + Occupied(b)
  {
    if b != [] {
      var b' := b[..|b| - 1];
      assert (a + b)[..|a + b| - 1] == a + b';
      assert (a + b)[|a + b| - 1] == b[|b| - 1];
      OccupiedAppend(a, b');
    } else {
      assert a + b == a;
    }
  }

  lemma {:induction false} BlankOccupied(n: nat)
    ensures Occupied(Blank(n)) == 0
  {
    if n > 0 {
      assert Blank(n)[..n - 1] == Blank(n - 1);
      BlankOccupied(n - 1);
      EmptyRowCount(EmptyRow());
    }
  }

  lemma {:induction false} SurvivorsOccupied(g: Grid)
    requires forall y :: 0 <= y < |g| ==> |g[y]| == Width
    ensures Occupied(Survivors(g)) + Width * CountFull(g) == Occupied(g)
  {
    if g != [] {
      var front := g[..|g| - 1];
      var last := g[|g| - 1];
      assert forall y :: 0 <= y < |front| ==> front[y] == g[y];
      SurvivorsOccupied(front);
      if IsFull(last) {
        FullRowCount(last);
        assert Survivors(g) == Survivors(front);
      } else {
        OccupiedAppend(Survivors(front), [last]);
        assert [last][..0] == [];
      }
    }
  }

  /** Clearing n full rows removes exactly Width * n occupied cells. */
  lemma CompactOccupied(g: Grid)
    requires WellFormed(g)
    ensures Occupied(Compact(g)) == Occupied(g) - Width * CountFull(g)
  {
    OccupiedAppend(Blank(CountFull(g)), Survivors(g));
    BlankOccupied(CountFull(g));
    SurvivorsOccupied(g);
  }

  // Steps of the bottom-up scan that removes full rows.  The scan keeps
  // `Compact(todo) + done == Compact(start)` where `todo` is the part of the
  // grid at and above the row being examined.

  /** A non-full examined row joins the finished part unchanged. */
  lemma CompactKeepStep(p: Grid, r: Row)
    requires !IsFull(r)
    ensures Compact(p + [r]) == Compact(p) + [r]
    ensures CountFull(p + [r]) == CountFull(p)
  {
    assert (p + [r])[..|p|] == p;
  }

  lemma {:induction false} PrependEmptyRow(p: Grid)
    ensures CountFull([EmptyRow()] + p) == CountFull(p)
    ensures Survivors([EmptyRow()] + p) == [EmptyRow()] + Survivors(p)
  {
    assert EmptyRow()[0] == Empty;
    if p != [] {
      var front := p[..|p| - 1];
      assert ([EmptyRow()] + p)[..|p|] == [EmptyRow()] + front;
      PrependEmptyRow(front);
    } else {
      assert [EmptyRow()][..0] == [];
    }
  }

  /** A full examined row is removed: everything above it moves down one row
      and an empty row enters at the top, with the same compaction. */
  lemma CompactRemoveStep(p: Grid, r: Row)
    requires IsFull(r)
    ensures Compact([EmptyRow()] + p) == Compact(p + [r])
    ensures CountFull([EmptyRow()] + p) + 1 == CountFull(p + [r])
  {
    assert (p + [r])[..|p|] == p;
    PrependEmptyRow(p);
    assert Blank(CountFull(p)) + [EmptyRow()] == Blank(CountFull(p) + 1);
  }

  /** The scan has examined every row. */
  lemma ScanDone(g: Grid, n: nat, start: Grid)
    requires Compact(g[..0]) + g[0..] == Compact(start)
    requires n + CountFull(g[..0]) == CountFull(start)
    ensures g == Compact(start) && n == CountFull(start)
  {
    assert g[..0] == [] && g[0..] == g;
  }

  // ---------------------------------------------------------------------
  // Moves

  /** Where a hard drop from (x, y) comes to rest: the lowest row reached by
      stepping down one row at a time while the next row is placeable. */
  function LandingY(g: Grid, x: int, y: int, kind: Kind, angle: Angle): (r: int)
    requires WellFormed(g)
    decreases Height - y
    ensures r >= y
    ensures !Placeable(g, x, r + 1, kind, angle)
    ensures PassesDown(g, x, y, r, kind, angle)
  {
    if Placeable(g, x, y + 1, kind, angle) then
      PlaceableAnchor(g, x, y + 1, kind, angle);
      LandingY(g, x, y + 1, kind, angle)
    else y
  }

  /** The piece can move from row y down to row r one row at a time: every row
      in (y, r] is placeable. */
  predicate PassesDown(g: Grid, x: int, y: int, r: int, kind: Kind, angle: Angle)
    requires WellFormed(g)
    decreases r - y
  {
    y >= r || (Placeable(g, x, y + 1, kind, angle) && PassesDown(g, x, y + 1, r, kind, angle))
  }

  /** PassesDown says exactly that each row strictly below y, down to r, is placeable. */
  lemma {:induction false} PassesDownRows(g: Grid, x: int, y: int, r: int, kind: Kind, angle: Angle)
    requires WellFormed(g)
    ensures PassesDown(g, x, y, r, kind, angle) <==> forall y' :: y < y' <= r ==> Placeable(g, x, y', kind, angle)
    decreases r - y
  {
    if y < r {
      PassesDownRows(g, x, y + 1, r, kind, angle);
      if forall y' :: y < y' <= r ==> Placeable(g, x, y', kind, angle) {
        assert Placeable(g, x, y + 1, kind, angle);
      }
    }
  }

  /** One more placeable row extends a descent. */
  lemma {:induction false} PassesDownExtend(g: Grid, x: int, y: int, r: int, kind: Kind, angle: Angle)
    requires WellFormed(g) && y <= r && PassesDown(g, x, y, r, kind, angle)
    requires Placeable(g, x, r + 1, kind, angle)
    ensures PassesDown(g, x, y, r + 1, kind, angle)
    decreases r - y
  {
    if y < r {
      PassesDownExtend(g, x, y + 1, r, kind, angle);
    }
  }

  /** LandingY is the only row that the piece can reach from y and from which it
      cannot go on. */
  lemma {:induction false} LandingYUnique(g: Grid, x: int, y: int, r: int, kind: Kind, angle: Angle)
    requires WellFormed(g) && y <= r && !Placeable(g, x, r + 1, kind, angle)
    requires PassesDown(g, x, y, r, kind, angle)
    ensures LandingY(g, x, y, kind, angle) == r
    decreases r - y
  {
    if y < r {
      assert Placeable(g, x, y + 1, kind, angle) && PassesDown(g, x, y + 1, r, kind, angle);
      LandingYUnique(g, x, y + 1, r, kind, angle);
    }
  }

  /** The simple wall kick: the rotated piece is tried at x, then x - 1, then
      x + 1; the result is the first column that is placeable, if any. */
  function Kick(g: Grid, x: int, y: int, kind: Kind, angle: Angle): (r: Option<int>)
    requires WellFormed(g)
    ensures r.Some? ==> Placeable(g, r.value, y, kind, NextAngle(angle))
    ensures r.Some? ==> r.value in {x, x - 1, x + 1}
    ensures r != Some(x) ==> !Placeable(g, x, y, kind, NextAngle(angle))
    ensures r.None? || r == Some(x + 1) ==> !Placeable(g, x - 1, y, kind, NextAngle(angle))
    ensures r.None? ==> !Placeable(g, x + 1, y, kind, NextAngle(angle))
  {
    var a := NextAngle(angle);
    if Placeable(g, x, y, kind, a) then Some(x)
    else if Placeable(g, x - 1, y, kind, a) then Some(x - 1)
    else if Placeable(g, x + 1, y, kind, a) then Some(x + 1)
    else None
  }

  /** Against the left wall: when the rotated piece would put a cell left of
      column 0, staying in place and kicking left both fail, so the rotation
      lands one column to the right if that is placeable and is refused
      otherwise. */
  lemma LeftWallKick(g: Grid, x: int, y: int, kind: Kind, angle: Angle, i: int)
    requires WellFormed(g) && 0 <= i < 4 && CellX(x, kind, NextAngle(angle), i) < 0
    ensures Kick(g, x, y, kind, angle)
         == if Placeable(g, x + 1, y, kind, NextAngle(angle)) then Some(x + 1) else None
  {
    var a := NextAngle(angle);
    assert !CellFree(g, CellX(x, kind, a, i), CellY(y, kind, a, i));
    assert !CellFree(g, CellX(x - 1, kind, a, i), CellY(y, kind, a, i));
  }

  // ---------------------------------------------------------------------
  // Spawning at (SpawnX, SpawnY) in orientation 0

  /** On an empty board every kind can spawn. */
  lemma SpawnOnEmptyBoard(kind: Kind)
    ensures Placeable(EmptyGrid(), SpawnX, SpawnY, kind, 0)
  {
    var g := EmptyGrid();
    forall i | 0 <= i < 4
      ensures CellFree(g, CellX(SpawnX, kind, 0, i), CellY(SpawnY, kind, 0, i))
    {
      var cy := CellY(SpawnY, kind, 0, i);
      if cy >= 0 {
        assert g[cy] == EmptyRow();
      }
    }
  }

  /** O, S and Z reach row 0 at the spawn anchor, through cell (SpawnX, 0):
      if that cell is occupied the spawn fails. */
  lemma SpawnBlockedAtCentre(g: Grid, kind: Kind)
    requires WellFormed(g) && kind in {O, S, Z} && g[0][SpawnX] != Empty
    ensures !Placeable(g, SpawnX, SpawnY, kind, 0)
  {
    var i := if kind == S then 3 else 2;
    assert Shape(kind, 0)[i] == Offset(0, 1);
    assert !CellFree(g, CellX(SpawnX, kind, 0, i), CellY(SpawnY, kind, 0, i));
  }

  /** The exact spawn condition: O and Z need (SpawnX, 0) and (SpawnX + 1, 0)
      empty, S needs (SpawnX - 1, 0) and (SpawnX, 0) empty, and I, J, L and T
      always fit. */
  lemma SpawnFits(g: Grid, kind: Kind)
    requires WellFormed(g)
    ensures Placeable(g, SpawnX, SpawnY, kind, 0) <==>
      match kind
      case O => g[0][SpawnX] == Empty && g[0][SpawnX + 1] == Empty
      case Z => g[0][SpawnX] == Empty && g[0][SpawnX + 1] == Empty
      case S => g[0][SpawnX - 1] == Empty && g[0][SpawnX] == Empty
      case _ => true
  {
    PlaceableCells(g, SpawnX, SpawnY, kind, 0);
  }

  /** Placeable spelled out as its four cell tests. */
  lemma PlaceableCells(g: Grid, x: int, y: int, kind: Kind, angle: Angle)
    requires WellFormed(g)
    ensures Placeable(g, x, y, kind, angle) <==>
      CellFree(g, CellX(x, kind, angle, 0), CellY(y, kind, angle, 0))
      && CellFree(g, CellX(x, kind, angle, 1), CellY(y, kind, angle, 1))
      && CellFree(g, CellX(x, kind, angle, 2), CellY(y, kind, angle, 2))
      && CellFree(g, CellX(x, kind, angle, 3), CellY(y, kind, angle, 3))
  {
    if CellFree(g, CellX(x, kind, angle, 0), CellY(y, kind, angle, 0))
      && CellFree(g, CellX(x, kind, angle, 1), CellY(y, kind, angle, 1))
      && CellFree(g, CellX(x, kind, angle, 2), CellY(y, kind, angle, 2))
      && CellFree(g, CellX(x, kind, angle, 3), CellY(y, kind, angle, 3))
    {
      forall i | 0 <= i < 4 ensures CellFree(g, CellX(x, kind, angle, i), CellY(y, kind, angle, i)) {
        assert i == 0 || i == 1 || i == 2 || i == 3;
      }
    }
  }

  /** I, J, L and T lie wholly in the rows above the board at the spawn anchor:
      they can always spawn, whatever the board holds, and locking them there
      leaves the board as it was (all four cells are dropped). */
  lemma SpawnAboveBoard(g: Grid, kind: Kind)
    requires WellFormed(g) && kind in {I, J, L, T}
    ensures Placeable(g, SpawnX, SpawnY, kind, 0)
    ensures Fixed(g, SpawnX, SpawnY, kind, 0) == g
  {
    var h := Fixed(g, SpawnX, SpawnY, kind, 0);
    forall cy | 0 <= cy < Height ensures h[cy] == g[cy] {
      forall cx | 0 <= cx < Width ensures h[cy][cx] == g[cy][cx] {
        FixedAt(g, SpawnX, SpawnY, kind, 0, cx, cy);
      }
    }
  }
}
