/**
 * The two collision tests of the engine, as predicates on a piece, its
 * anchor (the arena column and row of the matrix's top-left cell) and the
 * arena contents.  The engine's read-only check methods are proved equal to
 * these; the lemmas below say what the tests mean for the cells of a piece.
 */
module Collision {
  import opened Pieces
  import opened Arena

  /**
   * `check_collision_arena_wall`: the leftmost occupied column lands left of
   * column 0, or the rightmost lands at or past the right wall.  When the
   * test passes, every occupied cell lands in a column of the grid.
   */
  predicate WallCollision(p: Piece, px: int)
    requires p.WellFormed()
    ensures !WallCollision(p, px) ==>
              forall x, y :: 0 <= x < Size(p.kind) && 0 <= y < Size(p.kind) && p.At(x, y) != 0 ==>
                0 <= px + x < Width
  {
    EdgesBoundOccupiedCells(p);
    LeftEdge(p) + px < 0 || RightEdge(p) + px >= Width
  }

  /**
   * Cell (x, y) of the piece is occupied and lands on the floor (or below
   * it) or on a settled block.  Matrix columns at or past the right wall are
   * skipped, as the C loop skips them.  The arena cell is read through the
   * flat index, so a column left of the wall reads the neighbouring row.
   */
  predicate CellHits(a: seq<int>, p: Piece, px: int, py: int, x: int, y: int)
    requires IsArena(a) && p.WellFormed()
    requires 0 <= x < Size(p.kind) && 0 <= y < Size(p.kind)
  {
    x + px < Width && p.At(x, y) != 0 && (py + y >= Height || CellAt(a, Index(px + x, py + y)) != 0)
  }

  /**
   * `check_collision_arena_pieces`: some cell of the piece hits the floor or
   * a block.  Only an occupied cell can hit, so an empty matrix never does.
   */
  predicate PiecesCollision(a: seq<int>, p: Piece, px: int, py: int)
    requires IsArena(a) && p.WellFormed()
    ensures PiecesCollision(a, p, px, py) ==> HasOccupiedCell(p)
  {
    exists x, y :: 0 <= x < Size(p.kind) && 0 <= y < Size(p.kind) && CellHits(a, p, px, py, x, y)
  }

  /**
   * Every occupied cell of the piece at or below the top row lies inside the
   * grid, on a cell that is empty.
   */
  predicate LandsOnEmpty(a: seq<int>, p: Piece, px: int, py: int)
    requires IsArena(a) && p.WellFormed()
  {
    forall x, y :: 0 <= x < Size(p.kind) && 0 <= y < Size(p.kind) && p.At(x, y) != 0 && 0 <= py + y ==>
      0 <= px + x < Width && py + y < Height && CellAt(a, Index(px + x, py + y)) == 0
  }

  /**
   * `check_collision_side`: either test fires.  A position that passes both
   * puts every occupied cell of the piece in the grid on an empty cell.
   */
  predicate SideCollision(a: seq<int>, p: Piece, px: int, py: int)
    requires IsArena(a) && p.WellFormed()
    ensures !SideCollision(a, p, px, py) ==> LandsOnEmpty(a, p, px, py)
  {
    if WallCollision(p, px) || PiecesCollision(a, p, px, py) then true
    else LockFillsEmptyCells(a, p, px, py); false
  }

  /**
   * The wall test compares only the two edge columns, yet for a piece with
   * an occupied cell it fires exactly when some occupied cell lies outside
   * columns 0 .. Width-1.
   */
  lemma {:induction false} WallCollisionIffCellOutside(p: Piece, px: int)
    requires p.WellFormed() && HasOccupiedCell(p)
    ensures WallCollision(p, px) <==>
              exists x, y :: 0 <= x < Size(p.kind) && 0 <= y < Size(p.kind) && p.At(x, y) != 0 &&
                             (px + x < 0 || px + x >= Width)
  {
    var n := Size(p.kind);
    EdgesBoundOccupiedCells(p);
    if LeftEdge(p) + px < 0 {
      var y :| 0 <= y < n && p.At(LeftEdge(p), y) != 0;
      assert px + LeftEdge(p) < 0;
    } else if RightEdge(p) + px >= Width {
      var y :| 0 <= y < n && p.At(RightEdge(p), y) != 0;
      assert px + RightEdge(p) >= Width;
    }
  }

  /** On an empty arena a piece collides only with the floor. */
  lemma {:induction false} EmptyArenaCollision(p: Piece, px: int, py: int)
    requires p.WellFormed()
    ensures PiecesCollision(EmptyArena(), p, px, py) <==>
              exists x, y :: 0 <= x < Size(p.kind) && 0 <= y < Size(p.kind) && p.At(x, y) != 0 &&
                             x + px < Width && py + y >= Height
  {
    var n := Size(p.kind);
    if PiecesCollision(EmptyArena(), p, px, py) {
      var x, y :| 0 <= x < n && 0 <= y < n && CellHits(EmptyArena(), p, px, py, x, y);
      assert py + y >= Height;
    } else {
      forall x, y | 0 <= x < n && 0 <= y < n && p.At(x, y) != 0 && x + px < Width
        ensures py + y < Height
      {
        assert !CellHits(EmptyArena(), p, px, py, x, y);
      }
    }
  }

  /** A piece that has sunk to the floor row or below always collides. */
  lemma {:induction false} BelowFloorCollides(a: seq<int>, p: Piece, px: int, py: int)
    requires IsArena(a) && p.WellFormed() && HasOccupiedCell(p) && !WallCollision(p, px)
    requires py >= Height
    ensures PiecesCollision(a, p, px, py)
  {
    var n := Size(p.kind);
    var x, y :| 0 <= x < n && 0 <= y < n && p.At(x, y) != 0;
    assert CellHits(a, p, px, py, x, y);
  }

  /**
   * A piece that collides neither with the walls nor with blocks lies over
   * empty cells above the floor: locking it there sets each of its cells in
   * the grid to the piece's value and overwrites no settled block.
   */
  lemma {:induction false} LockFillsEmptyCells(a: seq<int>, p: Piece, px: int, py: int)
    requires IsArena(a) && p.WellFormed()
    requires !WallCollision(p, px) && !PiecesCollision(a, p, px, py)
    ensures LandsOnEmpty(a, p, px, py)
    ensures forall x, y :: 0 <= x < Size(p.kind) && 0 <= y < Size(p.kind) && p.At(x, y) != 0 && 0 <= py + y ==>
              CellAt(Overlay(a, p, px, py), Index(px + x, py + y)) == p.At(x, y)
  {
    var n := Size(p.kind);
    forall x, y | 0 <= x < n && 0 <= y < n && p.At(x, y) != 0 && 0 <= py + y
      ensures 0 <= px + x < Width && py + y < Height && CellAt(a, Index(px + x, py + y)) == 0
      ensures CellAt(Overlay(a, p, px, py), Index(px + x, py + y)) == p.At(x, y)
    {
      assert !CellHits(a, p, px, py, x, y);
      assert 0 <= px + x < Width && py + y < Height;
      assert PieceCell(p, px, py, px + x, py + y) == p.At(x, y);
      OverlayAt(a, p, px, py, px + x, py + y);
    }
  }

  /**
   * Locking a piece that passes the side test on an arena whose cells are
   * empty or coloured leaves them so: each piece cell is added onto an empty
   * cell.
   */
  lemma {:induction false} LockKeepsColours(a: seq<int>, p: Piece, px: int, py: int)
    requires IsArena(a) && p.WellFormed() && Coloured(a) && Coloured(p.cells)
    requires !SideCollision(a, p, px, py)
    ensures Coloured(Overlay(a, p, px, py))
  {
    var o := Overlay(a, p, px, py);
    forall i | 0 <= i < Cells ensures 0 <= o[i] <= 7 {
      CellOfIndex(i);
      LockedCellColoured(a, p, px, py, ColumnOf(i), RowOf(i));
    }
  }

  /** One cell of `LockKeepsColours`: cell (c, r) of the overlay is empty or coloured. */
  lemma {:induction false} LockedCellColoured(a: seq<int>, p: Piece, px: int, py: int, c: int, r: int)
    requires IsArena(a) && p.WellFormed() && Coloured(a) && Coloured(p.cells)
    requires !SideCollision(a, p, px, py)
    requires 0 <= c < Width && 0 <= r < Height
    ensures 0 <= Overlay(a, p, px, py)[Index(c, r)] <= 7
  {
    var n := Size(p.kind);
    OverlayAt(a, p, px, py, c, r);
    assert 0 <= a[Index(c, r)] <= 7;
    if px <= c < px + n && py <= r < py + n {
      var x, y := c - px, r - py;
      IndexOfCoords(x, y, n);
      assert 0 <= p.At(x, y) <= 7;
      if p.At(x, y) != 0 {
        assert LandsOnEmpty(a, p, px, py);
        assert CellAt(a, Index(px + x, py + y)) == 0;
      }
    }
  }

  /**
   * The read of `check_collision_arena_pieces` guarded to the buffer: a
   * matrix cell on a row above the top row hits nothing, whatever the arena
   * holds, because its flat index lies before the buffer.
   */
  lemma {:induction false} AboveTopCellNeverHits(a: seq<int>, p: Piece, px: int, py: int, x: int, y: int)
    requires IsArena(a) && p.WellFormed()
    requires 0 <= x < Size(p.kind) && 0 <= y < Size(p.kind) && py + y < 0
    ensures !CellHits(a, p, px, py, x, y)
  {
    if x + px < Width {
      assert Index(px + x, py + y) < 0;
    }
  }

  /**
   * With the guarded read, the block test is the same test over the matrix
   * cells on rows 0 and below only: cells above the top row count as empty.
   */
  lemma {:induction false} CollisionIgnoresRowsAboveTop(a: seq<int>, p: Piece, px: int, py: int)
    requires IsArena(a) && p.WellFormed()
    ensures PiecesCollision(a, p, px, py) <==>
              exists x, y :: 0 <= x < Size(p.kind) && 0 <= y < Size(p.kind) && 0 <= py + y &&
                             CellHits(a, p, px, py, x, y)
  {
    var n := Size(p.kind);
    if PiecesCollision(a, p, px, py) {
      var x, y :| 0 <= x < n && 0 <= y < n && CellHits(a, p, px, py, x, y);
      if py + y < 0 {
        AboveTopCellNeverHits(a, p, px, py, x, y);
      }
    }
  }

  /** A piece whose occupied cells all lie above the top row collides with nothing. */
  lemma {:induction false} AboveArenaNeverCollides(a: seq<int>, p: Piece, px: int, py: int)
    requires IsArena(a) && p.WellFormed()
    requires forall x, y :: 0 <= x < Size(p.kind) && 0 <= y < Size(p.kind) && p.At(x, y) != 0 ==> py + y < 0
    ensures !PiecesCollision(a, p, px, py)
  {
    var n := Size(p.kind);
    forall x, y | 0 <= x < n && 0 <= y < n ensures !CellHits(a, p, px, py, x, y) {
      if p.At(x, y) != 0 {
        AboveTopCellNeverHits(a, p, px, py, x, y);
      }
    }
  }
}
