/**
 * The engine state (`struct GameData`) and its steps: spawning with
 * alignment, the collision checks, moving and rotating with revert, locking
 * a piece, clearing full rows, dropping and levelling up.
 *
 * The arena and the per-kind counters are heap buffers that the steps update
 * in place; `check_filled_rows` swaps in a freshly allocated arena.  The
 * random choice of the next kind is a parameter of the steps that spawn.
 */
module Engine {
  import opened Pieces
  import opened Arena
  import opened Collision
  import opened Lifecycle

  /** `START_POSITION_X`, `START_POSITION_Y`: the anchor before alignment. */
  const StartX := 4
  const StartY := 0

  /** The C enum `Direction`. */
  datatype Direction = Left | Right

  /** The column shift of a move. */
  function Delta(dir: Direction): (d: int)
    ensures d < 0 <==> dir == Left
    ensures d * d == 1
  {
    if dir == Left then -1 else 1
  }

  /** The piece after `rotate_piece` turned it, before the collision test. */
  function Turned(p: Piece, dir: Direction): (r: Piece)
    requires p.WellFormed()
    ensures r.WellFormed() && r.kind == p.kind
  {
    if dir == Right then RotatedRight(p) else RotatedLeft(p)
  }

  /** Turning back the other way undoes a turn. */
  lemma {:induction false} TurnedBack(p: Piece, dir: Direction)
    requires p.WellFormed()
    ensures Turned(Turned(p, dir), if dir == Left then Right else Left) == p
  {
    if dir == Right {
      RightThenLeft(p);
    } else {
      LeftThenRight(p);
    }
  }

  /**
   * The anchor column after `align_x`: the start column less the empty
   * leading columns, so at most one matrix width left of the start.
   */
  function SpawnX(p: Piece): (x: int)
    requires p.WellFormed()
    ensures StartX - Size(p.kind) <= x <= StartX
  {
    StartX - FirstOccupiedColumn(p, 0)
  }

  /**
   * The anchor row after `align_y`: the start row less the empty leading
   * rows, so at most one matrix height above the start.
   */
  function SpawnY(p: Piece): (y: int)
    requires p.WellFormed()
    ensures StartY - Size(p.kind) <= y <= StartY
  {
    StartY - FirstOccupiedRow(p, 0)
  }

  /**
   * Alignment puts the leftmost occupied column of a spawned piece on the
   * start column and its top occupied row on the start row, so any piece
   * spawns clear of both walls and within the top Size rows of the arena.
   */
  lemma {:induction false} SpawnPlacement(p: Piece)
    requires p.WellFormed()
    ensures !WallCollision(p, SpawnX(p))
    ensures HasOccupiedCell(p) ==> LeftEdge(p) + SpawnX(p) == StartX
    ensures HasOccupiedCell(p) ==>
              exists x, y :: 0 <= x < Size(p.kind) && 0 <= y < Size(p.kind) && p.At(x, y) != 0 && SpawnY(p) + y == StartY
    ensures forall x, y :: 0 <= x < Size(p.kind) && 0 <= y < Size(p.kind) && p.At(x, y) != 0 ==>
              StartY <= SpawnY(p) + y < StartY + Size(p.kind)
  {
    var n := Size(p.kind);
    EdgesBoundOccupiedCells(p);
    FirstOccupiedRowExact(p, 0);
    forall x, y | 0 <= x < n && 0 <= y < n && p.At(x, y) != 0
      ensures StartY <= SpawnY(p) + y < StartY + n
    {
      assert RowOccupied(p, y);
    }
    if HasOccupiedCell(p) {
      var x, y :| 0 <= x < n && 0 <= y < n && p.At(x, y) != 0;
      assert ColumnOccupied(p, x);
      assert RowOccupied(p, y);
      var r := FirstOccupiedRow(p, 0);
      var c :| 0 <= c < n && p.At(c, r) != 0;
      assert SpawnY(p) + r == StartY;
    }
  }

  /** On an empty arena a freshly spawned piece never collides. */
  lemma {:induction false} SpawnOnEmptyArena(p: Piece)
    requires p.WellFormed()
    ensures !PiecesCollision(EmptyArena(), p, SpawnX(p), SpawnY(p))
  {
    SpawnPlacement(p);
    EmptyArenaCollision(p, SpawnX(p), SpawnY(p));
  }

  /**
   * The part of a piece's contribution to column col, row row that the
   * writing loops have added once they reach matrix cell (x, y): the cells of
   * the rows above y and those left of x in row y.
   */
  ghost function Covered(p: Piece, px: int, py: int, col: int, row: int, x: int, y: int): int
    requires p.WellFormed()
  {
    var n := Size(p.kind);
    var cx, cy := col - px, row - py;
    if 0 <= cx < n && 0 <= cy < n && (cy < y || (cy == y && cx < x)) then p.At(cx, cy) else 0
  }

  /**
   * Passing matrix cell (x, y) adds its value to column px + x, row py + y
   * and to no other column and row.
   */
  lemma {:induction false} CoverStep(p: Piece, px: int, py: int, x: int, y: int, c: int, r: int)
    requires p.WellFormed()
    requires 0 <= x < Size(p.kind) && 0 <= y < Size(p.kind)
    ensures Covered(p, px, py, c, r, x + 1, y) ==
            Covered(p, px, py, c, r, x, y) + if c == px + x && r == py + y then p.At(x, y) else 0
  {
    if c == px + x && r == py + y {
      assert c - px == x && r - py == y;
    }
  }

  /**
   * Passing matrix cell (x, y) adds its value to the one buffer cell it is
   * written to, and to nothing else, when the piece is clear of the walls.
   */
  lemma {:induction false} CoverCell(p: Piece, px: int, py: int, x: int, y: int)
    requires p.WellFormed() && !WallCollision(p, px)
    requires 0 <= x < Size(p.kind) && 0 <= y < Size(p.kind)
    ensures forall i :: 0 <= i < Cells ==>
              Covered(p, px, py, ColumnOf(i), RowOf(i), x + 1, y) ==
              Covered(p, px, py, ColumnOf(i), RowOf(i), x, y) + if i == Index(px + x, py + y) then p.At(x, y) else 0
  {
    var target := Index(px + x, py + y);
    var v := p.At(x, y);
    if v != 0 {
      assert 0 <= px + x < Width;
    }
    forall i | 0 <= i < Cells
      ensures Covered(p, px, py, ColumnOf(i), RowOf(i), x + 1, y) ==
              Covered(p, px, py, ColumnOf(i), RowOf(i), x, y) + if i == target then v else 0
    {
      CellOfIndex(i);
      CoverStep(p, px, py, x, y, ColumnOf(i), RowOf(i));
      if v != 0 {
        IndexInjective(ColumnOf(i), RowOf(i), px + x, py + y);
      }
    }
  }

  /**
   * Finishing matrix row y is starting row y + 1, and a row below the
   * floor adds nothing to the buffer.
   */
  lemma {:induction false} CoverRow(p: Piece, px: int, py: int, y: int)
    requires p.WellFormed() && 0 <= y < Size(p.kind)
    ensures forall i :: 0 <= i < Cells ==>
              Covered(p, px, py, ColumnOf(i), RowOf(i), Size(p.kind), y) ==
              Covered(p, px, py, ColumnOf(i), RowOf(i), 0, y + 1)
    ensures Height <= py + y ==>
              forall i :: 0 <= i < Cells ==>
                Covered(p, px, py, ColumnOf(i), RowOf(i), 0, y) ==
                Covered(p, px, py, ColumnOf(i), RowOf(i), 0, y + 1)
  {
    forall i | 0 <= i < Cells
      ensures RowOf(i) < Height
    {
      CellOfIndex(i);
    }
  }

  /** Once every matrix row is passed, the writing loops have added the whole piece. */
  lemma {:induction false} CoverAll(p: Piece, px: int, py: int, a: seq<int>)
    requires p.WellFormed() && IsArena(a)
    ensures forall i :: 0 <= i < Cells ==>
              Overlay(a, p, px, py)[i] == a[i] + Covered(p, px, py, ColumnOf(i), RowOf(i), 0, Size(p.kind))
  {
  }

  /**
   * The new matrix `rotate_piece_right` is filling once it has copied source
   * rows 0 .. j-1 and the first i cells of source row j; cells not yet
   * written are still 0.  Target cell (x, y) comes from source cell
   * (y, size-1-x).
   */
  ghost function RotationBuffer(p: Piece, j: int, i: int): (b: seq<int>)
    requires p.WellFormed()
    ensures |b| == Size(p.kind) * Size(p.kind)
  {
    var n := Size(p.kind);
    seq(n * n, k requires 0 <= k < n * n =>
      CoordsOfIndex(k, n);
      var sx, sy := k / n, n - 1 - k % n;
      if sy < j || (sy == j && sx < i) then p.At(sx, sy) else 0)
  }

  /** Before the copy the buffer is all zero. */
  lemma {:induction false} RotationBufferStart(p: Piece)
    requires p.WellFormed()
    ensures RotationBuffer(p, 0, 0) == seq(Size(p.kind) * Size(p.kind), _ => 0)
  {
  }

  /** Copying source cell (i, j) writes it to target cell (size-1-j, i) and changes nothing else. */
  lemma {:induction false} RotationBufferStep(p: Piece, j: int, i: int)
    requires p.WellFormed() && 0 <= j < Size(p.kind) && 0 <= i < Size(p.kind)
    ensures var n := Size(p.kind);
            var to := CoordsToArrayIndex(n - 1 - j, i, n);
            0 <= to < n * n && RotationBuffer(p, j, i + 1) == RotationBuffer(p, j, i)[to := p.At(i, j)]
  {
    var n := Size(p.kind);
    var to := CoordsToArrayIndex(n - 1 - j, i, n);
    IndexOfCoords(n - 1 - j, i, n);
    var before, after := RotationBuffer(p, j, i), RotationBuffer(p, j, i + 1);
    forall k | 0 <= k < n * n ensures after[k] == before[to := p.At(i, j)][k] {
      CoordsOfIndex(k, n);
      if k != to {
        assert k / n != i || k % n != n - 1 - j;
      }
    }
  }

  /** A finished source row leads straight into the next one. */
  lemma {:induction false} RotationBufferRow(p: Piece, j: int)
    requires p.WellFormed() && 0 <= j < Size(p.kind)
    ensures RotationBuffer(p, j, Size(p.kind)) == RotationBuffer(p, j + 1, 0)
  {
    var n := Size(p.kind);
    forall k | 0 <= k < n * n ensures RotationBuffer(p, j, n)[k] == RotationBuffer(p, j + 1, 0)[k] {
      CoordsOfIndex(k, n);
    }
  }

  /** Once every source row is copied, the buffer holds the right rotation. */
  lemma {:induction false} RotationBufferDone(p: Piece)
    requires p.WellFormed() && p.kind != O
    ensures Piece(p.kind, RotationBuffer(p, Size(p.kind), 0)) == RotatedRight(p)
  {
    var n := Size(p.kind);
    forall k | 0 <= k < n * n ensures RotationBuffer(p, n, 0)[k] == RotatedRight(p).cells[k] {
      CoordsOfIndex(k, n);
    }
  }

  /**
   * The inner loop of the scan in `check_filled_rows`: walk row `row` from
   * the left, stop at the first empty cell, and on reaching the last column
   * record the row in slot bufferIndex.  Returns the next free slot.
   */
  method ScanRow(arena: array<int>, row: int, rowBuffer: array<int>, bufferIndex: nat, ghost a: seq<int>) returns (next: nat)
    requires arena.Length == Cells && 0 <= row < Height && rowBuffer.Length == 4 && rowBuffer != arena
    requires arena[..] == a && (RowFull(a, row) ==> bufferIndex < 4)
    modifies rowBuffer
    ensures next == if RowFull(a, row) then bufferIndex + 1 else bufferIndex
    ensures rowBuffer[..] == if RowFull(a, row) then old(rowBuffer[..])[bufferIndex := row] else old(rowBuffer[..])
  {
    next := bufferIndex;
    var x := 0;
    while x < Width
      invariant 0 <= x <= Width && arena[..] == a
      invariant x < Width ==>
                  (RowFull(a, row) <==> FilledFrom(a, row, x)) && next == bufferIndex &&
                  forall k :: 0 <= k < 4 ==> rowBuffer[k] == old(rowBuffer[k])
      invariant x == Width ==>
                  RowFull(a, row) && next == bufferIndex + 1 &&
                  forall k :: 0 <= k < 4 ==> rowBuffer[k] == if k == bufferIndex then row else old(rowBuffer[k])
      modifies rowBuffer
    {
      if arena[Index(x, row)] == 0 {
        break;
      }
      if x == Width - 1 {
        rowBuffer[next] := row;
        next := next + 1;
      }
      x := x + 1;
    }
    assert forall k :: 0 <= k < 4 ==>
             rowBuffer[..][k] == (if RowFull(a, row) then old(rowBuffer[..])[bufferIndex := row] else old(rowBuffer[..]))[k];
  }

  /**
   * The first loop of `check_filled_rows`: scan the rows bottom up and
   * record each full row in the next slot of a four-slot buffer that starts
   * out as 0xFF.  Returns the buffer and the number of rows recorded.
   */
  method ScanFilledRows(arena: array<int>) returns (rowBuffer: array<int>, count: nat)
    requires arena.Length == Cells && FullRowCount(arena[..]) <= 4
    ensures fresh(rowBuffer)
    ensures count == FullRowCount(arena[..]) && rowBuffer[..] == RowBuffer(arena[..])
  {
    ghost var a := arena[..];
    rowBuffer := new int[] [Unused, Unused, Unused, Unused];
    var bufferIndex := 0;
    var row := Height - 1;
    ghost var scanned := Height;
    while row >= 0
      invariant -1 <= row < Height && scanned == row + 1
      invariant bufferIndex == |FullRowsFrom(a, scanned)| <= 4
      invariant rowBuffer[..] == RowBufferFrom(a, scanned)
      invariant arena[..] == a
      modifies rowBuffer
    {
      RowBufferStep(a, row);
      bufferIndex := ScanRow(arena, row, rowBuffer, bufferIndex, a);
      scanned := row;
      row := row - 1;
    }
    assert scanned == 0;
    assert rowBuffer[..] == RowBuffer(a);
    count := bufferIndex;
  }

  /**
   * The `memcpy` of `check_filled_rows`: the ten cells of row `row` of src
   * over row `cur` of dst.  When dst holds the rows kept below `row` packed
   * at its bottom and `row` is kept, it then holds the rows kept from `row`
   * on.
   */
  method CopyRowCells(dst: array<int>, cur: int, src: array<int>, row: int, ghost a: seq<int>)
    requires dst.Length == Cells && src.Length == Cells && dst != src && |a| == Cells
    requires forall j :: 0 <= j < Cells ==> src[j] == a[j]
    requires 0 <= row < Height && !RowFull(a, row)
    requires cur == Height - 1 - |KeptRowsFrom(a, row + 1)|
    requires forall i :: 0 <= i < Cells ==> dst[i] == PackedCell(KeptRowsFrom(a, row + 1), i)
    modifies dst
    ensures 0 <= cur < Height
    ensures forall i :: 0 <= i < Cells ==>
              dst[i] == if Index(0, cur) <= i < Index(0, cur) + Width then src[i - Index(0, cur) + Index(0, row)] else old(dst[i])
    ensures forall i :: 0 <= i < Cells ==> dst[i] == PackedCell(KeptRowsFrom(a, row), i)
  {
    CopyRowPacks(a, row, cur);
    forall i | Index(0, cur) <= i < Index(0, cur) + Width {
      dst[i] := src[i - Index(0, cur) + Index(0, row)];
    }
  }

  /** The `calloc` of a fresh arena buffer: every cell zero. */
  method ZeroedArena() returns (cells: array<int>)
    ensures fresh(cells) && cells[..] == EmptyArena()
  {
    cells := new int[Cells](_ => 0);
  }

  /**
   * The second loop of `check_filled_rows` after scanning rows Height-1
   * down to lo: the buffer index has passed the full rows among them, the
   * next row to fill lies just above the kept ones, and the new arena holds
   * the kept rows packed at its bottom.
   */
  ghost predicate CompactedFrom(a: seq<int>, lo: int, bufferIndex: int, rowIndex: int, cells: seq<int>)
    requires IsArena(a) && 0 <= lo <= Height
  {
    bufferIndex == |FullRowsFrom(a, lo)| && rowIndex == Height - 1 - |KeptRowsFrom(a, lo)| &&
    |cells| == Cells && forall i :: 0 <= i < Cells ==> cells[i] == PackedCell(KeptRowsFrom(a, lo), i)
  }

  /**
   * One pass of the second loop of `check_filled_rows` at row `row`: skip it
   * when the buffer names it next, otherwise copy it to row
   * currentRowIndex of the new arena and move that index up.  The new
   * arena then holds the rows kept from `row` on, packed at its bottom.
   */
  method CompactRow(newArena: array<int>, arena: array<int>, rowBuffer: array<int>, row: int,
                    bufferIndex: nat, currentRowIndex: int, ghost a: seq<int>)
    returns (nextBufferIndex: nat, nextRowIndex: int)
    requires newArena.Length == Cells && arena.Length == Cells && rowBuffer.Length == 4
    requires newArena != arena && newArena != rowBuffer
    requires IsArena(a) && FullRowCount(a) <= 4 && 0 <= row < Height
    requires arena[..] == a && rowBuffer[..] == RowBuffer(a)
    requires CompactedFrom(a, row + 1, bufferIndex, currentRowIndex, newArena[..])
    modifies newArena
    ensures CompactedFrom(a, row, nextBufferIndex, nextRowIndex, newArena[..])
  {
    RowBufferMarksFullRow(a, row);
    if bufferIndex < 4 && row == rowBuffer[bufferIndex] {
      SkipFullRow(a, row);
      nextBufferIndex, nextRowIndex := bufferIndex + 1, currentRowIndex;
    } else {
      KeepRow(a, row);
      CopyRowCells(newArena, currentRowIndex, arena, row, a);
      nextBufferIndex, nextRowIndex := bufferIndex, currentRowIndex - 1;
    }
  }

  /**
   * The second loop of `check_filled_rows`: walk the rows bottom up,
   * skipping the row the buffer names next and copying every other row
   * into a fresh zeroed arena, filling it from the bottom.  The buffer is
   * consulted only while a slot is left.
   */
  method CompactRows(arena: array<int>, rowBuffer: array<int>) returns (newArena: array<int>)
    requires arena.Length == Cells && FullRowCount(arena[..]) <= 4 && rowBuffer != arena
    requires rowBuffer.Length == 4 && rowBuffer[..] == RowBuffer(arena[..])
    ensures fresh(newArena) && newArena[..] == Cleared(arena[..])
  {
    ghost var a := arena[..];
    newArena := ZeroedArena();
    PackedNothing(a);
    var currentRowIndex := Height - 1;
    var bufferIndex := 0;
    var row := Height - 1;
    while row >= 0
      invariant -1 <= row < Height
      invariant CompactedFrom(a, row + 1, bufferIndex, currentRowIndex, newArena[..])
      modifies newArena
    {
      bufferIndex, currentRowIndex := CompactRow(newArena, arena, rowBuffer, row, bufferIndex, currentRowIndex, a);
      row := row - 1;
    }
    assert row + 1 == 0;
    PackedFromCells(newArena[..], KeptRowsFrom(a, row + 1));
  }

  class Game {
    var state: GameState
    var current: Piece
    var next: Piece
    var arena: array<int>
    var positionX: int
    var positionY: int
    var score: nat
    var level: nat
    var pieceCount: array<int>
    var clearedLines: nat
    var isDefeat: bool

    /** The buffers have their sizes, the pieces their matrices, and the buffers are distinct. */
    ghost predicate Shaped()
      reads this
    {
      current.WellFormed() && next.WellFormed() &&
      arena.Length == Cells && pieceCount.Length == 7 && arena != pieceCount
    }

    /**
     * What every step keeps: no full row is left standing, the falling piece
     * is clear of the walls, the level follows the cleared lines, and every
     * cell of the pieces is empty or a kind's colour.  Until defeat, the
     * arena cells are empty or coloured too and the falling piece overlaps
     * no settled block.
     */
    ghost predicate Valid()
      reads this, arena
    {
      Shaped() && NoFullRow(arena[..]) && !WallCollision(current, positionX) &&
      level == clearedLines / 10 &&
      Coloured(current.cells) && Coloured(next.cells) &&
      (!isDefeat ==> Coloured(arena[..]) && !PiecesCollision(arena[..], current, positionX, positionY))
    }

    /**
     * `init_gamedata`: an empty arena, zero counters, state playing, and the
     * first two random kinds given as parameters; the first one is spawned.
     */
    constructor (first: Kind, second: Kind)
      ensures Valid() && fresh(arena) && fresh(pieceCount)
      ensures state == Playing && score == 0 && level == 0 && clearedLines == 0 && !isDefeat
      ensures current == Canonical(first) && next == Canonical(second)
      ensures positionX == SpawnX(current) && positionY == SpawnY(current)
      ensures arena[..] == EmptyArena()
      ensures forall k :: 0 <= k < 7 ==> pieceCount[k] == if k == KindIndex(first) then 1 else 0
    {
      var cells := ZeroedArena();
      state := Playing;
      arena := cells;
      pieceCount := new int[7](_ => 0);
      positionX := StartX;
      positionY := StartY;
      score := 0;
      level := 0;
      clearedLines := 0;
      isDefeat := false;
      next := Canonical(first);
      current := next;
      new;
      SpawnNewPiece(second);
      SpawnOnEmptyArena(current);
    }

    /** `align_y`: lift the anchor by one for each empty row at the top of the matrix. */
    method AlignY()
      requires Shaped()
      modifies this`positionY
      ensures positionY == old(positionY) - FirstOccupiedRow(current, 0)
    {
      FirstOccupiedRowExact(current, 0);
      var size := Size(current.kind);
      var y := 0;
      while y < size
        invariant 0 <= y <= size
        invariant forall r :: 0 <= r < y ==> !RowOccupied(current, r)
        invariant positionY == old(positionY) - y
      {
        var x := 0;
        while x < size
          invariant 0 <= x <= size
          invariant forall c :: 0 <= c < x ==> current.At(c, y) == 0
        {
          if current.At(x, y) != 0 {
            assert RowOccupied(current, y);
            return;
          }
          x := x + 1;
        }
        positionY := positionY - 1;
        y := y + 1;
      }
    }

    /** `align_x`: shift the anchor left by one for each empty column at the left of the matrix. */
    method AlignX()
      requires Shaped()
      modifies this`positionX
      ensures positionX == old(positionX) - FirstOccupiedColumn(current, 0)
    {
      FirstOccupiedColumnExact(current, 0);
      var size := Size(current.kind);
      var x := 0;
      while x < size
        invariant 0 <= x <= size
        invariant forall c :: 0 <= c < x ==> !ColumnOccupied(current, c)
        invariant positionX == old(positionX) - x
      {
        var y := 0;
        while y < size
          invariant 0 <= y <= size
          invariant forall r :: 0 <= r < y ==> current.At(x, r) == 0
        {
          if current.At(x, y) != 0 {
            assert ColumnOccupied(current, x);
            return;
          }
          y := y + 1;
        }
        positionX := positionX - 1;
        x := x + 1;
      }
    }

    /** `check_collision_arena_wall`: scan for the leftmost and rightmost occupied columns. */
    method CheckCollisionArenaWall() returns (collides: bool)
      requires Shaped()
      ensures collides == WallCollision(current, positionX)
    {
      var size := Size(current.kind);
      var nonZeroLeft := 0;
      var x: int := 0;
      label scanLeft:
      while x < size
        invariant 0 <= x <= size
        invariant forall c :: 0 <= c < x ==> !ColumnOccupied(current, c)
      {
        var y := 0;
        while y < size
          invariant 0 <= y <= size
          invariant forall r :: 0 <= r < y ==> current.At(x, r) == 0
        {
          if current.At(x, y) != 0 {
            assert ColumnOccupied(current, x);
            nonZeroLeft := x;
            break scanLeft;
          }
          y := y + 1;
        }
        x := x + 1;
      }
      assert nonZeroLeft == LeftEdge(current) by {
        FirstOccupiedColumnExact(current, 0);
      }

      var nonZeroRight := 0;
      x := size - 1;
      label scanRight:
      while x >= 0
        invariant -1 <= x < size
        invariant forall c :: x < c < size ==> !ColumnOccupied(current, c)
      {
        var y := 0;
        while y < size
          invariant 0 <= y <= size
          invariant forall r :: 0 <= r < y ==> current.At(x, r) == 0
        {
          if current.At(x, y) != 0 {
            assert ColumnOccupied(current, x);
            nonZeroRight := x;
            break scanRight;
          }
          y := y + 1;
        }
        x := x - 1;
      }
      assert nonZeroRight == RightEdge(current) by {
        LastOccupiedColumnExact(current, size - 1);
      }

      collides := nonZeroLeft + positionX < 0 || nonZeroRight + positionX >= Width;
    }

    /**
     * `check_collision_arena_pieces`: scan the matrix row by row for an
     * occupied cell on the floor or on a settled block, skipping columns at
     * or past the right wall.  An arena index outside the buffer reads as
     * empty.
     */
    method CheckCollisionArenaPieces() returns (collides: bool)
      requires Shaped()
      ensures collides == PiecesCollision(arena[..], current, positionX, positionY)
    {
      var size := Size(current.kind);
      var y := 0;
      while y < size
        invariant 0 <= y <= size
        invariant forall r, c :: 0 <= r < y && 0 <= c < size ==>
                    !CellHits(arena[..], current, positionX, positionY, c, r)
      {
        var x := 0;
        while x < size
          invariant 0 <= x <= size
          invariant forall r, c :: 0 <= r < y && 0 <= c < size ==>
                      !CellHits(arena[..], current, positionX, positionY, c, r)
          invariant forall c :: 0 <= c < x ==> !CellHits(arena[..], current, positionX, positionY, c, y)
        {
          if x + positionX >= Width {
            x := x + 1;
            continue;
          }
          if current.At(x, y) != 0 {
            var index := Index(positionX + x, positionY + y);
            if positionY + y >= Height || (0 <= index < Cells && arena[index] != 0) {
              assert CellHits(arena[..], current, positionX, positionY, x, y);
              return true;
            }
          }
          x := x + 1;
        }
        y := y + 1;
      }
      return false;
    }

    /** `check_collision_side`: the wall test, then the block test. */
    method CheckCollisionSide() returns (collides: bool)
      requires Shaped()
      ensures collides == SideCollision(arena[..], current, positionX, positionY)
    {
      collides := CheckCollisionArenaWall();
      if !collides {
        collides := CheckCollisionArenaPieces();
      }
    }

    /**
     * `rotate_piece_right`: an O piece stays as it is; any other piece is
     * copied into a fresh matrix, cell (i, j) going to (size-1-j, i).
     */
    method RotatePieceRight()
      requires Shaped()
      modifies this`current
      ensures current == RotatedRight(old(current))
    {
      if current.kind == O {
        return;
      }
      var p := current;
      var size := Size(p.kind);
      var buffer := new int[size * size](_ => 0);
      RotationBufferStart(p);
      for j := 0 to size
        invariant buffer[..] == RotationBuffer(p, j, 0)
      {
        for i := 0 to size
          invariant buffer[..] == RotationBuffer(p, j, i)
        {
          RotationBufferStep(p, j, i);
          buffer[CoordsToArrayIndex(size - 1 - j, i, size)] := p.At(i, j);
        }
        RotationBufferRow(p, j);
      }
      RotationBufferDone(p);
      current := Piece(p.kind, buffer[..]);
    }

    /** `rotate_piece_left`: three right rotations. */
    method RotatePieceLeft()
      requires Shaped()
      modifies this`current
      ensures current == RotatedLeft(old(current))
    {
      RotatePieceRight();
      RotatePieceRight();
      RotatePieceRight();
    }

    /**
     * `rotate_piece`: turn the piece, and turn it back when it then hits a
     * settled block, the floor or a wall.
     */
    method RotatePiece(dir: Direction)
      requires Valid()
      modifies this`current
      ensures Valid()
      ensures var turned := Turned(old(current), dir);
              current == if SideCollision(arena[..], turned, positionX, positionY) then old(current) else turned
    {
      if dir == Right {
        RotatePieceRight();
      } else {
        RotatePieceLeft();
      }
      var hits := CheckCollisionArenaPieces();
      if !hits {
        hits := CheckCollisionArenaWall();
      }
      if hits {
        TurnedBack(old(current), dir);
        if dir == Left {
          RotatePieceRight();
        } else {
          RotatePieceLeft();
        }
      }
    }

    /** `move`: shift one column, and shift back when the piece then hits a wall or a block. */
    method Move(dir: Direction)
      requires Valid()
      modifies this`positionX
      ensures Valid()
      ensures var moved := old(positionX) + Delta(dir);
              positionX == if SideCollision(arena[..], current, moved, positionY) then old(positionX) else moved
    {
      positionX := positionX + Delta(dir);
      var collides := CheckCollisionSide();
      if collides {
        positionX := positionX - Delta(dir);
      }
    }

    /**
     * `write_piece_to_arena`: add the piece's cells into the arena, skipping
     * rows at or below the floor and columns at or past the right wall.  A
     * cell whose flat index falls outside the buffer is not written.
     */
    method WritePieceToArena()
      requires Shaped() && !WallCollision(current, positionX)
      modifies arena
      ensures arena[..] == Overlay(old(arena[..]), current, positionX, positionY)
    {
      var size := Size(current.kind);
      ghost var base := arena[..];
      for y := 0 to size
        invariant forall i :: 0 <= i < Cells ==>
                    arena[i] == base[i] + Covered(current, positionX, positionY, ColumnOf(i), RowOf(i), 0, y)
      {
        CoverRow(current, positionX, positionY, y);
        if y + positionY >= Height {
          continue;
        }
        for x := 0 to size
          invariant forall i :: 0 <= i < Cells ==>
                      arena[i] == base[i] + Covered(current, positionX, positionY, ColumnOf(i), RowOf(i), x, y)
        {
          CoverCell(current, positionX, positionY, x, y);
          if x + positionX >= Width {
            continue;
          }
          var index := Index(positionX + x, positionY + y);
          if 0 <= index < Cells {
            arena[index] := arena[index] + current.At(x, y);
          }
        }
      }
      CoverAll(current, positionX, positionY, base);
    }

    /**
     * `check_filled_rows`: find the full rows, add the score for clearing
     * them at the current level, and swap in the arena with them removed.
     */
    method CheckFilledRows() returns (rows: nat)
      requires Shaped() && FullRowCount(arena[..]) <= 4
      modifies this
      ensures Shaped() && (arena == old(arena) || fresh(arena))
      ensures rows == FullRowCount(old(arena[..]))
      ensures score == old(score) + Award(rows, level)
      ensures arena[..] == Cleared(old(arena[..]))
      ensures rows == 0 ==> arena == old(arena)
      ensures state == old(state) && current == old(current) && next == old(next)
      ensures positionX == old(positionX) && positionY == old(positionY) && level == old(level)
      ensures pieceCount == old(pieceCount) && clearedLines == old(clearedLines) && isDefeat == old(isDefeat)
    {
      var rowBuffer, bufferIndex := ScanFilledRows(arena);
      rows := bufferIndex;
      if bufferIndex == 0 {
        ClearedWithoutFullRows(arena[..]);
        return;
      }
      score := score + Award(bufferIndex, level);
      var newArena := CompactRows(arena, rowBuffer);
      arena := newArena;
    }

    /** `level_up`: one level per ten cleared lines. */
    method LevelUp()
      modifies this`level
      ensures level == clearedLines / 10
    {
      level := clearedLines / 10;
    }

    /**
     * `spawn_new_piece`: the next piece becomes the current one, a new next
     * piece of the given kind is generated, the anchor is reset and aligned,
     * the kind's counter goes up, and a collision at the spawn point means
     * defeat.
     */
    method SpawnNewPiece(nextKind: Kind)
      requires Shaped()
      modifies this, pieceCount
      ensures Shaped() && arena == old(arena) && pieceCount == old(pieceCount)
      ensures state == old(state) && score == old(score) && level == old(level) && clearedLines == old(clearedLines)
      ensures current == old(next) && next == Canonical(nextKind)
      ensures positionX == SpawnX(current) && positionY == SpawnY(current)
      ensures !WallCollision(current, positionX)
      ensures forall k :: 0 <= k < 7 ==> pieceCount[k] == old(pieceCount[k]) + if k == KindIndex(current.kind) then 1 else 0
      ensures isDefeat == (old(isDefeat) || PiecesCollision(arena[..], current, positionX, positionY))
    {
      current := next;
      next := Canonical(nextKind);
      positionX := StartX;
      positionY := StartY;
      AlignY();
      AlignX();
      var k := KindIndex(current.kind);
      pieceCount[k] := pieceCount[k] + 1;
      var collides := CheckCollisionArenaPieces();
      if collides {
        isDefeat := true;
      }
      assert !WallCollision(current, positionX) by {
        SpawnPlacement(current);
      }
    }

    /**
     * The first part of locking in `drop`: write the piece into the arena,
     * then clear and count the full rows.  Writing adds full rows only among
     * the rows the piece spans, so there are at most four and none is left.
     */
    method SettlePiece() returns (rows: nat)
      requires Valid()
      modifies this, arena
      ensures Shaped() && NoFullRow(arena[..]) && pieceCount == old(pieceCount)
      ensures !old(isDefeat) ==> LandsOnEmpty(old(arena[..]), current, positionX, positionY) && Coloured(arena[..])
      ensures var locked := Overlay(old(arena[..]), current, positionX, positionY);
              rows == FullRowCount(locked) && rows <= 4 && arena[..] == Cleared(locked) &&
              score == old(score) + Award(rows, level)
      ensures state == old(state) && current == old(current) && next == old(next)
      ensures positionX == old(positionX) && positionY == old(positionY) && level == old(level)
      ensures clearedLines == old(clearedLines) && isDefeat == old(isDefeat)
    {
      if !isDefeat {
        LockKeepsColours(arena[..], current, positionX, positionY);
      }
      WritePieceToArena();
      ghost var locked := arena[..];
      OverlayFillsOnlyPieceRows(old(arena[..]), current, positionX, positionY);
      rows := CheckFilledRows();
      ClearedHasNoFullRow(locked);
      if !isDefeat {
        ClearedColoured(locked);
      }
    }

    /**
     * Locking in `drop`: settle the piece, add the cleared rows to the
     * cleared lines, spawn the next piece and update the level.
     */
    method LockPiece(nextKind: Kind) returns (rows: nat)
      requires Valid()
      modifies this, arena, pieceCount
      ensures Valid() && pieceCount == old(pieceCount) && state == old(state)
      ensures !old(isDefeat) ==> LandsOnEmpty(old(arena[..]), old(current), old(positionX), old(positionY))
      ensures var locked := Overlay(old(arena[..]), old(current), old(positionX), old(positionY));
              rows == FullRowCount(locked) && rows <= 4 && arena[..] == Cleared(locked) &&
              score == old(score) + Award(rows, old(level)) &&
              clearedLines == old(clearedLines) + rows
      ensures current == old(next) && next == Canonical(nextKind)
      ensures positionX == SpawnX(current) && positionY == SpawnY(current)
      ensures forall k :: 0 <= k < 7 ==> pieceCount[k] == old(pieceCount[k]) + if k == KindIndex(current.kind) then 1 else 0
      ensures isDefeat == (old(isDefeat) || PiecesCollision(arena[..], current, positionX, positionY))
    {
      rows := SettlePiece();
      clearedLines := clearedLines + rows;
      SpawnNewPiece(nextKind);
      LevelUp();
    }

    /**
     * `drop`: move the piece one row down.  When it then hits the floor or a
     * block it goes back up and is locked.  Returns the number of rows
     * cleared.
     */
    method Drop(nextKind: Kind) returns (rows: nat)
      requires Valid()
      modifies this, arena, pieceCount
      ensures Valid() && pieceCount == old(pieceCount) && state == old(state)
      ensures var lands := PiecesCollision(old(arena[..]), old(current), old(positionX), old(positionY) + 1);
              !lands ==>
                rows == 0 && positionY == old(positionY) + 1 && positionX == old(positionX) &&
                current == old(current) && next == old(next) &&
                arena == old(arena) && arena[..] == old(arena[..]) && pieceCount[..] == old(pieceCount[..]) &&
                score == old(score) && clearedLines == old(clearedLines) && level == old(level) &&
                isDefeat == old(isDefeat)
      ensures var lands := PiecesCollision(old(arena[..]), old(current), old(positionX), old(positionY) + 1);
              var locked := Overlay(old(arena[..]), old(current), old(positionX), old(positionY));
              lands ==>
                (!old(isDefeat) ==> LandsOnEmpty(old(arena[..]), old(current), old(positionX), old(positionY))) &&
                rows == FullRowCount(locked) && rows <= 4 && arena[..] == Cleared(locked) &&
                score == old(score) + Award(rows, old(level)) &&
                clearedLines == old(clearedLines) + rows && level == clearedLines / 10 &&
                current == old(next) && next == Canonical(nextKind) &&
                positionX == SpawnX(current) && positionY == SpawnY(current) &&
                (forall k :: 0 <= k < 7 ==> pieceCount[k] == old(pieceCount[k]) + if k == KindIndex(current.kind) then 1 else 0) &&
                isDefeat == (old(isDefeat) || PiecesCollision(arena[..], current, positionX, positionY))
    {
      positionY := positionY + 1;
      rows := 0;
      var collides := CheckCollisionArenaPieces();
      if collides {
        positionY := positionY - 1;
        rows := LockPiece(nextKind);
      }
    }

    /**
     * `generate_block_positions`: copy the arena into the caller's buffer and
     * add the piece's cells, with no skipping; a cell whose flat index falls
     * outside the buffer is not written.  A null buffer is left alone.
     */
    method GenerateBlockPositions(blockPositions: array?<int>)
      requires Shaped() && !WallCollision(current, positionX)
      requires blockPositions != null ==> blockPositions.Length == Cells && blockPositions != arena
      modifies blockPositions
      ensures blockPositions != null ==> blockPositions[..] == Overlay(arena[..], current, positionX, positionY)
    {
      if blockPositions == null {
        return;
      }
      forall i | 0 <= i < Cells {
        blockPositions[i] := arena[i];
      }
      var size := Size(current.kind);
      ghost var base := blockPositions[..];
      assert base == arena[..];
      for y := 0 to size
        invariant forall i :: 0 <= i < Cells ==>
                    blockPositions[i] == base[i] + Covered(current, positionX, positionY, ColumnOf(i), RowOf(i), 0, y)
      {
        CoverRow(current, positionX, positionY, y);
        for x := 0 to size
          invariant forall i :: 0 <= i < Cells ==>
                      blockPositions[i] == base[i] + Covered(current, positionX, positionY, ColumnOf(i), RowOf(i), x, y)
        {
          CoverCell(current, positionX, positionY, x, y);
          var index := Index(positionX + x, positionY + y);
          if 0 <= index < Cells {
            blockPositions[index] := blockPositions[index] + current.At(x, y);
          }
        }
      }
      CoverAll(current, positionX, positionY, base);
    }
  }

  /**
   * The restart key of the front end: on game over the old game is dropped
   * and a new one is set up as `init_gamedata` does, with the given first two
   * kinds; in any other state the game is kept as it is.
   */
  method RestartGame(g: Game, first: Kind, second: Kind) returns (h: Game)
    ensures h.state == Restart(g.state)
    ensures g.state == GameOver ==>
              fresh(h) && h.Valid() && h.arena[..] == EmptyArena() &&
              h.score == 0 && h.level == 0 && h.clearedLines == 0 && !h.isDefeat &&
              h.current == Canonical(first) && h.next == Canonical(second)
    ensures g.state != GameOver ==> h == g
  {
    if g.state == GameOver {
      h := new Game(first, second);
    } else {
      h := g;
    }
  }

  /** A T spawns with its anchor on the start column and on row -1, above the arena. */
  lemma {:induction false} TSpawnsAboveTop()
    ensures SpawnX(Canonical(T)) == StartX && SpawnY(Canonical(T)) == -1
  {
    var p := Canonical(T);
    assert ColumnOccupied(p, 0) by {
      assert p.At(0, 1) != 0;
    }
    assert !RowOccupied(p, 0) by {
      forall x | 0 <= x < 3 ensures p.At(x, 0) == 0 {
        IndexOfCoords(x, 0, 3);
      }
    }
    assert RowOccupied(p, 1) by {
      assert p.At(0, 1) != 0;
    }
  }

  /**
   * As written, `check_collision_arena_pieces` can read before the start of
   * the arena buffer: a T spawns with its anchor on row -1, and a right turn
   * moves an occupied cell into matrix row 0, that is onto row -1, whose flat
   * index is negative.
   */
  lemma {:induction false} TurnedSpawnReadsBeforeArena()
    ensures var p := Canonical(T);
            SpawnX(p) == StartX && SpawnY(p) == -1 &&
            RotatedRight(p).At(1, 0) != 0 && SpawnX(p) + 1 < Width &&
            Index(SpawnX(p) + 1, SpawnY(p) + 0) < 0
  {
    var p := Canonical(T);
    TSpawnsAboveTop();
    assert RotatedRight(p).At(1, 0) == p.At(0, 1);
  }

  /**
   * As written, `generate_block_positions` writes before the caller's
   * buffer: its loops skip no row, so for a freshly spawned T every cell of
   * matrix row 0 is added at a negative flat index.
   */
  lemma {:induction false} SpawnedTWritesBeforeBuffer()
    ensures var p := Canonical(T);
            Size(p.kind) == 3 &&
            Index(SpawnX(p) + 0, SpawnY(p) + 0) == -6 &&
            Index(SpawnX(p) + 1, SpawnY(p) + 0) == -5 &&
            Index(SpawnX(p) + 2, SpawnY(p) + 0) == -4
  {
    TSpawnsAboveTop();
  }
}
