/**
 * Pieces of the falling-block game: the seven tetromino kinds, their square
 * cell matrices, the canonical spawn shapes, and rotation by a quarter turn.
 *
 * In the C engine a piece is an `int` buffer whose slot 0 holds the kind and
 * whose slots 1 .. size*size hold a row-major square matrix.  Here the tag is
 * the `kind` field and the matrix is the `cells` sequence; the cell at column
 * `x` and row `y` sits at `CoordsToArrayIndex(x, y, size)`.
 */
module Pieces {

  /** The seven kinds, in the order of the C enum (O = 0, ..., S = 6). */
  datatype Kind = O | L | J | T | I | Z | S

  /** The number the C enum gives a kind; it indexes the per-kind counters. */
  function KindIndex(k: Kind): (r: nat)
    ensures r < 7
  {
    match k
    case O => 0
    case L => 1
    case J => 2
    case T => 3
    case I => 4
    case Z => 5
    case S => 6
  }

  /** `get_piece_size`: the width (and height) of a kind's matrix. */
  function Size(k: Kind): (n: nat)
    ensures 2 <= n <= 4
    ensures n == 2 <==> k == O
    ensures n == 4 <==> k == I
  {
    match k
    case O => 2
    case I => 4
    case _ => 3
  }

  /**
   * `coords_to_array_index`: row-major position of column x, row y.  A
   * column inside the width keeps the index within the stretch of row y:
   * after the rows above it and before the row below.
   */
  function CoordsToArrayIndex(x: int, y: int, width: int): (k: int)
    ensures 0 <= x < width ==> y * width <= k < y * width + width
  {
    y * width + x
  }

  /** A row-major index inside an n-by-n matrix names exactly one cell. */
  lemma {:induction false} IndexOfCoords(x: int, y: int, n: nat)
    requires 2 <= n <= 4 && 0 <= x < n && 0 <= y < n
    ensures var k := CoordsToArrayIndex(x, y, n);
            0 <= k < n * n && k / n == y && k % n == x
  {
    if n == 2 {
    } else if n == 3 {
    } else {
    }
  }

  /** Every index of an n-by-n matrix is the index of its column and row. */
  lemma {:induction false} CoordsOfIndex(k: int, n: nat)
    requires 2 <= n <= 4 && 0 <= k < n * n
    ensures 0 <= k / n < n && 0 <= k % n < n
    ensures CoordsToArrayIndex(k % n, k / n, n) == k
  {
    if n == 2 {
    } else if n == 3 {
    } else {
    }
  }

  datatype Piece = Piece(kind: Kind, cells: seq<int>)
  {
    /** The matrix has exactly size*size cells. */
    predicate WellFormed() {
      |cells| == Size(kind) * Size(kind)
    }

    /** The value at column x, row y (0 is empty). */
    function At(x: int, y: int): int
      requires WellFormed()
      requires 0 <= x < Size(kind) && 0 <= y < Size(kind)
    {
      IndexOfCoords(x, y, Size(kind));
      cells[CoordsToArrayIndex(x, y, Size(kind))]
    }
  }

  /**
   * The shape `generate_next_piece` allocates for a kind: rotation 0 of the
   * tetromino, each occupied cell holding the kind's enum value plus one.
   */
  function Canonical(k: Kind): (p: Piece)
    ensures p.kind == k && p.WellFormed() && Coloured(p.cells)
  {
    match k
    case O => Piece(O, [1, 1,
                        1, 1])
    case L => Piece(L, [0, 2, 0,
                        0, 2, 0,
                        0, 2, 2])
    case J => Piece(J, [0, 3, 0,
                        0, 3, 0,
                        3, 3, 0])
    case T => Piece(T, [0, 0, 0,
                        4, 4, 4,
                        0, 4, 0])
    case I => Piece(I, [0, 0, 5, 0,
                        0, 0, 5, 0,
                        0, 0, 5, 0,
                        0, 0, 5, 0])
    case Z => Piece(Z, [0, 0, 0,
                        6, 6, 0,
                        0, 6, 6])
    case S => Piece(S, [0, 0, 0,
                        0, 7, 7,
                        7, 7, 0])
  }

  /** The indices of the occupied cells of a matrix. */
  function OccupiedIndices(s: seq<int>): set<nat>
  {
    set i: nat | i < |s| && s[i] != 0
  }

  /** Every canonical shape is a tetromino: exactly four occupied cells. */
  lemma {:induction false} CanonicalIsTetromino(k: Kind)
    ensures |OccupiedIndices(Canonical(k).cells)| == 4
  {
    var c := Canonical(k).cells;
    match k
    case O => assert OccupiedIndices(c) == {0, 1, 2, 3}; FourIndices(0, 1, 2, 3);
    case L => assert OccupiedIndices(c) == {1, 4, 7, 8}; FourIndices(1, 4, 7, 8);
    case J => assert OccupiedIndices(c) == {1, 4, 6, 7}; FourIndices(1, 4, 6, 7);
    case T => assert OccupiedIndices(c) == {3, 4, 5, 7}; FourIndices(3, 4, 5, 7);
    case I => assert OccupiedIndices(c) == {2, 6, 10, 14}; FourIndices(2, 6, 10, 14);
    case Z => assert OccupiedIndices(c) == {3, 4, 7, 8}; FourIndices(3, 4, 7, 8);
    case S => assert OccupiedIndices(c) == {4, 5, 6, 7}; FourIndices(4, 5, 6, 7);
  }

  /** Four increasing indices make a set of four. */
  lemma {:induction false} FourIndices(i: nat, j: nat, k: nat, l: nat)
    requires i < j < k < l
    ensures |{i, j, k, l}| == 4
  {
  }

  /** Every cell is empty (0) or holds the colour of a kind, 1 .. 7. */
  predicate Coloured(s: seq<int>)
  {
    forall i :: 0 <= i < |s| ==> 0 <= s[i] <= 7
  }

  /** Every cell of a canonical shape is empty or holds the kind's enum value plus one. */
  lemma {:induction false} CanonicalColours(k: Kind)
    ensures forall i :: 0 <= i < |Canonical(k).cells| ==>
              Canonical(k).cells[i] == 0 || Canonical(k).cells[i] == KindIndex(k) + 1
  {
  }

  // ---------------------------------------------------------------------
  // Rotation
  // ---------------------------------------------------------------------

  /**
   * `rotate_piece_right`: transpose, then reverse the rows.  The cell at
   * column i, row j moves to column size-1-j, row i; an O piece is returned
   * unchanged.  (Read backwards: the new cell at column X, row Y comes from
   * column Y, row size-1-X.)
   */
  function RotatedRight(p: Piece): (r: Piece)
    requires p.WellFormed()
    ensures r.WellFormed() && r.kind == p.kind
    ensures p.kind == O ==> r == p
    ensures forall x, y :: 0 <= x < Size(p.kind) && 0 <= y < Size(p.kind) ==>
              r.At(x, y) == if p.kind == O then p.At(x, y) else p.At(y, Size(p.kind) - 1 - x)
    ensures Coloured(p.cells) ==> Coloured(r.cells)
  {
    if p.kind == O then p
    else
      var n := Size(p.kind);
      var r := Piece(p.kind, seq(n * n, k requires 0 <= k < n * n =>
                                   CoordsOfIndex(k, n); p.At(k / n, n - 1 - k % n)));
      assert forall x, y :: 0 <= x < n && 0 <= y < n ==> r.At(x, y) == p.At(y, n - 1 - x) by {
        forall x, y | 0 <= x < n && 0 <= y < n ensures r.At(x, y) == p.At(y, n - 1 - x) {
          IndexOfCoords(x, y, n);
        }
      }
      r
  }

  /** `rotate_piece_left`: three right rotations make one left rotation. */
  function RotatedLeft(p: Piece): (r: Piece)
    requires p.WellFormed()
    ensures r.WellFormed() && r.kind == p.kind
    ensures p.kind == O ==> r == p
    ensures Coloured(p.cells) ==> Coloured(r.cells)
  {
    RotatedRight(RotatedRight(RotatedRight(p)))
  }

  /** A left rotation moves the cell at column i, row j to column j, row size-1-i. */
  lemma {:induction false} RotatedLeftMovesCells(p: Piece)
    requires p.WellFormed() && p.kind != O
    ensures forall i, j :: 0 <= i < Size(p.kind) && 0 <= j < Size(p.kind) ==>
              RotatedLeft(p).At(j, Size(p.kind) - 1 - i) == p.At(i, j)
  {
    var n := Size(p.kind);
    var r1 := RotatedRight(p);
    var r2 := RotatedRight(r1);
    var r3 := RotatedRight(r2);
    forall i, j | 0 <= i < n && 0 <= j < n ensures r3.At(j, n - 1 - i) == p.At(i, j) {
      var i', j' := n - 1 - i, n - 1 - j;
      assert n - 1 - i' == i && n - 1 - j' == j;
      assert r3.At(j, i') == r2.At(i', j');
      assert r2.At(i', j') == r1.At(j', i);
      assert r1.At(j', i) == p.At(i, j);
    }
  }

  /** Two pieces of one kind with equal cells everywhere are equal. */
  lemma {:induction false} SameCellsSamePiece(p: Piece, q: Piece)
    requires p.WellFormed() && q.WellFormed() && p.kind == q.kind
    requires forall x, y :: 0 <= x < Size(p.kind) && 0 <= y < Size(p.kind) ==> p.At(x, y) == q.At(x, y)
    ensures p == q
  {
    var n := Size(p.kind);
    forall k | 0 <= k < n * n ensures p.cells[k] == q.cells[k] {
      CoordsOfIndex(k, n);
      assert p.At(k % n, k / n) == q.At(k % n, k / n);
    }
  }

  /** Four right rotations carry the cell at column x, row y round to where it started. */
  lemma {:induction false} FourTurnsCell(p: Piece, x: int, y: int)
    requires p.WellFormed() && p.kind != O
    requires 0 <= x < Size(p.kind) && 0 <= y < Size(p.kind)
    ensures RotatedRight(RotatedRight(RotatedRight(RotatedRight(p)))).At(x, y) == p.At(x, y)
  {
    var n := Size(p.kind);
    var r1 := RotatedRight(p);
    var r2 := RotatedRight(r1);
    var r3 := RotatedRight(r2);
    var x', y' := n - 1 - x, n - 1 - y;
    assert n - 1 - x' == x && n - 1 - y' == y;
    assert RotatedRight(r3).At(x, y) == r3.At(y, x');
    assert r3.At(y, x') == r2.At(x', y');
    assert r2.At(x', y') == r1.At(y', x);
    assert r1.At(y', x) == p.At(x, y);
  }

  /** Four right rotations give back the original matrix exactly. */
  lemma {:induction false} RotateRightFourTimes(p: Piece)
    requires p.WellFormed()
    ensures RotatedRight(RotatedRight(RotatedRight(RotatedRight(p)))) == p
  {
    if p.kind != O {
      var n := Size(p.kind);
      var r4 := RotatedRight(RotatedRight(RotatedRight(RotatedRight(p))));
      forall x, y | 0 <= x < n && 0 <= y < n ensures r4.At(x, y) == p.At(x, y) {
        FourTurnsCell(p, x, y);
      }
      SameCellsSamePiece(r4, p);
    }
  }

  /** A right rotation undoes a left rotation. */
  lemma {:induction false} LeftThenRight(p: Piece)
    requires p.WellFormed()
    ensures RotatedRight(RotatedLeft(p)) == p
  {
    RotateRightFourTimes(p);
  }

  /** A left rotation undoes a right rotation. */
  lemma {:induction false} RightThenLeft(p: Piece)
    requires p.WellFormed()
    ensures RotatedLeft(RotatedRight(p)) == p
  {
    RotateRightFourTimes(p);
    var r := RotatedRight(p);
    assert RotatedLeft(r) == RotatedRight(RotatedRight(RotatedRight(r)));
  }

  /** Four left rotations give back the original matrix exactly. */
  lemma {:induction false} RotateLeftFourTimes(p: Piece)
    requires p.WellFormed()
    ensures RotatedLeft(RotatedLeft(RotatedLeft(RotatedLeft(p)))) == p
  {
    var l1 := RotatedLeft(p);
    var l2 := RotatedLeft(l1);
    var l3 := RotatedLeft(l2);
    LeftThenRight(l3);
    LeftThenRight(l2);
    LeftThenRight(l1);
    LeftThenRight(p);
    RotateRightFourTimes(p);
    calc {
      RotatedLeft(l3);
      RotatedRight(RotatedRight(RotatedRight(l3)));
      { assert RotatedRight(l3) == l2; }
      RotatedRight(RotatedRight(l2));
      { assert RotatedRight(l2) == l1; }
      RotatedRight(l1);
      p;
    }
  }

  // ---------------------------------------------------------------------
  // Occupied rows and columns (scanned by alignment and the wall check)
  // ---------------------------------------------------------------------

  predicate ColumnOccupied(p: Piece, x: int)
    requires p.WellFormed() && 0 <= x < Size(p.kind)
  {
    exists y :: 0 <= y < Size(p.kind) && p.At(x, y) != 0
  }

  predicate RowOccupied(p: Piece, y: int)
    requires p.WellFormed() && 0 <= y < Size(p.kind)
  {
    exists x :: 0 <= x < Size(p.kind) && p.At(x, y) != 0
  }

  /** The first occupied column at or after `from`, or the size if there is none. */
  function FirstOccupiedColumn(p: Piece, from: nat): (c: nat)
    requires p.WellFormed() && from <= Size(p.kind)
    ensures from <= c <= Size(p.kind)
    decreases Size(p.kind) - from
  {
    if from == Size(p.kind) then from
    else if ColumnOccupied(p, from) then from
    else FirstOccupiedColumn(p, from + 1)
  }

  /** The columns it passes over are empty, and the one it stops at (if any) is occupied. */
  lemma {:induction false} FirstOccupiedColumnExact(p: Piece, from: nat)
    requires p.WellFormed() && from <= Size(p.kind)
    ensures forall x :: from <= x < FirstOccupiedColumn(p, from) ==> !ColumnOccupied(p, x)
    ensures FirstOccupiedColumn(p, from) < Size(p.kind) ==> ColumnOccupied(p, FirstOccupiedColumn(p, from))
    decreases Size(p.kind) - from
  {
    if from < Size(p.kind) && !ColumnOccupied(p, from) {
      FirstOccupiedColumnExact(p, from + 1);
    }
  }

  /** The first occupied row at or after `from`, or the size if there is none. */
  function FirstOccupiedRow(p: Piece, from: nat): (r: nat)
    requires p.WellFormed() && from <= Size(p.kind)
    ensures from <= r <= Size(p.kind)
    decreases Size(p.kind) - from
  {
    if from == Size(p.kind) then from
    else if RowOccupied(p, from) then from
    else FirstOccupiedRow(p, from + 1)
  }

  /** The rows it passes over are empty, and the one it stops at (if any) is occupied. */
  lemma {:induction false} FirstOccupiedRowExact(p: Piece, from: nat)
    requires p.WellFormed() && from <= Size(p.kind)
    ensures forall y :: from <= y < FirstOccupiedRow(p, from) ==> !RowOccupied(p, y)
    ensures FirstOccupiedRow(p, from) < Size(p.kind) ==> RowOccupied(p, FirstOccupiedRow(p, from))
    decreases Size(p.kind) - from
  {
    if from < Size(p.kind) && !RowOccupied(p, from) {
      FirstOccupiedRowExact(p, from + 1);
    }
  }

  /** The last occupied column at or before `upto`, or -1 if there is none. */
  function LastOccupiedColumn(p: Piece, upto: int): (c: int)
    requires p.WellFormed() && -1 <= upto < Size(p.kind)
    ensures -1 <= c <= upto
    decreases upto + 1
  {
    if upto == -1 then -1
    else if ColumnOccupied(p, upto) then upto
    else LastOccupiedColumn(p, upto - 1)
  }

  /** The columns it passes over are empty, and the one it stops at (if any) is occupied. */
  lemma {:induction false} LastOccupiedColumnExact(p: Piece, upto: int)
    requires p.WellFormed() && -1 <= upto < Size(p.kind)
    ensures forall x :: LastOccupiedColumn(p, upto) < x <= upto ==> !ColumnOccupied(p, x)
    ensures LastOccupiedColumn(p, upto) >= 0 ==> ColumnOccupied(p, LastOccupiedColumn(p, upto))
    decreases upto + 1
  {
    if upto >= 0 && !ColumnOccupied(p, upto) {
      LastOccupiedColumnExact(p, upto - 1);
    }
  }

  predicate HasOccupiedCell(p: Piece)
    requires p.WellFormed()
  {
    exists x, y :: 0 <= x < Size(p.kind) && 0 <= y < Size(p.kind) && p.At(x, y) != 0
  }

  /**
   * Leftmost occupied column: a column of the matrix with only empty columns
   * left of it, and 0 when the matrix is empty (the C default).
   */
  function LeftEdge(p: Piece): (e: int)
    requires p.WellFormed()
    ensures 0 <= e < Size(p.kind)
    ensures forall x :: 0 <= x < e ==> !ColumnOccupied(p, x)
    ensures !HasOccupiedCell(p) ==> e == 0
  {
    FirstOccupiedColumnExact(p, 0);
    var c := FirstOccupiedColumn(p, 0);
    if c < Size(p.kind) then OccupiedColumnHasCell(p, c); c else 0
  }

  /**
   * Rightmost occupied column: a column of the matrix with only empty columns
   * right of it, and 0 when the matrix is empty (the C default).
   */
  function RightEdge(p: Piece): (e: int)
    requires p.WellFormed()
    ensures 0 <= e < Size(p.kind)
    ensures forall x :: e < x < Size(p.kind) ==> !ColumnOccupied(p, x)
    ensures !HasOccupiedCell(p) ==> e == 0
  {
    LastOccupiedColumnExact(p, Size(p.kind) - 1);
    var c := LastOccupiedColumn(p, Size(p.kind) - 1);
    if c >= 0 then OccupiedColumnHasCell(p, c); c else 0
  }

  /** An occupied column holds an occupied cell of the matrix. */
  lemma {:induction false} OccupiedColumnHasCell(p: Piece, x: int)
    requires p.WellFormed() && 0 <= x < Size(p.kind) && ColumnOccupied(p, x)
    ensures HasOccupiedCell(p)
  {
    var y :| 0 <= y < Size(p.kind) && p.At(x, y) != 0;
  }

  /** Every occupied cell lies between the left and right edges, which are occupied columns. */
  lemma {:induction false} EdgesBoundOccupiedCells(p: Piece)
    requires p.WellFormed()
    ensures forall x, y :: 0 <= x < Size(p.kind) && 0 <= y < Size(p.kind) && p.At(x, y) != 0 ==>
              LeftEdge(p) <= x <= RightEdge(p)
    ensures HasOccupiedCell(p) ==> ColumnOccupied(p, LeftEdge(p)) && ColumnOccupied(p, RightEdge(p))
  {
    var n := Size(p.kind);
    FirstOccupiedColumnExact(p, 0);
    LastOccupiedColumnExact(p, n - 1);
    forall x, y | 0 <= x < n && 0 <= y < n && p.At(x, y) != 0
      ensures LeftEdge(p) <= x <= RightEdge(p)
    {
      assert ColumnOccupied(p, x);
    }
    if HasOccupiedCell(p) {
      var x, y :| 0 <= x < n && 0 <= y < n && p.At(x, y) != 0;
      assert ColumnOccupied(p, x);
    }
  }

  // ---------------------------------------------------------------------
  // array_index_to_coords (see Findings in the README)
  // ---------------------------------------------------------------------

  /** `array_index_to_coords` as written: x := index / width, y := index % width. */
  function ArrayIndexToCoordsAsWritten(index: nat, width: nat): (xy: (nat, nat))
    requires width > 0
    ensures xy.0 * width + xy.1 == index && xy.1 < width
  {
    (index / width, index % width)
  }

  /** As written it does not undo `coords_to_array_index`: (1, 0) comes back as (0, 1). */
  lemma {:induction false} ArrayIndexToCoordsSwapsAxes()
    ensures CoordsToArrayIndex(1, 0, 10) == 1
    ensures ArrayIndexToCoordsAsWritten(1, 10) == (0, 1)
    ensures ArrayIndexToCoordsAsWritten(CoordsToArrayIndex(1, 0, 10), 10) != (1, 0)
  {
  }

  /** The evidently intended conversion: x is the column (index % width), y the row. */
  function ArrayIndexToCoords(index: nat, width: nat): (xy: (nat, nat))
    requires width > 0
    ensures CoordsToArrayIndex(xy.0, xy.1, width) == index && xy.0 < width
  {
    (index % width, index / width)
  }

  /** The corrected conversion and `coords_to_array_index` are inverse to each other. */
  lemma {:induction false} CoordsRoundTrip(x: nat, y: nat, width: nat)
    requires x < width
    ensures ArrayIndexToCoords(CoordsToArrayIndex(x, y, width), width) == (x, y)
  {
    var k := CoordsToArrayIndex(x, y, width);
    var xy := ArrayIndexToCoords(k, width);
    assert (y - xy.1) * width == xy.0 - x;
    if xy.1 < y {
      MulAtLeast(y - xy.1, width);
    } else if xy.1 > y {
      MulAtLeast(xy.1 - y, width);
    }
  }

  /** A positive multiple of w is at least w. */
  lemma {:induction false} MulAtLeast(d: int, w: nat)
    requires d >= 1
    ensures d * w >= w
    decreases d
  {
    if d > 1 {
      MulAtLeast(d - 1, w);
      assert d * w == (d - 1) * w + w;
    }
  }
}
