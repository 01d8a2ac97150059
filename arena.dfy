/**
 * The arena: a 10-wide, 20-high grid of settled cells stored as one flat
 * buffer of 200 ints, row by row (index row*10 + column); 0 is empty.
 *
 * This module states what locking a piece and clearing full rows do to that
 * buffer, as functions on its contents.  The engine's methods are proved
 * against them.
 */
module Arena {
  import opened Pieces

  const Width := 10
  const Height := 20
  const Cells := 200

  /**
   * `COORDS_TO_ARENA_INDEX`: flat index of a column and a row.  The width
   * is written as the literal 10 here and in RowOf and ColumnOf, which keeps
   * the index arithmetic linear.
   */
  function Index(col: int, row: int): int
  {
    row * 10 + col
  }

  /** The row of a flat index. */
  function RowOf(i: int): int
  {
    i / 10
  }

  /** The column of a flat index. */
  function ColumnOf(i: int): int
  {
    i % 10
  }

  predicate IsArena(a: seq<int>)
  {
    |a| == Cells
  }

  /** Every cell of the buffer is named by its own column and row. */
  lemma {:induction false} CellOfIndex(i: int)
    requires 0 <= i < Cells
    ensures 0 <= ColumnOf(i) < Width && 0 <= RowOf(i) < Height
    ensures Index(ColumnOf(i), RowOf(i)) == i
  {
  }

  /** Within the width, distinct columns or rows give distinct flat indices. */
  lemma {:induction false} IndexInjective(c1: int, r1: int, c2: int, r2: int)
    requires 0 <= c1 < Width && 0 <= c2 < Width
    ensures Index(c1, r1) == Index(c2, r2) <==> c1 == c2 && r1 == r2
  {
  }

  /** A column and row inside the grid name a cell of the buffer, whose row and column read back. */
  lemma {:induction false} IndexInArena(col: int, row: int)
    requires 0 <= col < Width && 0 <= row < Height
    ensures 0 <= Index(col, row) < Cells
    ensures RowOf(Index(col, row)) == row && ColumnOf(Index(col, row)) == col
  {
  }

  /**
   * A cell read through a flat index.  Indices outside the buffer (which C
   * would read out of bounds) count as empty.
   */
  function CellAt(a: seq<int>, i: int): int
    requires IsArena(a)
  {
    if 0 <= i < Cells then a[i] else 0
  }

  /** Row r of the arena, left to right. */
  function Row(a: seq<int>, r: int): (line: seq<int>)
    requires IsArena(a) && 0 <= r < Height
    ensures |line| == Width
  {
    seq(Width, c requires 0 <= c < Width => a[Index(c, r)])
  }

  /** Cell c of row r is the arena cell at column c, row r. */
  lemma {:induction false} RowAt(a: seq<int>, r: int, c: int)
    requires IsArena(a) && 0 <= r < Height && 0 <= c < Width
    ensures Row(a, r)[c] == a[Index(c, r)]
  {
  }

  /** Every cell of a line of cells is occupied. */
  predicate IsFullLine(line: seq<int>)
  {
    forall c :: 0 <= c < |line| ==> line[c] != 0
  }

  /**
   * Cells x .. Width-1 of row r are all occupied: the scan that
   * `check_filled_rows` makes along the row from column x, which stops at
   * the first empty cell.
   */
  predicate FilledFrom(a: seq<int>, r: int, x: int)
    requires IsArena(a) && 0 <= r < Height && 0 <= x <= Width
    decreases Width - x
  {
    x == Width || (a[Index(x, r)] != 0 && FilledFrom(a, r, x + 1))
  }

  /** Row r is full: the scan from column 0 reaches the right wall. */
  predicate RowFull(a: seq<int>, r: int)
    requires IsArena(a) && 0 <= r < Height
  {
    FilledFrom(a, r, 0)
  }

  /** The scan from column x succeeds exactly when every cell of the row from x on is occupied. */
  lemma {:induction false} FilledFromAt(a: seq<int>, r: int, x: int)
    requires IsArena(a) && 0 <= r < Height && 0 <= x <= Width
    ensures FilledFrom(a, r, x) <==> forall c :: x <= c < Width ==> a[Index(c, r)] != 0
    decreases Width - x
  {
    if x < Width {
      FilledFromAt(a, r, x + 1);
    }
  }

  /** A row is full exactly when each of its ten cells is occupied. */
  lemma {:induction false} RowFullAt(a: seq<int>, r: int)
    requires IsArena(a) && 0 <= r < Height
    ensures RowFull(a, r) <==> forall c :: 0 <= c < Width ==> a[Index(c, r)] != 0
    ensures RowFull(a, r) <==> IsFullLine(Row(a, r))
  {
    FilledFromAt(a, r, 0);
    assert forall c :: 0 <= c < Width ==> Row(a, r)[c] == a[Index(c, r)];
  }

  predicate NoFullRow(a: seq<int>)
    requires IsArena(a)
  {
    forall r :: 0 <= r < Height ==> !RowFull(a, r)
  }

  /** The arena with no settled block. */
  function EmptyArena(): (a: seq<int>)
    ensures IsArena(a) && NoFullRow(a)
    ensures forall i :: 0 <= i < Cells ==> a[i] == 0
  {
    seq(Cells, _ => 0)
  }

  /**
   * The full rows among rows lo .. Height-1, bottom row first (the order in
   * which `check_filled_rows` records them).
   */
  function FullRowsFrom(a: seq<int>, lo: int): (rows: seq<int>)
    requires IsArena(a) && 0 <= lo <= Height
    ensures |rows| <= Height - lo
    decreases Height - lo
  {
    if lo == Height then []
    else FullRowsFrom(a, lo + 1) + (if RowFull(a, lo) then [lo] else [])
  }

  /**
   * The recorded rows are exactly the full rows among lo .. Height-1, each
   * recorded once, strictly descending.
   */
  lemma {:induction false} FullRowsExact(a: seq<int>, lo: int)
    requires IsArena(a) && 0 <= lo <= Height
    ensures forall j :: 0 <= j < |FullRowsFrom(a, lo)| ==> lo <= FullRowsFrom(a, lo)[j] < Height && RowFull(a, FullRowsFrom(a, lo)[j])
    ensures forall j, j' :: 0 <= j < j' < |FullRowsFrom(a, lo)| ==> FullRowsFrom(a, lo)[j] > FullRowsFrom(a, lo)[j']
    ensures forall r :: lo <= r < Height && RowFull(a, r) ==> r in FullRowsFrom(a, lo)
    decreases Height - lo
  {
    if lo < Height {
      FullRowsExact(a, lo + 1);
      var below, here := FullRowsFrom(a, lo + 1), FullRowsFrom(a, lo);
      var tail := if RowFull(a, lo) then [lo] else [];
      assert here == below + tail;
      forall j | 0 <= j < |here|
        ensures here[j] == if j < |below| then below[j] else lo
      {
      }
      forall j, j' | 0 <= j < j' < |here|
        ensures here[j] > here[j']
      {
        assert here[j] == below[j];
      }
      forall r | lo <= r < Height && RowFull(a, r)
        ensures r in here
      {
        if r == lo {
          assert r in tail;
        } else {
          assert r in below;
        }
      }
    }
  }

  /** The number of full rows. */
  function FullRowCount(a: seq<int>): nat
    requires IsArena(a)
  {
    |FullRowsFrom(a, 0)|
  }

  /**
   * The rows among lo .. Height-1 that are not full, top to bottom: what a
   * line clear keeps, in the order it keeps them.
   */
  function KeptRowsFrom(a: seq<int>, lo: int): (rows: seq<seq<int>>)
    requires IsArena(a) && 0 <= lo <= Height
    ensures forall j :: 0 <= j < |rows| ==> |rows[j]| == Width
    ensures |rows| <= Height - lo
    decreases Height - lo
  {
    if lo == Height then []
    else (if RowFull(a, lo) then [] else [Row(a, lo)]) + KeptRowsFrom(a, lo + 1)
  }

  /** Every row of lo .. Height-1 is either kept or recorded as full. */
  lemma {:induction false} KeptPlusFull(a: seq<int>, lo: int)
    requires IsArena(a) && 0 <= lo <= Height
    ensures |KeptRowsFrom(a, lo)| + |FullRowsFrom(a, lo)| == Height - lo
    decreases Height - lo
  {
    if lo < Height {
      KeptPlusFull(a, lo + 1);
    }
  }

  /** At most Height rows of ten cells each: what fits in the arena. */
  predicate RowsFit(rows: seq<seq<int>>)
  {
    |rows| <= Height && forall j :: 0 <= j < |rows| ==> |rows[j]| == Width
  }

  /**
   * Cell i of the arena that holds the given rows stacked at its bottom, the
   * first of them highest, and nothing above them.
   */
  function PackedCell(rows: seq<seq<int>>, i: int): int
    requires RowsFit(rows) && 0 <= i < Cells
  {
    var top := Height - |rows|;
    if RowOf(i) < top then 0 else rows[RowOf(i) - top][ColumnOf(i)]
  }

  /** The whole arena that holds the given rows stacked at its bottom. */
  function Packed(rows: seq<seq<int>>): (p: seq<int>)
    requires RowsFit(rows)
    ensures IsArena(p)
  {
    seq(Cells, i requires 0 <= i < Cells => PackedCell(rows, i))
  }

  /** With no rows kept yet the packed arena is the empty one. */
  lemma {:induction false} PackedNothing(a: seq<int>)
    requires IsArena(a)
    ensures Packed(KeptRowsFrom(a, Height)) == EmptyArena()
  {
    assert forall i :: 0 <= i < Cells ==> Packed(KeptRowsFrom(a, Height))[i] == 0;
  }

  /** An arena whose every cell agrees with the packed rows is the packed arena. */
  lemma {:induction false} PackedFromCells(b: seq<int>, rows: seq<seq<int>>)
    requires RowsFit(rows) && |b| == Cells
    requires forall i :: 0 <= i < Cells ==> b[i] == PackedCell(rows, i)
    ensures b == Packed(rows)
  {
  }

  /** Cell (c, r) of a packed arena: empty above the rows, else cell c of the row placed at r. */
  lemma {:induction false} PackedAt(rows: seq<seq<int>>, c: int, r: int)
    requires RowsFit(rows) && 0 <= c < Width && 0 <= r < Height
    ensures 0 <= Index(c, r) < Cells
    ensures Packed(rows)[Index(c, r)] == if r < Height - |rows| then 0 else rows[r - (Height - |rows|)][c]
  {
    assert Packed(rows)[Index(c, r)] == PackedCell(rows, Index(c, r));
  }

  /**
   * Packing one more row on top of some rows writes its ten cells into the
   * row just above them and leaves every other cell as it was.
   */
  lemma {:induction false} PackedCons(line: seq<int>, rows: seq<seq<int>>)
    requires RowsFit(rows) && |rows| < Height && |line| == Width
    ensures RowsFit([line] + rows)
    ensures var cur := Height - 1 - |rows|;
            forall i :: 0 <= i < Cells ==>
              PackedCell([line] + rows, i) ==
              if Index(0, cur) <= i < Index(0, cur) + Width then line[i - Index(0, cur)] else PackedCell(rows, i)
  {
    var all := [line] + rows;
    var cur := Height - 1 - |rows|;
    assert forall j :: 0 < j < |all| ==> all[j] == rows[j - 1];
    forall i | 0 <= i < Cells
      ensures PackedCell(all, i) == if Index(0, cur) <= i < Index(0, cur) + Width then line[i - Index(0, cur)] else PackedCell(rows, i)
    {
      if RowOf(i) > cur {
        assert all[RowOf(i) - cur] == rows[RowOf(i) - cur - 1];
      }
    }
  }

  /**
   * The arena after clearing its full rows: the kept rows in their original
   * order, packed to the bottom, with one empty row on top per cleared row.
   */
  function Cleared(a: seq<int>): (r: seq<int>)
    requires IsArena(a)
    ensures IsArena(r)
  {
    Packed(KeptRowsFrom(a, 0))
  }

  /** The kept rows of an arena whose cells are empty or coloured are too. */
  lemma {:induction false} KeptRowsColoured(a: seq<int>, lo: int)
    requires IsArena(a) && Coloured(a) && 0 <= lo <= Height
    ensures forall j :: 0 <= j < |KeptRowsFrom(a, lo)| ==> Coloured(KeptRowsFrom(a, lo)[j])
    decreases Height - lo
  {
    if lo < Height {
      KeptRowsColoured(a, lo + 1);
      var line := Row(a, lo);
      forall c | 0 <= c < Width ensures 0 <= line[c] <= 7 {
        RowAt(a, lo, c);
      }
      var rows, rest := KeptRowsFrom(a, lo), KeptRowsFrom(a, lo + 1);
      var head := if RowFull(a, lo) then [] else [line];
      assert rows == head + rest;
      forall j | 0 <= j < |rows| ensures Coloured(rows[j]) {
        if j < |head| {
          assert rows[j] == line;
        } else {
          assert rows[j] == rest[j - |head|];
        }
      }
    }
  }

  /** Clearing rows leaves every cell empty or coloured when it was so before. */
  lemma {:induction false} ClearedColoured(a: seq<int>)
    requires IsArena(a) && Coloured(a)
    ensures Coloured(Cleared(a))
  {
    var kept := KeptRowsFrom(a, 0);
    KeptRowsColoured(a, 0);
    forall i | 0 <= i < Cells ensures 0 <= Cleared(a)[i] <= 7 {
      CellOfIndex(i);
      assert Cleared(a)[i] == PackedCell(kept, i);
    }
  }

  /** Cell (c, r) of the cleared arena: empty in the top k rows, else from the kept rows. */
  lemma {:induction false} ClearedAt(a: seq<int>, c: int, r: int)
    requires IsArena(a) && 0 <= c < Width && 0 <= r < Height
    ensures |KeptRowsFrom(a, 0)| + FullRowCount(a) == Height
    ensures Cleared(a)[Index(c, r)] ==
            if r < FullRowCount(a) then 0 else KeptRowsFrom(a, 0)[r - FullRowCount(a)][c]
  {
    var kept := KeptRowsFrom(a, 0);
    KeptPlusFull(a, 0);
    var k := FullRowCount(a);
    assert k == Height - |kept|;
    PackedAt(kept, c, r);
    if k <= r {
      assert Packed(kept)[Index(c, r)] == kept[r - k][c];
    }
    assert Cleared(a) == Packed(kept);
  }

  /** No kept row is full. */
  lemma {:induction false} KeptRowsNotFull(a: seq<int>, lo: int)
    requires IsArena(a) && 0 <= lo <= Height
    ensures forall j :: 0 <= j < |KeptRowsFrom(a, lo)| ==> !IsFullLine(KeptRowsFrom(a, lo)[j])
    decreases Height - lo
  {
    if lo < Height {
      KeptRowsNotFull(a, lo + 1);
      RowFullAt(a, lo);
      var head := if RowFull(a, lo) then [] else [Row(a, lo)];
      assert KeptRowsFrom(a, lo) == head + KeptRowsFrom(a, lo + 1);
    }
  }

  /**
   * The copying loop of `check_filled_rows`, having handled rows row+1 ..
   * Height-1, holds their kept rows packed at the bottom.  Handling a row
   * that is not full copies its ten cells into the row just above them,
   * which packs the kept rows of row .. Height-1.
   */
  lemma {:induction false} CopyRowPacks(a: seq<int>, row: int, cur: int)
    requires IsArena(a) && 0 <= row < Height && !RowFull(a, row)
    requires cur == Height - 1 - |KeptRowsFrom(a, row + 1)|
    ensures 0 <= cur < Height
    ensures forall i :: 0 <= i < Cells ==>
              PackedCell(KeptRowsFrom(a, row), i) ==
              if Index(0, cur) <= i < Index(0, cur) + Width then a[i - Index(0, cur) + Index(0, row)]
              else PackedCell(KeptRowsFrom(a, row + 1), i)
  {
    var rest := KeptRowsFrom(a, row + 1);
    KeptRowsStep(a, row);
    PackedCons(Row(a, row), rest);
  }

  /** Keeping a row that is not full: no more full rows seen, and one more kept row. */
  lemma {:induction false} KeepRow(a: seq<int>, row: int)
    requires IsArena(a) && 0 <= row < Height && !RowFull(a, row)
    ensures |FullRowsFrom(a, row)| == |FullRowsFrom(a, row + 1)|
    ensures |KeptRowsFrom(a, row)| == |KeptRowsFrom(a, row + 1)| + 1 <= Height - row
  {
    KeptRowsStep(a, row);
    assert FullRowsFrom(a, row) == FullRowsFrom(a, row + 1) + [];
  }

  /** Skipping a full row: one more full row seen, and the kept rows stay as they were. */
  lemma {:induction false} SkipFullRow(a: seq<int>, row: int)
    requires IsArena(a) && 0 <= row < Height && RowFull(a, row)
    ensures |FullRowsFrom(a, row)| == |FullRowsFrom(a, row + 1)| + 1
    ensures KeptRowsFrom(a, row) == KeptRowsFrom(a, row + 1)
  {
    KeptRowsStep(a, row);
    assert FullRowsFrom(a, row) == FullRowsFrom(a, row + 1) + [row];
  }

  /** A full row adds no kept row; any other row adds itself on top of those below. */
  lemma {:induction false} KeptRowsStep(a: seq<int>, row: int)
    requires IsArena(a) && 0 <= row < Height
    ensures RowFull(a, row) ==> KeptRowsFrom(a, row) == KeptRowsFrom(a, row + 1)
    ensures !RowFull(a, row) ==> KeptRowsFrom(a, row) == [Row(a, row)] + KeptRowsFrom(a, row + 1)
  {
    var head := if RowFull(a, row) then [] else [Row(a, row)];
    assert KeptRowsFrom(a, row) == head + KeptRowsFrom(a, row + 1);
  }

  /** After a clear no row is full. */
  lemma {:induction false} ClearedHasNoFullRow(a: seq<int>)
    requires IsArena(a)
    ensures NoFullRow(Cleared(a))
  {
    var kept := KeptRowsFrom(a, 0);
    var k := FullRowCount(a);
    var b := Cleared(a);
    KeptPlusFull(a, 0);
    KeptRowsNotFull(a, 0);
    forall r | 0 <= r < Height ensures !RowFull(b, r) {
      RowFullAt(b, r);
      if r < k {
        ClearedAt(a, 0, r);
      } else {
        var line := kept[r - k];
        assert !IsFullLine(line);
        var c :| 0 <= c < |line| && line[c] == 0;
        ClearedAt(a, c, r);
      }
    }
  }

  /** With no full row, every row is kept. */
  lemma {:induction false} KeptAllRows(a: seq<int>, lo: int)
    requires IsArena(a) && 0 <= lo <= Height && NoFullRow(a)
    ensures |KeptRowsFrom(a, lo)| == Height - lo
    ensures forall j :: 0 <= j < Height - lo ==> KeptRowsFrom(a, lo)[j] == Row(a, lo + j)
    decreases Height - lo
  {
    if lo < Height {
      KeptAllRows(a, lo + 1);
      assert !RowFull(a, lo);
      assert KeptRowsFrom(a, lo) == [Row(a, lo)] + KeptRowsFrom(a, lo + 1);
    }
  }

  /** Clearing an arena without full rows changes nothing. */
  lemma {:induction false} ClearedWithoutFullRows(a: seq<int>)
    requires IsArena(a)
    ensures NoFullRow(a) <==> FullRowCount(a) == 0
    ensures NoFullRow(a) ==> Cleared(a) == a
  {
    FullRowsExact(a, 0);
    if !NoFullRow(a) {
      return;
    }
    KeptAllRows(a, 0);
    KeptPlusFull(a, 0);
    forall i | 0 <= i < Cells ensures Cleared(a)[i] == a[i] {
      var c, r := ColumnOf(i), RowOf(i);
      assert Index(c, r) == i;
      ClearedAt(a, c, r);
      RowAt(a, r, c);
    }
  }

  /** The full rows recorded from row m upward are the first ones recorded from a lower row lo. */
  lemma {:induction false} FullRowsPrefix(a: seq<int>, lo: int, m: int)
    requires IsArena(a) && 0 <= lo <= m <= Height
    ensures FullRowsFrom(a, m) <= FullRowsFrom(a, lo)
    ensures forall j :: |FullRowsFrom(a, m)| <= j < |FullRowsFrom(a, lo)| ==> FullRowsFrom(a, lo)[j] < m
    decreases m - lo
  {
    if lo < m {
      FullRowsPrefix(a, lo + 1, m);
      var tail := if RowFull(a, lo) then [lo] else [];
      assert FullRowsFrom(a, lo) == FullRowsFrom(a, lo + 1) + tail;
    }
  }

  /** The value the four slots of the row buffer start with; no row has this index. */
  const Unused := 0xFF

  /**
   * The four slots of the row buffer of `check_filled_rows` once it has
   * scanned rows lo .. Height-1 from the bottom up: each full row goes into
   * the next free slot while one is left; the slots start out as 0xFF.
   */
  function RowBufferFrom(a: seq<int>, lo: int): (buffer: seq<int>)
    requires IsArena(a) && 0 <= lo <= Height
    ensures |buffer| == 4
    decreases Height - lo
  {
    if lo == Height then [Unused, Unused, Unused, Unused]
    else
      var below := RowBufferFrom(a, lo + 1);
      var slot := |FullRowsFrom(a, lo + 1)|;
      if RowFull(a, lo) && slot < 4 then below[slot := lo] else below
  }

  /** Slot k of a buffer holding the rows `full`: the k-th of them, or the initial 0xFF. */
  function Slot(full: seq<int>, k: nat): int
  {
    if k < |full| then full[k] else Unused
  }

  /** Slot k of the row buffer holds the k-th full row from the bottom, or 0xFF past the last. */
  lemma {:induction false} RowBufferSlots(a: seq<int>, lo: int)
    requires IsArena(a) && 0 <= lo <= Height
    ensures forall k :: 0 <= k < 4 ==> RowBufferFrom(a, lo)[k] == Slot(FullRowsFrom(a, lo), k)
    decreases Height - lo
  {
    if lo < Height {
      RowBufferSlots(a, lo + 1);
      var below := FullRowsFrom(a, lo + 1);
      assert FullRowsFrom(a, lo) == below + (if RowFull(a, lo) then [lo] else []);
    }
  }

  /** The row buffer after the whole scan. */
  function RowBuffer(a: seq<int>): (buffer: seq<int>)
    requires IsArena(a)
    ensures |buffer| == 4
  {
    RowBufferFrom(a, 0)
  }

  /**
   * Scanning row `row` records it in the next free slot when it is full and
   * leaves the buffer alone otherwise; with at most four full rows in all a
   * free slot is always left for it.
   */
  lemma {:induction false} RowBufferStep(a: seq<int>, row: int)
    requires IsArena(a) && 0 <= row < Height && FullRowCount(a) <= 4
    ensures RowFull(a, row) ==> |FullRowsFrom(a, row + 1)| < 4
    ensures |FullRowsFrom(a, row)| ==
              if RowFull(a, row) then |FullRowsFrom(a, row + 1)| + 1 else |FullRowsFrom(a, row + 1)|
  {
    FullRowsPrefix(a, 0, row);
  }

  /**
   * The row buffer marks the full rows for the copying loop: at `row`, after
   * passing the bi full rows below it, slot bi holds `row` exactly when the
   * row is full.
   */
  lemma {:induction false} RowBufferMarksFullRow(a: seq<int>, row: int)
    requires IsArena(a) && FullRowCount(a) <= 4 && 0 <= row < Height
    ensures var bi := |FullRowsFrom(a, row + 1)|;
            RowFull(a, row) <==> bi < 4 && RowBuffer(a)[bi] == row
  {
    var f := FullRowsFrom(a, 0);
    var below, here := FullRowsFrom(a, row + 1), FullRowsFrom(a, row);
    var bi := |below|;
    RowBufferSlots(a, 0);
    FullRowsPrefix(a, 0, row);
    assert here == below + (if RowFull(a, row) then [row] else []);
    if RowFull(a, row) {
      assert f[bi] == here[bi] == row;
    } else if bi < |f| {
      assert here == below;
      assert f[bi] < row;
    } else if bi < 4 {
      assert RowBuffer(a)[bi] == Unused;
    }
  }

  /** A strictly descending sequence of values in [lo, hi) has at most hi - lo elements. */
  lemma {:induction false} DescendingBound(s: seq<int>, lo: int, hi: int)
    requires forall j :: 0 <= j < |s| ==> lo <= s[j] < hi
    requires forall j, j' :: 0 <= j < j' < |s| ==> s[j] > s[j']
    ensures |s| <= if hi > lo then hi - lo else 0
    decreases |s|
  {
    if s != [] {
      DescendingBound(s[1..], lo, s[0]);
    }
  }

  // ---------------------------------------------------------------------
  // Scoring
  // ---------------------------------------------------------------------

  /**
   * Points for clearing k rows at once on level 0: single, double, triple,
   * tetris.  Only a clear scores, and each row cleared is worth at least 40.
   */
  function Points(k: nat): (p: nat)
    requires k <= 4
    ensures p == 0 <==> k == 0
    ensures 40 * k <= p <= 1200
  {
    if k == 0 then 0
    else if k == 1 then 40
    else if k == 2 then 100
    else if k == 3 then 300
    else 1200
  }

  /**
   * The score a clear of k rows adds: the points times (level + 1), so at
   * least the level-0 points, and nothing when no row is cleared.
   */
  function Award(k: nat, level: nat): (r: nat)
    requires k <= 4
    ensures r == 0 <==> k == 0
    ensures r >= Points(k) + level * 40 * k
  {
    Points(k) * (level + 1)
  }

  /** Clearing more rows at once always pays more than clearing them one by one. */
  lemma {:induction false} AwardRewardsMultipleRows(k: nat, level: nat)
    requires 2 <= k <= 4
    ensures Award(k, level) > k * Award(1, level)
    ensures Award(k, level) > Award(k - 1, level)
  {
  }

  // ---------------------------------------------------------------------
  // Placing a piece on the arena
  // ---------------------------------------------------------------------

  /** The value a piece anchored at (px, py) contributes to column col, row row. */
  function PieceCell(p: Piece, px: int, py: int, col: int, row: int): int
    requires p.WellFormed()
  {
    var n := Size(p.kind);
    if px <= col < px + n && py <= row < py + n then p.At(col - px, row - py) else 0
  }

  /**
   * The arena with the piece's cells added at its position: what locking
   * writes into the arena and what the render view shows.  Cells of the
   * piece outside the grid contribute nothing.
   */
  function Overlay(a: seq<int>, p: Piece, px: int, py: int): (r: seq<int>)
    requires IsArena(a) && p.WellFormed()
    ensures IsArena(r)
  {
    seq(Cells, i requires 0 <= i < Cells => a[i] + PieceCell(p, px, py, ColumnOf(i), RowOf(i)))
  }

  /** Cell (c, r) of an overlay: the arena's value plus the piece's. */
  lemma {:induction false} OverlayAt(a: seq<int>, p: Piece, px: int, py: int, c: int, r: int)
    requires IsArena(a) && p.WellFormed() && 0 <= c < Width && 0 <= r < Height
    ensures Overlay(a, p, px, py)[Index(c, r)] == a[Index(c, r)] + PieceCell(p, px, py, c, r)
  {
  }

  /**
   * Placing a piece on an arena without full rows can fill only rows the
   * piece spans, so at most Size(kind) <= 4 rows become full.
   */
  lemma {:induction false} OverlayFillsOnlyPieceRows(a: seq<int>, p: Piece, px: int, py: int)
    requires IsArena(a) && p.WellFormed() && NoFullRow(a)
    ensures forall r :: 0 <= r < Height && RowFull(Overlay(a, p, px, py), r) ==> py <= r < py + Size(p.kind)
    ensures FullRowCount(Overlay(a, p, px, py)) <= Size(p.kind) <= 4
  {
    var o := Overlay(a, p, px, py);
    var n := Size(p.kind);
    forall r | 0 <= r < Height && !(py <= r < py + n) ensures !RowFull(o, r) {
      assert !RowFull(a, r);
      RowFullAt(a, r);
      RowFullAt(o, r);
      var c :| 0 <= c < Width && a[Index(c, r)] == 0;
      OverlayAt(a, p, px, py, c, r);
    }
    FullRowsExact(o, 0);
    DescendingBound(FullRowsFrom(o, 0), py, py + n);
  }

  /** Placing a piece leaves every cell outside the piece's square as it was. */
  lemma {:induction false} OverlayOutsidePiece(a: seq<int>, p: Piece, px: int, py: int, c: int, r: int)
    requires IsArena(a) && p.WellFormed() && 0 <= c < Width && 0 <= r < Height
    requires !(px <= c < px + Size(p.kind) && py <= r < py + Size(p.kind))
    ensures Overlay(a, p, px, py)[Index(c, r)] == a[Index(c, r)]
  {
    OverlayAt(a, p, px, py, c, r);
  }

  // ---------------------------------------------------------------------
  // The row buffer of check_filled_rows (see Findings in the README)
  // ---------------------------------------------------------------------

  /**
   * The slots of the row buffer that the copying loop of `check_filled_rows`
   * reads as written: for each row from `row` down to 0 it reads slot bi and
   * moves on to the next slot when the row matches.  Nothing guards bi, so
   * after the fourth match the next row reads slot 4, outside the buffer;
   * the list ends with that read.
   */
  function SlotsReadAsWritten(buffer: seq<int>, row: int, bi: nat): (slots: seq<nat>)
    requires |buffer| == 4
    ensures |slots| <= if row < 0 then 0 else row + 1
    ensures forall j :: 0 <= j < |slots| - 1 ==> slots[j] < 4
    ensures forall j :: 0 <= j < |slots| ==> bi <= slots[j] <= bi + j
    decreases row + 1
  {
    if row < 0 then []
    else if bi >= 4 then [bi]
    else [bi] + SlotsReadAsWritten(buffer, row - 1, if row == buffer[bi] then bi + 1 else bi)
  }

  /** Once the slots from bi on hold the remaining matches in descending order, slot 4 is read. */
  lemma {:induction false} ReadsSlotFour(buffer: seq<int>, row: int, bi: nat)
    requires |buffer| == 4 && bi <= 4
    requires bi == 4 ==> row >= 0
    requires bi < 4 ==> buffer[3] >= 1 && buffer[bi] <= row
    requires forall j, j' :: bi <= j < j' < 4 ==> buffer[j] > buffer[j']
    ensures 4 in SlotsReadAsWritten(buffer, row, bi)
    decreases row + 1
  {
    if bi < 4 {
      assert buffer[bi] >= buffer[3] >= 1;
      if row == buffer[bi] {
        ReadsSlotFour(buffer, row - 1, bi + 1);
      } else {
        ReadsSlotFour(buffer, row - 1, bi);
      }
    }
  }

  /**
   * As written, clearing four rows whose highest is not row 0 reads slot 4
   * of the four-slot buffer (out of bounds).
   */
  lemma {:induction false} FourRowClearReadsPastBuffer(a: seq<int>)
    requires IsArena(a) && FullRowCount(a) == 4 && FullRowsFrom(a, 0)[3] > 0
    ensures 4 in SlotsReadAsWritten(RowBuffer(a), Height - 1, 0)
  {
    FullRowsExact(a, 0);
    RowBufferSlots(a, 0);
    ReadsSlotFour(RowBuffer(a), Height - 1, 0);
  }
}
