/**
  Laws of new terminals, of resizing, erasing, controls and cursor moves. They are stated on whole
  operations and events, field by field and cell by cell.
 */
module GridLaws {
  import opened Types
  import opened Sequences
  import opened TerminalModel

  // ---- New terminals, limits ----

  /** A cell of a space in the default colours, without attributes. */
  const SPACE := Cell([0x20], CellStyle(Color(DefaultKind, 0, Rgb(0, 0, 0)), Color(DefaultKind, 0, Rgb(0, 0, 0)), 0), Normal)

  predicate IsGrid(screen: seq<Row>, rows: nat, columns: nat) {
    |screen| == rows && forall r :: 0 <= r < rows ==> |screen[r]| == columns
  }

  lemma NewTerminal(rows: nat, columns: nat, limit: nat)
    ensures var t := Initial(rows, columns, limit);
            && t.rows == (if rows == 0 then 1 else rows) && t.columns == (if columns == 0 then 1 else columns)
            && t.limit == Min(limit, 1_000_000)
            && IsGrid(t.screen, t.rows, t.columns)
            && (forall r, c :: 0 <= r < t.rows && 0 <= c < t.columns ==> t.screen[r][c] == SPACE)
            && t.scrollback == [] && t.title == []
            && t.cursor == t.saved == Cursor(0, 0, true)
            && t.style == SPACE.style && t.modes == Modes(true, false, false, false, false)
            && !t.wrapPending && t.damaged
  {
  }

  /** A limit is capped; rows over it are dropped from the old end; nothing else changes. */
  lemma LimitKeepsNewest(t: Terminal, limit: nat)
    requires WellFormed(t)
    ensures var t' := Handle(t, SetLimit(limit));
            && t'.limit == Min(limit, 1_000_000)
            && |t'.scrollback| == Min(|t.scrollback|, t'.limit) && IsSuffix(t'.scrollback, t.scrollback)
            && t' == t.(limit := t'.limit, scrollback := t'.scrollback)
    ensures Handle(t, MarkClean) == t.(damaged := false)
  {
  }

  // ---- Resizing ----

  lemma FitOwnSize(screen: seq<Row>, rows: nat, columns: nat)
    requires GoodScreen(screen, rows, columns)
    ensures Fit(screen, rows, columns) == screen
  {
    forall r | 0 <= r < rows
      ensures Fit(screen, rows, columns)[r] == screen[r]
    {
    }
  }

  lemma FitRowTwice(row: Row, columns1: nat, columns2: nat)
    requires columns1 >= Min(|row|, columns2)
    ensures FitRow(FitRow(row, columns1), columns2) == FitRow(row, columns2)
  {
  }

  /** A grid in between that loses none of the cells that both ends have makes no difference. */
  lemma FitTwice(screen: seq<Row>, columns: nat, rows1: nat, columns1: nat, rows2: nat, columns2: nat)
    requires Rectangular(screen, columns)
    requires rows1 >= Min(|screen|, rows2) && columns1 >= Min(columns, columns2)
    ensures Fit(Fit(screen, rows1, columns1), rows2, columns2) == Fit(screen, rows2, columns2)
  {
    var once, twice := Fit(screen, rows2, columns2), Fit(Fit(screen, rows1, columns1), rows2, columns2);
    forall r | 0 <= r < rows2
      ensures twice[r] == once[r]
    {
      if r < |screen| {
        FitRowTwice(screen[r], columns1, columns2);
      } else {
        assert FitRow(BlankRow(columns1), columns2) == BlankRow(columns2);
      }
    }
  }

  /** What resizing does, stated without its early return. */
  lemma ResizedFields(t: Terminal, rows: nat, columns: nat)
    requires WellFormed(t)
    ensures var r, c := Sanitized(rows), Sanitized(columns);
            var t' := Resized(t, rows, columns);
            t' == t.(rows := r, columns := c, screen := Fit(t.screen, r, c), cursor := ClampCursor(t.cursor, r, c),
                     saved := ClampCursor(t.saved, r, c), wrapPending := t'.wrapPending, damaged := t'.damaged)
  {
    FitOwnSize(t.screen, t.rows, t.columns);
  }

  /** The cell at (r, c), or a space where the grid does not reach. */
  function OldCell(t: Terminal, r: nat, c: nat): Cell
    requires WellFormed(t)
  {
    if r < t.rows && c < t.columns then
      assert GoodRow(t.screen[r], t.columns);
      t.screen[r][c]
    else SPACE
  }

  /** A grid that shows the cells of `t` from row `top` on, and spaces elsewhere. */
  predicate KeepsCells(screen: seq<Row>, rows: nat, columns: nat, t: Terminal, top: nat)
    requires WellFormed(t)
  {
    && IsGrid(screen, rows, columns)
    && forall r, c :: 0 <= r < rows && 0 <= c < columns ==> screen[r][c] == OldCell(t, r + top, c)
  }

  /** A new size keeps the cells that both grids have, and both cursors as far as they fit; the same size changes nothing. */
  lemma ResizeCells(t: Terminal, rows: nat, columns: nat)
    requires WellFormed(t)
    ensures var t' := Handle(t, ResizeTo(rows, columns));
            var same := t'.rows == t.rows && t'.columns == t.columns;
            && t'.rows == (if rows == 0 then 1 else rows) && t'.columns == (if columns == 0 then 1 else columns)
            && KeepsCells(t'.screen, t'.rows, t'.columns, t, 0)
            && t'.cursor == Cursor(Min(t.cursor.row, t'.rows - 1), Min(t.cursor.column, t'.columns - 1), t.cursor.visible)
            && t'.saved == Cursor(Min(t.saved.row, t'.rows - 1), Min(t.saved.column, t'.columns - 1), t.saved.visible)
            && t'.wrapPending == (same && t.wrapPending) && t'.damaged == (!same || t.damaged)
            && t' == t.(rows := t'.rows, columns := t'.columns, screen := t'.screen, cursor := t'.cursor,
                        saved := t'.saved, wrapPending := t'.wrapPending, damaged := t'.damaged)
  {
    hide Fit;
    ResizedFields(t, rows, columns);
    FitCells(t, Sanitized(rows), Sanitized(columns));
  }

  lemma FitCells(t: Terminal, rows: nat, columns: nat)
    requires WellFormed(t)
    ensures KeepsCells(Fit(t.screen, rows, columns), rows, columns, t, 0)
  {
    hide Fit, OldCell, WellFormed;
    var fitted := Fit(t.screen, rows, columns);
    FitSize(t.screen, rows, columns);
    forall r, c | 0 <= r < rows && 0 <= c < columns
      ensures fitted[r][c] == OldCell(t, r + 0, c)
    {
      FitCell(t, rows, columns, r, c);
    }
  }

  lemma FitSize(screen: seq<Row>, rows: nat, columns: nat)
    ensures IsGrid(Fit(screen, rows, columns), rows, columns)
  {
    var fitted := Fit(screen, rows, columns);
    forall r | 0 <= r < |fitted|
      ensures |fitted[r]| == columns
    {
      if r < |screen| {
        assert fitted[r] == FitRow(screen[r], columns);
      } else {
        assert fitted[r] == BlankRow(columns);
      }
    }
  }

  lemma FitCell(t: Terminal, rows: nat, columns: nat, r: nat, c: nat)
    requires WellFormed(t) && r < rows && c < columns
    ensures |Fit(t.screen, rows, columns)| == rows
    ensures var row := Fit(t.screen, rows, columns)[r]; |row| == columns && row[c] == OldCell(t, r, c)
  {
    hide Rectangular;
    if r < t.rows {
      assert GoodRow(t.screen[r], t.columns);
      assert Fit(t.screen, rows, columns)[r] == FitRow(t.screen[r], columns);
    } else {
      assert Fit(t.screen, rows, columns)[r] == BlankRow(columns);
    }
  }

  /**
    Resizing by way of a size that is no smaller than the smaller of the two ends is resizing
    directly; only a pending wrap and the damage flag can tell the difference.
   */
  lemma ResizeComposition(t: Terminal, rows1: nat, columns1: nat, rows2: nat, columns2: nat)
    requires WellFormed(t)
    requires Sanitized(rows1) >= Min(t.rows, Sanitized(rows2))
    requires Sanitized(columns1) >= Min(t.columns, Sanitized(columns2))
    ensures var once := Handle(t, ResizeTo(rows2, columns2));
            var twice := Handle(Handle(t, ResizeTo(rows1, columns1)), ResizeTo(rows2, columns2));
            twice == once.(wrapPending := twice.wrapPending, damaged := twice.damaged)
  {
    hide Resized, Fit;
    ResizedFields(t, rows1, columns1);
    ResizedFields(Resized(t, rows1, columns1), rows2, columns2);
    ResizedFields(t, rows2, columns2);
    FitTwice(t.screen, t.columns, Sanitized(rows1), Sanitized(columns1), Sanitized(rows2), Sanitized(columns2));
  }

  /** Growing and shrinking back is the identity on everything but those two flags. */
  lemma GrowAndShrinkBack(t: Terminal, rows: nat, columns: nat)
    requires WellFormed(t) && rows >= t.rows && columns >= t.columns
    ensures var back := Handle(Handle(t, ResizeTo(rows, columns)), ResizeTo(t.rows, t.columns));
            back == t.(wrapPending := back.wrapPending, damaged := back.damaged)
  {
    ResizeComposition(t, rows, columns, t.rows, t.columns);
  }

  // ---- Erasing ----

  /** The position of a cell when the rows are read one after the other. */
  function RowMajor(r: nat, c: nat, columns: nat): nat {
    r * columns + c
  }

  lemma LaterRow(r: nat, s: nat, columns: nat)
    requires r < s
    ensures s * columns >= r * columns + columns
  {
    var between := s - r - 1;
    Distribute(r, 1, columns);
    Distribute(r + 1, between, columns);
    assert between * columns >= 0;
  }

  lemma Distribute(a: nat, b: nat, c: nat)
    ensures (a + b) * c == a * c + b * c
  {
  }

  lemma RowMajorOrder(r: nat, c: nat, at: Cursor, columns: nat)
    requires c < columns && at.column < columns
    ensures RowMajor(r, c, columns) >= RowMajor(at.row, at.column, columns) <==> ErasesCell(0, at, r, c)
    ensures RowMajor(r, c, columns) <= RowMajor(at.row, at.column, columns) <==> ErasesCell(1, at, r, c)
  {
    if r > at.row {
      LaterRow(at.row, r, columns);
    } else if r < at.row {
      LaterRow(r, at.row, columns);
    }
  }

  /**
    Erasing in the display blanks the cells from the cursor on, up to the cursor, or all of them; mode
    3 empties the scrollback instead, and other modes do nothing at all.
   */
  lemma EraseDisplayRowMajor(t: Terminal, mode: nat, r: nat, c: nat)
    requires WellFormed(t) && r < t.rows && c < t.columns
    ensures var t' := Apply(t, EraseInDisplay(mode));
            var here, cursor := RowMajor(r, c, t.columns), RowMajor(t.cursor.row, t.cursor.column, t.columns);
            && t' == t.(screen := t'.screen, scrollback := if mode == 3 then [] else t.scrollback,
                        damaged := t.damaged || mode <= 3)
            && |t'.screen| == t.rows && |t'.screen[r]| == t.columns
            && t'.screen[r][c] ==
               if (mode == 0 && here >= cursor) || (mode == 1 && here <= cursor) || mode == 2 then SPACE
               else t.screen[r][c]
  {
    hide Rectangular, RowMajor;
    assert GoodRow(t.screen[r], t.columns);
    RowMajorOrder(r, c, t.cursor, t.columns);
  }

  /** Erasing in the line does the same to the cursor's row and leaves everything else alone. */
  lemma EraseLineCells(t: Terminal, mode: nat, r: nat, c: nat)
    requires WellFormed(t) && r < t.rows && c < t.columns
    ensures var t' := Apply(t, EraseInLine(mode));
            && t' == t.(screen := t'.screen, damaged := t.damaged || mode <= 2)
            && |t'.screen| == t.rows && |t'.screen[r]| == t.columns
            && t'.screen[r][c] ==
               if r == t.cursor.row
                  && ((mode == 0 && c >= t.cursor.column) || (mode == 1 && c <= t.cursor.column) || mode == 2)
               then SPACE else t.screen[r][c]
  {
    hide Rectangular;
    assert GoodRow(t.screen[r], t.columns);
  }

  /** From the cursor on, then up to the cursor: everything. */
  lemma EraseBothHalves(t: Terminal)
    requires WellFormed(t)
    ensures Apply(Apply(t, EraseInDisplay(0)), EraseInDisplay(1)) == Apply(t, EraseInDisplay(2))
    ensures Apply(Apply(t, EraseInLine(0)), EraseInLine(1)) == Apply(t, EraseInLine(2))
  {
    EraseBothHalvesOfDisplay(t);
    EraseBothHalvesOfRow(t.screen[t.cursor.row], t.cursor, t.cursor.row);
  }

  lemma EraseBothHalvesOfDisplay(t: Terminal)
    requires WellFormed(t)
    ensures EraseDisplay(EraseDisplay(t, 0), 1) == EraseDisplay(t, 2)
  {
    hide EraseRow;
    var twice, all := EraseScreen(EraseScreen(t.screen, 0, t.cursor), 1, t.cursor), EraseScreen(t.screen, 2, t.cursor);
    forall r | 0 <= r < t.rows
      ensures twice[r] == all[r]
    {
      EraseBothHalvesOfRow(t.screen[r], t.cursor, r);
    }
    assert twice == all;
  }

  lemma EraseBothHalvesOfRow(row: Row, at: Cursor, r: nat)
    ensures EraseRow(EraseRow(row, 0, at, r), 1, at, r) == EraseRow(row, 2, at, r)
  {
  }

  // ---- Moving the cursor ----

  /** The nearest number to `x` between 0 and `last`. */
  function Clamp(x: int, last: nat): nat {
    if x < 0 then 0 else if x > last then last else x
  }

  predicate MovedTo(t: Terminal, t': Terminal, row: int, column: int)
    requires WellFormed(t)
  {
    t' == t.(cursor := t.cursor.(row := Clamp(row, t.rows - 1), column := Clamp(column, t.columns - 1)),
             wrapPending := false, damaged := true)
  }

  /** Moves toward the origin and to an absolute place go as far as they can towards their goal, inside the grid. */
  lemma MovesAreClamped(t: Terminal, n: nat, row: nat, column: nat)
    requires WellFormed(t)
    ensures MovedTo(t, Apply(t, CursorUp(n)), t.cursor.row - n, t.cursor.column)
    ensures MovedTo(t, Apply(t, CursorBack(n)), t.cursor.row, t.cursor.column - n)
    ensures MovedTo(t, Apply(t, CursorPosition(row, column)), row, column)
    ensures MovedTo(t, Apply(t, ExecuteControl(0x08)), t.cursor.row, t.cursor.column - 1)
    ensures MovedTo(t, Apply(t, ExecuteControl(0x0D)), t.cursor.row, 0)
  {
  }

  /**
    A line feed moves one row down in its column. On the last row the screen moves up instead: its top
    row joins the scrollback, as far as the limit lets it, and a blank row comes in below.
   */
  lemma LineFeedMovesDown(t: Terminal, control: Byte)
    requires WellFormed(t) && 0x0A <= control <= 0x0C
    ensures var t' := Apply(t, ExecuteControl(control));
            var scrolls := if t.cursor.row + 1 == t.rows then 1 else 0;
            && t' == t.(cursor := t.cursor.(row := Min(t.cursor.row + 1, t.rows - 1)), screen := t'.screen,
                        scrollback := t'.scrollback, wrapPending := false, damaged := true)
            && KeepsCells(t'.screen, t.rows, t.columns, t, scrolls)
            && t'.scrollback == if scrolls == 1 then KeepLast(t.scrollback + [t.screen[0]], t.limit) else t.scrollback
  {
    hide KeepLast;
    LineFeedCells(t);
    NoRoom(t.scrollback, t.screen[0]);
  }

  lemma NoRoom(scrollback: seq<Row>, row: Row)
    ensures KeepLast(scrollback + [row], 0) == []
  {
  }

  lemma LineFeedCells(t: Terminal)
    requires WellFormed(t)
    ensures var scrolls := if t.cursor.row + 1 == t.rows then 1 else 0;
            KeepsCells(LineFeed(t).screen, t.rows, t.columns, t, scrolls)
  {
    hide KeepLast;
    var screen, scrolls := LineFeed(t).screen, if t.cursor.row + 1 == t.rows then 1 else 0;
    forall r, c | 0 <= r < t.rows && 0 <= c < t.columns
      ensures |screen[r]| == t.columns && screen[r][c] == OldCell(t, r + scrolls, c)
    {
      assert screen[r] == if r + scrolls < t.rows then t.screen[r + scrolls] else BlankRow(t.columns);
    }
  }

  /** Other controls do nothing, not even damage: BEL, for one. */
  lemma OtherControlsDoNothing(t: Terminal, control: Byte)
    requires WellFormed(t) && !(0x08 <= control <= 0x0D)
    ensures Apply(t, ExecuteControl(control)) == t
  {
  }

  /** Moves away from the origin do so exactly if the sum does not wrap around. */
  lemma SumsClampedExactly(t: Terminal, n: nat)
    requires WellFormed(t) && t.rows < SIZE_MODULUS && t.columns < SIZE_MODULUS && n < SIZE_MODULUS
    ensures MovedTo(t, Apply(t, CursorDown(n)), t.cursor.row + n, t.cursor.column) <==> t.cursor.row + n < SIZE_MODULUS
    ensures MovedTo(t, Apply(t, CursorForward(n)), t.cursor.row, t.cursor.column + n)
            <==> t.cursor.column + n < SIZE_MODULUS
  {
    hide SizeSum;
    WrappedSum(t.cursor.row, n);
    WrappedSum(t.cursor.column, n);
  }

  /** For one, the largest count takes the cursor from the second row up to the first. */
  lemma LargestCountMovesUp()
    ensures var t := MoveTo(Initial(2, 1, 0), 1, 0);
            && Apply(t, CursorDown(SIZE_MODULUS - 1)).cursor.row == 0
            && !MovedTo(t, Apply(t, CursorDown(SIZE_MODULUS - 1)), t.cursor.row + (SIZE_MODULUS - 1), t.cursor.column)
  {
  }

  lemma WrappedSum(a: nat, b: nat)
    requires a < SIZE_MODULUS && b < SIZE_MODULUS
    ensures SizeSum(a, b) == if a + b < SIZE_MODULUS then a + b else a + b - SIZE_MODULUS
  {
  }

  /** A tab goes to the next multiple of eight, or to the last column if that comes first. */
  lemma TabStops(t: Terminal)
    requires WellFormed(t) && t.cursor.column < SIZE_MODULUS - 8
    ensures var t' := Apply(t, ExecuteControl(0x09));
            && MovedTo(t, t', t.cursor.row, t'.cursor.column)
            && t'.cursor.column <= t.cursor.column + 8
            && (t'.cursor.column == t.columns - 1 || (t'.cursor.column % 8 == 0 && t'.cursor.column > t.cursor.column))
            && forall stop :: t.cursor.column < stop < t'.cursor.column ==> stop % 8 != 0
  {
    hide WellFormed;
    NextStop(t.cursor.column);
    TabMoves(t);
  }

  lemma TabMoves(t: Terminal)
    requires WellFormed(t)
    ensures t.cursor.column < t.columns && t.cursor.row < t.rows
    ensures Apply(t, ExecuteControl(0x09))
         == MoveTo(t, t.cursor.row, Min((t.cursor.column / 8 + 1) * 8 % SIZE_MODULUS, t.columns - 1))
  {
  }

  lemma NextStop(column: nat)
    requires column < SIZE_MODULUS - 8
    ensures var stop := (column / 8 + 1) * 8;
            stop % SIZE_MODULUS == stop && stop % 8 == 0 && column < stop <= column + 8
    ensures forall other :: column < other < (column / 8 + 1) * 8 ==> other % 8 != 0
  {
  }

  /** A reset makes a new terminal of the same size and limit, but for the scrollback and the title. */
  lemma ResetIsNew(t: Terminal)
    requires WellFormed(t)
    ensures Apply(t, Reset) == Initial(t.rows, t.columns, t.limit).(scrollback := t.scrollback, title := t.title)
  {
  }
}
