/**
  What printing one character does, field by field and cell by cell, on every well-formed terminal:
  where it goes, what scrolls off, which cells change, and which cell a combining mark joins.
 */
module Printing {
  import opened Types
  import opened Sequences
  import opened TerminalModel
  import opened GridLaws
  import opened Marks
  import opened Scrollback

  // ---- Two tables ----

  const WIDE := [(0x1100, 0x115F), (0x2329, 0x232A), (0x2E80, 0xA4CF), (0xAC00, 0xD7A3), (0xF900, 0xFAFF),
                 (0xFE10, 0xFE19), (0xFE30, 0xFE6F), (0xFF00, 0xFF60), (0xFFE0, 0xFFE6), (0x1F300, 0x1FAFF),
                 (0x20000, 0x3FFFD)]

  const COMBINING := [(0x0300, 0x036F), (0x1AB0, 0x1AFF), (0x1DC0, 0x1DFF), (0x20D0, 0x20FF), (0xFE20, 0xFE2F)]

  predicate Among(c: CodePoint, ranges: seq<(int, int)>) {
    exists i :: 0 <= i < |ranges| && ranges[i].0 <= c <= ranges[i].1
  }

  lemma WideAreAmong(c: CodePoint)
    ensures WidthOf(c) == if Among(c, WIDE) then Wide else Normal
  {
    assert WIDE[0] == (0x1100, 0x115F) && WIDE[1] == (0x2329, 0x232A) && WIDE[2] == (0x2E80, 0xA4CF);
    assert WIDE[3] == (0xAC00, 0xD7A3) && WIDE[4] == (0xF900, 0xFAFF) && WIDE[5] == (0xFE10, 0xFE19);
    assert WIDE[6] == (0xFE30, 0xFE6F) && WIDE[7] == (0xFF00, 0xFF60) && WIDE[8] == (0xFFE0, 0xFFE6);
    assert WIDE[9] == (0x1F300, 0x1FAFF) && WIDE[10] == (0x20000, 0x3FFFD);
  }

  lemma CombiningAreAmong(c: CodePoint)
    ensures IsCombining(c) <==> Among(c, COMBINING)
  {
    assert COMBINING[0] == (0x0300, 0x036F) && COMBINING[1] == (0x1AB0, 0x1AFF) && COMBINING[2] == (0x1DC0, 0x1DFF);
    assert COMBINING[3] == (0x20D0, 0x20FF) && COMBINING[4] == (0xFE20, 0xFE2F);
  }

  // ---- Where a character goes ----

  /** How many cells the character takes. */
  function Cells(t: Terminal, c: CodePoint): nat {
    if Among(c, WIDE) && t.columns >= 2 then 2 else 1
  }

  /** It starts a new row: a wrap was pending, or it is wide and the cursor is in the last column. */
  predicate StartsRow(t: Terminal, c: CodePoint) {
    (t.wrapPending && t.modes.autoWrap) || (Cells(t, c) == 2 && t.cursor.column + 1 == t.columns)
  }

  function RowOf(t: Terminal, c: CodePoint): nat
    requires WellFormed(t)
  {
    if StartsRow(t, c) then Min(t.cursor.row + 1, t.rows - 1) else t.cursor.row
  }

  function ColumnOf(t: Terminal, c: CodePoint): nat {
    if StartsRow(t, c) then 0 else t.cursor.column
  }

  /** By how many rows, one or none, the screen moves up. */
  function MovesUp(t: Terminal, c: CodePoint): nat {
    if StartsRow(t, c) && t.cursor.row + 1 == t.rows then 1 else 0
  }

  /** The cell at (r, column) when the character has been printed. */
  function CellAfter(t: Terminal, c: CodePoint, r: nat, column: nat): Cell
    requires WellFormed(t)
  {
    var n, at, up := Cells(t, c), ColumnOf(t, c), MovesUp(t, c);
    if r == RowOf(t, c) && column == at then Cell([c], t.style, if n == 2 then Wide else Normal)
    else if r == RowOf(t, c) && n == 2 && column == at + 1 then Cell([], t.style, Continuation)
    else if r == RowOf(t, c) && t.modes.insert && column >= at + n then OldCell(t, r + up, column - n)
    else OldCell(t, r + up, column)
  }

  lemma RoomCells(t: Terminal, c: CodePoint)
    requires WellFormed(t)
    ensures var room := MakeRoom(t, c);
            && KeepsCells(room.screen, t.rows, t.columns, t, MovesUp(t, c))
            && room.cursor == t.cursor.(row := RowOf(t, c), column := ColumnOf(t, c))
            && room == t.(screen := room.screen, scrollback := room.scrollback, cursor := room.cursor,
                          wrapPending := room.wrapPending, damaged := room.damaged)
            && room.scrollback == if MovesUp(t, c) == 1 then KeepLast(t.scrollback + [t.screen[0]], t.limit) else t.scrollback
  {
    hide LineFeed, MakeRoom, GridLaws.OldCell, WidthOf, Among, KeepLast;
    WideAreAmong(c);
    MakeRoomScrolls(t, c);
    LineFeedMovesDown(t, 0x0A);
    CellsAsTheyAre(t);
    assert NeedsNewRow(t, c) == StartsRow(t, c);
  }

  lemma CellsAsTheyAre(t: Terminal)
    requires WellFormed(t)
    ensures KeepsCells(t.screen, t.rows, t.columns, t, 0)
  {
  }

  /** Placing a character where there is room for it. */
  lemma PlacedCells(t: Terminal, c: CodePoint, r: nat, column: nat)
    requires WellFormed(t) && t.cursor.column + |GlyphCells(c, t.style, t.columns)| <= t.columns
    requires r < t.rows && column < t.columns
    ensures var t' := PlaceGlyph(t, c);
            var n, at := Cells(t, c), t.cursor.column;
            && n == |GlyphCells(c, t.style, t.columns)|
            && |t'.screen| == t.rows && |t'.screen[r]| == |t.screen[r]| == t.columns
            && t'.screen[r][column] ==
               if r == t.cursor.row && column == at then Cell([c], t.style, if n == 2 then Wide else Normal)
               else if r == t.cursor.row && n == 2 && column == at + 1 then Cell([], t.style, Continuation)
               else if r == t.cursor.row && t.modes.insert && column >= at + n then t.screen[r][column - n]
               else t.screen[r][column]
  {
    hide WidthOf, Among, Rectangular, Overwrite, ShiftRight;
    WideAreAmong(c);
    assert GoodRow(t.screen[r], t.columns);
    if r == t.cursor.row {
      var cells := GlyphCells(c, t.style, t.columns);
      ShiftedCell(t.screen[r], t.cursor.column, |cells|, column);
      OverwrittenCell(if t.modes.insert then ShiftRight(t.screen[r], t.cursor.column, |cells|) else t.screen[r],
                      t.cursor.column, cells, column);
    }
  }

  lemma ShiftedCell(row: Row, at: nat, count: nat, c: nat)
    requires c < |row|
    ensures ShiftRight(row, at, count)[c] == if at + count <= c then row[c - count] else row[c]
  {
  }

  lemma OverwrittenCell(row: Row, at: nat, cells: seq<Cell>, c: nat)
    requires at + |cells| <= |row| && c < |row|
    ensures Overwrite(row, at, cells)[c] == if at <= c < at + |cells| then cells[c - at] else row[c]
  {
  }

  /**
    A character that is no combining mark: the one or two cells it fills, every other cell, the
    cursor, the pending wrap, the row that scrolls off; and no other field changes, damage aside.
   */
  lemma PrintExactly(t: Terminal, c: CodePoint)
    requires WellFormed(t) && !Among(c, COMBINING)
    ensures var t' := Apply(t, Print(c));
            var next := ColumnOf(t, c) + Cells(t, c);
            && IsGrid(t'.screen, t.rows, t.columns)
            && (forall r, column :: 0 <= r < t.rows && 0 <= column < t.columns ==>
                  t'.screen[r][column] == CellAfter(t, c, r, column))
            && t'.cursor == t.cursor.(row := RowOf(t, c), column := Min(next, t.columns - 1))
            && t'.wrapPending == (next == t.columns)
            && t'.scrollback == (if MovesUp(t, c) == 1 then KeepLast(t.scrollback + [t.screen[0]], t.limit)
                                 else t.scrollback)
            && t' == t.(screen := t'.screen, scrollback := t'.scrollback, cursor := t'.cursor,
                        wrapPending := t'.wrapPending, damaged := true)
  {
    hide MakeRoom, PlaceGlyph, GlyphCells, IsCombining, WidthOf, Among, KeepLast, StartsRow, MovesUp;
    CombiningAreAmong(c);
    RoomCells(t, c);
    PlacedFields(MakeRoom(t, c), c);
    var room := MakeRoom(t, c);
    var t' := PlaceGlyph(room, c);
    forall r: nat, column: nat | r < t.rows && column < t.columns
      ensures |t'.screen[r]| == t.columns && t'.screen[r][column] == CellAfter(t, c, r, column)
    {
      PlacedCells(room, c, r, column);
    }
  }

  lemma PlacedFields(t: Terminal, c: CodePoint)
    requires WellFormed(t) && t.cursor.column + |GlyphCells(c, t.style, t.columns)| <= t.columns
    ensures var t' := PlaceGlyph(t, c);
            var next := t.cursor.column + Cells(t, c);
            && |t'.screen| == t.rows && next <= t.columns
            && t' == t.(screen := t'.screen, cursor := t.cursor.(column := Min(next, t.columns - 1)),
                        wrapPending := next == t.columns, damaged := true)
  {
    hide WidthOf, Among, Overwrite, ShiftRight;
    WideAreAmong(c);
  }

  // ---- Which cell a mark joins ----

  /** The cells left of the cursor in its row; if there are none, the row above. */
  predicate BeforeCursor(t: Terminal, row: nat, column: nat) {
    || (row == t.cursor.row && column < t.cursor.column)
    || (t.cursor.column == 0 && row + 1 == t.cursor.row)
  }

  /** The last of these cells that is not the right half of a wide character. */
  predicate IsTarget(t: Terminal, row: nat, column: nat)
    requires WellFormed(t)
  {
    && row < t.rows && column < |t.screen[row]|
    && BeforeCursor(t, row, column)
    && t.screen[row][column].width != Continuation
    && forall c :: column < c < |t.screen[row]| && BeforeCursor(t, row, c) ==> t.screen[row][c].width == Continuation
  }

  lemma {:induction false} ScanBackSkips(row: Row, column: nat)
    requires column < |row|
    ensures forall c :: ScanBack(row, column) < c <= column ==> row[c].width == Continuation
    decreases column
  {
    if column > 0 && row[column].width == Continuation {
      ScanBackSkips(row, column - 1);
    }
  }

  lemma MarkTargetIsTarget(t: Terminal)
    requires WellFormed(t) && !(t.cursor.row == 0 && t.cursor.column == 0)
    ensures IsTarget(t, MarkTarget(t).0, MarkTarget(t).1)
  {
    TargetIsLead(t);
    var row := MarkTarget(t).0;
    assert GoodRow(t.screen[row], t.columns);
    ScanBackSkips(t.screen[row], if t.cursor.column == 0 then t.columns - 1 else t.cursor.column - 1);
  }

  lemma OneTarget(t: Terminal, row: nat, column: nat, row': nat, column': nat)
    requires WellFormed(t) && IsTarget(t, row, column) && IsTarget(t, row', column')
    ensures row == row' && column == column'
  {
  }

  /**
    A combining mark joins the text of the last whole cell before the cursor, wherever the cursor is,
    and changes nothing else; in the first cell of the grid it prints U+FFFD instead.
   */
  lemma MarkExactly(t: Terminal, mark: CodePoint)
    requires WellFormed(t) && Among(mark, COMBINING)
    ensures t.cursor.row == 0 && t.cursor.column == 0 ==> Apply(t, Print(mark)) == Apply(t, Print(0xFFFD))
    ensures !(t.cursor.row == 0 && t.cursor.column == 0) ==> exists row: nat, column: nat :: IsTarget(t, row, column)
    ensures forall row: nat, column: nat :: IsTarget(t, row, column) ==>
              Apply(t, Print(mark)) == WithText(t, row, column, t.screen[row][column].text + [mark])
  {
    hide PutPrintable, IsCombining, Among, MarkTarget;
    CombiningAreAmong(mark);
    ReplacementIsPlain();
    if !(t.cursor.row == 0 && t.cursor.column == 0) {
      MarkTargetIsTarget(t);
      OneMark(t, mark);
    }
    forall row: nat, column: nat | IsTarget(t, row, column)
      ensures Apply(t, Print(mark)) == WithText(t, row, column, t.screen[row][column].text + [mark])
    {
      NoTargetAtOrigin(t, row, column);
      OneTarget(t, row, column, MarkTarget(t).0, MarkTarget(t).1);
    }
  }

  lemma ReplacementIsPlain()
    ensures !IsCombining(0xFFFD)
  {
  }

  lemma NoTargetAtOrigin(t: Terminal, row: nat, column: nat)
    requires WellFormed(t) && IsTarget(t, row, column)
    ensures !(t.cursor.row == 0 && t.cursor.column == 0)
    ensures row < |t.screen| && column < |t.screen[row]|
  {
  }
}
