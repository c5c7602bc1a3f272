/**
  Printed text against a layout that knows no terminal: each line is cut into the longest pieces
  that fit a row, and the pieces of all lines are stacked.
 */
module Layout {
  import opened Types
  import opened Sequences
  import opened TerminalModel
  import opened Runs

  // ---- The layout ----

  /** The cells of some text, side by side. */
  function TextCells(cs: seq<CodePoint>, style: CellStyle, columns: nat): seq<Cell> {
    if cs == [] then [] else GlyphCells(cs[0], style, columns) + TextCells(cs[1..], style, columns)
  }

  /** How many characters from the front fit into `room` cells. */
  function FitCount(cs: seq<CodePoint>, room: nat, style: CellStyle, columns: nat): (n: nat)
    ensures n <= |cs|
    ensures cs != [] && columns > 0 && room == columns ==> n > 0
  {
    if cs == [] || |GlyphCells(cs[0], style, columns)| > room then 0
    else 1 + FitCount(cs[1..], room - |GlyphCells(cs[0], style, columns)|, style, columns)
  }

  lemma TextCellsOfFirst(cs: seq<CodePoint>, n: nat, style: CellStyle, columns: nat)
    requires 0 < n <= |cs|
    ensures TextCells(cs[..n], style, columns)
         == GlyphCells(cs[0], style, columns) + TextCells(cs[1..][..n - 1], style, columns)
  {
    hide GlyphCells;
    assert cs[..n][1..] == cs[1..][..n - 1];
  }

  /** It is the length of the longest front part whose cells fit. */
  lemma {:induction false} FitCountIsLongest(cs: seq<CodePoint>, room: nat, style: CellStyle, columns: nat)
    ensures var n := FitCount(cs, room, style, columns);
            && |TextCells(cs[..n], style, columns)| <= room
            && (n < |cs| ==> |TextCells(cs[..n + 1], style, columns)| > room)
    decreases |cs|
  {
    hide GlyphCells;
    var n := FitCount(cs, room, style, columns);
    if cs != [] {
      if n > 0 {
        FitCountIsLongest(cs[1..], room - |GlyphCells(cs[0], style, columns)|, style, columns);
        TextCellsOfFirst(cs, n, style, columns);
      }
      if n < |cs| {
        TextCellsOfFirst(cs, n + 1, style, columns);
      }
    }
  }

  function PadRow(cells: seq<Cell>, columns: nat): Row
    requires |cells| <= columns
  {
    cells + seq(columns - |cells|, _ => BLANK_CELL)
  }

  /** The rows of one line that continues a row which already holds the cells `before`. */
  function LayoutFrom(before: seq<Cell>, cs: seq<CodePoint>, style: CellStyle, columns: nat): seq<Row>
    requires |before| <= columns && columns > 0
    decreases |cs|, |before|
  {
    var n := FitCount(cs, columns - |before|, style, columns);
    FitCountIsLongest(cs, columns - |before|, style, columns);
    [PadRow(before + TextCells(cs[..n], style, columns), columns)]
    + if n == |cs| then [] else LayoutFrom([], cs[n..], style, columns)
  }

  function LayoutLine(line: seq<CodePoint>, style: CellStyle, columns: nat): seq<Row>
    requires columns > 0
  {
    LayoutFrom([], line, style, columns)
  }

  function LayoutText(lines: seq<seq<CodePoint>>, style: CellStyle, columns: nat): seq<Row>
    requires columns > 0
  {
    if lines == [] then [] else LayoutLine(lines[0], style, columns) + LayoutText(lines[1..], style, columns)
  }

  /** The operations that print the lines, carriage return and line feed in between. */
  function TextOps(lines: seq<seq<CodePoint>>): seq<Op>
    requires lines != []
  {
    if |lines| == 1 then Prints(lines[0])
    else Prints(lines[0]) + ([ExecuteControl(0x0D), ExecuteControl(0x0A)] + TextOps(lines[1..]))
  }

  // ---- What the terminal shows ----

  /** The part of a page that is on the screen, and the part above it. */
  function OnScreen(page: seq<Row>, rows: nat): seq<Row> {
    page[|page| - Min(|page|, rows)..]
  }

  function Above(page: seq<Row>, rows: nat): seq<Row> {
    page[..|page| - Min(|page|, rows)]
  }

  lemma PageSplit(page: seq<Row>, rows: nat)
    ensures Above(page, rows) + OnScreen(page, rows) == page && |OnScreen(page, rows)| == Min(|page|, rows)
  {
  }

  lemma PageGrows(page: seq<Row>, row: Row, rows: nat)
    requires |page| < rows
    ensures OnScreen(page + [row], rows) == OnScreen(page, rows) + [row]
    ensures Above(page + [row], rows) == Above(page, rows)
  {
  }

  lemma PageMoves(page: seq<Row>, row: Row, rows: nat)
    requires |page| >= rows > 0
    ensures OnScreen(page + [row], rows) == OnScreen(page, rows)[1..] + [row]
    ensures Above(page + [row], rows) == Above(page, rows) + [OnScreen(page, rows)[0]]
  {
  }

  /**
    The terminal shows the rows `done`, followed by a row that holds the cells `current` so far:
    the last rows are on the screen, the ones before them in the scrollback as far as it goes.
   */
  predicate Shows(t: Terminal, done: seq<Row>, current: seq<Cell>) {
    && WellFormed(t) && StandardModes(t)
    && |current| <= t.columns
    && var page := done + [PadRow(current, t.columns)];
       var visible := Min(|page|, t.rows);
       && t.screen == OnScreen(page, t.rows) + BlankGrid(t.rows - visible, t.columns)
       && t.scrollback == KeepLast(Above(page, t.rows), t.limit)
       && t.cursor.row == visible - 1
       && t.cursor.column == Min(|current|, t.columns - 1)
       && t.wrapPending == (|current| == t.columns)
  }

  lemma PadRowGrows(current: seq<Cell>, cells: seq<Cell>, columns: nat)
    requires |current| + |cells| <= columns
    ensures Overwrite(PadRow(current, columns), |current|, cells) == PadRow(current + cells, columns)
  {
  }

  /** A character that fits joins the last row. */
  lemma PlaceInRow(t: Terminal, done: seq<Row>, current: seq<Cell>, c: CodePoint)
    requires Shows(t, done, current) && |current| + |GlyphCells(c, t.style, t.columns)| <= t.columns
    ensures Shows(PlaceGlyph(t, c), done, current + GlyphCells(c, t.style, t.columns))
  {
    hide GlyphCells, Overwrite, PadRow, KeepLast, BlankRow, BlankGrid, OnScreen, Above;
    var cells := GlyphCells(c, t.style, t.columns);
    PadRowGrows(current, cells, t.columns);
    LastRowReplaced(done, PadRow(current, t.columns), PadRow(current + cells, t.columns), t.rows,
                    BlankGrid(t.rows - Min(|done| + 1, t.rows), t.columns));
  }

  lemma LastRowReplaced(done: seq<Row>, last: Row, last': Row, rows: nat, below: seq<Row>)
    requires rows > 0
    ensures var visible := Min(|done| + 1, rows);
            && |OnScreen(done + [last], rows)| == visible
            && (OnScreen(done + [last], rows) + below)[visible - 1] == last
            && (OnScreen(done + [last], rows) + below)[visible - 1 := last'] == OnScreen(done + [last'], rows) + below
            && Above(done + [last], rows) == Above(done + [last'], rows)
  {
  }

  /** A new row ends the last one. */
  lemma StartRow(t: Terminal, done: seq<Row>, current: seq<Cell>)
    requires Shows(t, done, current)
    ensures Shows(NewRow(t), done + [PadRow(current, t.columns)], [])
    ensures NewRow(t).style == t.style && NewRow(t).columns == t.columns
  {
    hide PadRow, KeepLast, BlankGrid, OnScreen, Above, BlankRow;
    var page, blank := done + [PadRow(current, t.columns)], PadRow([], t.columns);
    BlankIsPadded(t.columns);
    PageSplit(page, t.rows);
    if |page| < t.rows {
      BlankGridSplit(t.rows - |page|, t.columns);
      AppendAssoc(OnScreen(page, t.rows), [blank], BlankGrid(t.rows - |page| - 1, t.columns));
      PageGrows(page, blank, t.rows);
    } else {
      NoBlanks(t.columns, OnScreen(page, t.rows), OnScreen(page + [blank], t.rows));
      PageMoves(page, blank, t.rows);
      PageScrolls(t, page);
    }
  }

  lemma NoBlanks(columns: nat, a: seq<Row>, b: seq<Row>)
    ensures a + BlankGrid(0, columns) == a && b + BlankGrid(0, columns) == b
  {
  }

  lemma BlankIsPadded(columns: nat)
    ensures PadRow([], columns) == BlankRow(columns)
  {
  }

  lemma BlankGridSplit(rows: nat, columns: nat)
    requires rows > 0
    ensures BlankGrid(rows, columns) == [BlankRow(columns)] + BlankGrid(rows - 1, columns)
  {
  }

  /** What a line feed on the last row does to the scrollback. */
  lemma PageScrolls(t: Terminal, page: seq<Row>)
    requires WellFormed(t) && |page| >= t.rows && t.cursor.row == t.rows - 1
    requires t.screen == OnScreen(page, t.rows) && t.scrollback == KeepLast(Above(page, t.rows), t.limit)
    ensures LineFeed(t).scrollback == KeepLast(Above(page, t.rows) + [OnScreen(page, t.rows)[0]], t.limit)
  {
    hide KeepLast, BlankRow, Above, OnScreen;
    KeepLastOfKept(Above(page, t.rows), OnScreen(page, t.rows)[0], t.limit);
    if t.limit == 0 {
      KeepLastZero(Above(page, t.rows));
      KeepLastZero(Above(page, t.rows) + [OnScreen(page, t.rows)[0]]);
    }
  }

  lemma KeepLastZero<T>(s: seq<T>)
    ensures KeepLast(s, 0) == []
  {
  }

  /** A printed character joins the last row if it fits, and starts a new row if not. */
  lemma PrintInPage(t: Terminal, done: seq<Row>, current: seq<Cell>, c: CodePoint)
    requires Shows(t, done, current) && !IsCombining(c)
    ensures var cells := GlyphCells(c, t.style, t.columns);
            var t' := PrintCodePoint(t, c);
            && t'.style == t.style && t'.columns == t.columns
            && if |current| + |cells| <= t.columns then Shows(t', done, current + cells)
               else Shows(t', done + [PadRow(current, t.columns)], cells)
  {
    hide PadRow, KeepLast, BlankGrid, NewRow, PlaceGlyph, IsCombining, BlankRow;
    var cells := GlyphCells(c, t.style, t.columns);
    PrintFrame(t, c);
    StartRow(t, done, current);
    if |current| + |cells| <= t.columns {
      assert MakeRoom(t, c) == t;
      PlaceInRow(t, done, current, c);
    } else {
      assert MakeRoom(t, c) == NewRow(t);
      PlaceInRow(NewRow(t), done + [PadRow(current, t.columns)], [], c);
      assert [] + cells == cells;
    }
  }

  // ---- A line, and all lines ----

  /** The first row that `LayoutFrom` builds, and the characters it takes. */
  function FirstRow(before: seq<Cell>, cs: seq<CodePoint>, style: CellStyle, columns: nat): (Row, nat)
    requires |before| <= columns
  {
    var n := FitCount(cs, columns - |before|, style, columns);
    FitCountIsLongest(cs, columns - |before|, style, columns);
    (PadRow(before + TextCells(cs[..n], style, columns), columns), n)
  }

  lemma FirstRowJoins(before: seq<Cell>, cs: seq<CodePoint>, style: CellStyle, columns: nat)
    requires cs != [] && |before| + |GlyphCells(cs[0], style, columns)| <= columns
    ensures var row, joined := FirstRow(before, cs, style, columns),
                               FirstRow(before + GlyphCells(cs[0], style, columns), cs[1..], style, columns);
            row.0 == joined.0 && row.1 == 1 + joined.1
  {
    hide GlyphCells, PadRow, TextCells;
    var cells, n := GlyphCells(cs[0], style, columns), FitCount(cs, columns - |before|, style, columns);
    TextCellsOfFirst(cs, n, style, columns);
    AppendAssoc(before, cells, TextCells(cs[1..][..n - 1], style, columns));
  }

  lemma LayoutJoins(before: seq<Cell>, cs: seq<CodePoint>, style: CellStyle, columns: nat)
    requires cs != [] && columns > 0 && |before| + |GlyphCells(cs[0], style, columns)| <= columns
    ensures LayoutFrom(before, cs, style, columns)
         == LayoutFrom(before + GlyphCells(cs[0], style, columns), cs[1..], style, columns)
  {
    hide GlyphCells, FirstRow;
    var joined := before + GlyphCells(cs[0], style, columns);
    FirstRowJoins(before, cs, style, columns);
    LayoutIsFirstRow(before, cs, style, columns);
    LayoutIsFirstRow(joined, cs[1..], style, columns);
    var n := FirstRow(before, cs, style, columns).1;
    assert n <= |cs| ==> cs[n..] == cs[1..][n - 1..];
  }

  lemma LayoutIsFirstRow(before: seq<Cell>, cs: seq<CodePoint>, style: CellStyle, columns: nat)
    requires |before| <= columns && columns > 0
    ensures var (row, n) := FirstRow(before, cs, style, columns);
            && n <= |cs|
            && LayoutFrom(before, cs, style, columns)
               == [row] + if n == |cs| then [] else LayoutFrom([], cs[n..], style, columns)
  {
    hide GlyphCells, PadRow, TextCells;
  }

  lemma LayoutBreaks(before: seq<Cell>, cs: seq<CodePoint>, style: CellStyle, columns: nat)
    requires cs != [] && columns > 0 && |before| <= columns < |before| + |GlyphCells(cs[0], style, columns)|
    ensures LayoutFrom(before, cs, style, columns)
         == [PadRow(before, columns)] + LayoutFrom(GlyphCells(cs[0], style, columns), cs[1..], style, columns)
  {
    var cells := GlyphCells(cs[0], style, columns);
    assert FitCount(cs, columns - |before|, style, columns) == 0;
    assert before + TextCells(cs[..0], style, columns) == before;
    assert cs[0..] == cs;
    LayoutJoins([], cs, style, columns);
    assert [] + cells == cells;
  }

  lemma {:induction false} PrintLine(t: Terminal, done: seq<Row>, current: seq<Cell>, cs: seq<CodePoint>)
    returns (done': seq<Row>, current': seq<Cell>)
    requires Shows(t, done, current) && forall i :: 0 <= i < |cs| ==> !IsCombining(cs[i])
    ensures var t' := ApplyAll(t, Prints(cs));
            && t'.style == t.style && t'.columns == t.columns
            && Shows(t', done', current')
            && done' + [PadRow(current', t.columns)] == done + LayoutFrom(current, cs, t.style, t.columns)
    decreases |cs|
  {
    hide Shows, PadRow, PrintCodePoint, LayoutFrom, GlyphCells, IsCombining;
    ShowsIsWellFormed(t, done, current);
    if cs == [] {
      LayoutOfNothing(current, t.style, t.columns);
      return done, current;
    }
    var cells := GlyphCells(cs[0], t.style, t.columns);
    var next := PrintCodePoint(t, cs[0]);
    PrintInPage(t, done, current, cs[0]);
    assert Prints(cs)[1..] == Prints(cs[1..]);
    if |current| + |cells| <= t.columns {
      done', current' := PrintLine(next, done, current + cells, cs[1..]);
      LayoutJoins(current, cs, t.style, t.columns);
    } else {
      var full := PadRow(current, t.columns);
      done', current' := PrintLine(next, done + [full], cells, cs[1..]);
      LayoutBreaks(current, cs, t.style, t.columns);
      AppendAssoc(done, [full], LayoutFrom(cells, cs[1..], t.style, t.columns));
    }
  }

  lemma ShowsIsWellFormed(t: Terminal, done: seq<Row>, current: seq<Cell>)
    requires Shows(t, done, current)
    ensures WellFormed(t) && t.columns > 0 && |current| <= t.columns
  {
  }

  lemma LayoutOfNothing(current: seq<Cell>, style: CellStyle, columns: nat)
    requires |current| <= columns && columns > 0
    ensures LayoutFrom(current, [], style, columns) == [PadRow(current, columns)]
  {
    assert current + [] == current;
  }

  /** Carriage return and line feed, in either order, start a new row. */
  lemma ReturnAndFeed(t: Terminal)
    requires WellFormed(t)
    ensures ApplyAll(t, [ExecuteControl(0x0D), ExecuteControl(0x0A)]) == NewRow(t)
  {
    hide ApplyAll, LineFeed, CarriageReturn, NewRow, WellFormed;
    FeedAfterReturn(t);
    ApplyTwo(t, ExecuteControl(0x0D), ExecuteControl(0x0A));
  }

  lemma ApplyTwo(t: Terminal, first: Op, second: Op)
    requires WellFormed(t)
    ensures ApplyAll(t, [first, second]) == Apply(Apply(t, first), second)
  {
    hide Apply, ApplyAll, WellFormed;
    assert [first, second] == [first] + [second];
    ApplyAllConcat(t, [first], [second]);
    ApplyNoneOrOne(t);
    ApplyNoneOrOne(Apply(t, first));
  }

  lemma FeedAfterReturn(t: Terminal)
    requires WellFormed(t)
    ensures LineFeed(CarriageReturn(t)) == NewRow(t)
  {
    hide KeepLast, BlankRow;
  }

  lemma {:induction false} PrintLines(t: Terminal, done: seq<Row>, lines: seq<seq<CodePoint>>)
    returns (done': seq<Row>, current': seq<Cell>)
    requires lines != [] && Shows(t, done, [])
    requires forall l, i :: 0 <= l < |lines| && 0 <= i < |lines[l]| ==> !IsCombining(lines[l][i])
    ensures t.columns > 0
    ensures var t' := ApplyAll(t, TextOps(lines));
            && t'.columns == t.columns && Shows(t', done', current')
            && done' + [PadRow(current', t.columns)] == done + LayoutText(lines, t.style, t.columns)
    decreases |lines|
  {
    hide Shows, PadRow, LayoutFrom, ApplyAll, Apply, IsCombining, NewRow;
    ShowsIsWellFormed(t, done, []);
    var first := LayoutLine(lines[0], t.style, t.columns);
    done', current' := PrintLine(t, done, [], lines[0]);
    var t1 := ApplyAll(t, Prints(lines[0]));
    if |lines| == 1 {
      assert lines[1..] == [];
      assert first + [] == first;
    } else {
      ShowsIsWellFormed(t1, done', current');
      StartRow(t1, done', current');
      ReturnAndFeed(t1);
      var t2, done2 := NewRow(t1), done' + [PadRow(current', t.columns)];
      var feed, rest := [ExecuteControl(0x0D), ExecuteControl(0x0A)], TextOps(lines[1..]);
      ApplyAllConcat(t, Prints(lines[0]), feed + rest);
      ApplyAllConcat(t1, feed, rest);
      done', current' := PrintLines(t2, done2, lines[1..]);
      AppendAssoc(done, first, LayoutText(lines[1..], t.style, t.columns));
    }
  }

  // ---- Main result ----

  /** The rows kept in all: the last of the page, filled up with blank rows if the page is short. */
  lemma ShownRows(t: Terminal, done: seq<Row>, current: seq<Cell>)
    requires Shows(t, done, current)
    ensures var page := done + [PadRow(current, t.columns)];
            var blanks := if |page| < t.rows then t.rows - |page| else 0;
            t.scrollback + t.screen == KeepLast(page + BlankGrid(blanks, t.columns), t.limit + t.rows)
  {
    hide PadRow, OnScreen, Above, BlankGrid, KeepLast, WellFormed;
    var page := done + [PadRow(current, t.columns)];
    var blanks := BlankGrid(t.rows - Min(|page|, t.rows), t.columns);
    RowsShown(t);
    PageSplit(page, t.rows);
    if |page| <= t.rows {
      NothingAbove(page, t.rows);
      KeepLastOfNone<Row>(t.limit);
      KeepLastAll(t.screen, t.limit + t.rows);
      assert [] + t.screen == t.screen;
      assert t.screen == page + blanks;
    } else {
      NoBlanks(t.columns, OnScreen(page, t.rows), page);
      KeepLastSplit(Above(page, t.rows), OnScreen(page, t.rows), t.limit);
    }
  }

  lemma RowsShown(t: Terminal)
    requires WellFormed(t)
    ensures |t.screen| == t.rows
  {
  }

  lemma NothingAbove(page: seq<Row>, rows: nat)
    requires |page| <= rows
    ensures Above(page, rows) == [] && OnScreen(page, rows) == page
  {
  }

  lemma KeepLastAll<T>(s: seq<T>, n: nat)
    requires |s| <= n
    ensures KeepLast(s, n) == s
  {
  }

  lemma KeepLastSplit<T>(a: seq<T>, b: seq<T>, n: nat)
    ensures KeepLast(a, n) + b == KeepLast(a + b, n + |b|)
  {
  }

  lemma FreshShowsNothing(rows: nat, columns: nat, limit: nat, style: CellStyle)
    ensures Shows(Initial(rows, columns, limit).(style := style), [], [])
  {
    var t := Initial(rows, columns, limit);
    BlankIsPadded(t.columns);
    BlankGridSplit(t.rows, t.columns);
    var page := [PadRow([], t.columns)];
    assert [] + page == page && OnScreen(page, t.rows) == page && Above(page, t.rows) == [];
  }

  /**
    Text printed on a new terminal leaves in the scrollback and on the screen, together, the last
    rows of its layout, as many as there is room for; the rest of the screen is blank.
   */
  lemma LayoutRefinement(rows: nat, columns: nat, limit: nat, style: CellStyle, lines: seq<seq<CodePoint>>)
    requires lines != []
    requires forall l, i :: 0 <= l < |lines| && 0 <= i < |lines[l]| ==> !IsCombining(lines[l][i])
    ensures var start := Initial(rows, columns, limit).(style := style);
            var t := ApplyAll(start, TextOps(lines));
            var page := LayoutText(lines, style, start.columns);
            var blanks := if |page| < start.rows then start.rows - |page| else 0;
            t.scrollback + t.screen ==
              KeepLast(page + BlankGrid(blanks, start.columns), start.limit + start.rows)
  {
    hide Shows, ApplyAll, LayoutText, KeepLast;
    var start := Initial(rows, columns, limit).(style := style);
    FreshShowsNothing(rows, columns, limit, style);
    var done, current := PrintLines(start, [], lines);
    EmptyFirst(LayoutText(lines, style, start.columns));
    TextKeepsSize(start, TextOps(lines));
    ShownRows(ApplyAll(start, TextOps(lines)), done, current);
  }

  lemma {:induction false} TextKeepsSize(t: Terminal, ops: seq<Op>)
    requires WellFormed(t)
    ensures var t' := ApplyAll(t, ops); t'.rows == t.rows && t'.columns == t.columns && t'.limit == t.limit
    decreases |ops|
  {
    hide Apply, WellFormed;
    if ops != [] {
      OpKeepsSize(t, ops[0]);
      TextKeepsSize(Apply(t, ops[0]), ops[1..]);
    }
  }

  lemma OpKeepsSize(t: Terminal, op: Op)
    requires WellFormed(t)
    ensures var t' := Apply(t, op); t'.rows == t.rows && t'.columns == t.columns && t'.limit == t.limit
  {
    hide PrintCodePoint, Control, Rendition, EraseScreen, EraseRow, BlankGrid;
    match op {
      case Print(c) => PrintFrame(t, c);
      case ExecuteControl(control) => ControlFrame(t, control);
      case _ =>
    }
  }
}
