/**
  The terminal: a grid of cells, a cursor, a bounded scrollback and the current style, updated in
  place by each operation. Every method states the new value by the functions of TerminalModel.
 */
module TerminalStateClass {
  import opened Types
  import opened Sequences
  import Model = TerminalModel

  class TerminalState {
    var rows: nat
    var columns: nat
    var scrollbackLimit: nat
    var screen: seq<Row>
    var scrollback: seq<Row>
    var cursor: Cursor
    var savedCursor: Cursor
    var activeStyle: CellStyle
    var modes: Modes
    var title: seq<Byte>
    var wrapPending: bool
    var isDamaged: bool

    /** Every operation received so far, in order. */
    ghost var log: seq<Op>

    ghost function Value(): Model.Terminal
      reads this
    {
      Model.Terminal(rows, columns, scrollbackLimit, screen, scrollback, cursor, savedCursor, activeStyle, modes,
                     title, wrapPending, isDamaged)
    }

    ghost predicate Valid()
      reads this
    {
      Model.WellFormed(Value())
    }

    /** The operation `op`, and nothing else, has been carried out on the old state. */
    twostate predicate Performed(new op: Op)
      reads this
    {
      && old(Valid())
      && Value() == Model.Apply(old(Value()), op)
      && Valid()
      && log == old(log) + [op]
    }

    constructor (requestedRows: nat, requestedColumns: nat, limit: nat)
      ensures Valid() && log == []
      ensures Value() == Model.Initial(requestedRows, requestedColumns, limit)
    {
      rows, columns := Model.Sanitized(requestedRows), Model.Sanitized(requestedColumns);
      scrollbackLimit := Min(limit, Model.MAXIMUM_SCROLLBACK_ROWS);
      screen := Model.BlankGrid(Model.Sanitized(requestedRows), Model.Sanitized(requestedColumns));
      scrollback, cursor, savedCursor := [], HOME, HOME;
      activeStyle, modes, title := DEFAULT_STYLE, DEFAULT_MODES, [];
      wrapPending, isDamaged := false, true;
      log := [];
    }

    // ---- Actions of the window ----

    method Resize(requestedRows: nat, requestedColumns: nat)
      requires Valid()
      modifies this
      ensures Value() == Model.Resized(old(Value()), requestedRows, requestedColumns)
      ensures Valid() && log == old(log)
    {
      hide Model.WellFormed, Model.Fit;
      var newRows, newColumns := Model.Sanitized(requestedRows), Model.Sanitized(requestedColumns);
      if newRows == rows && newColumns == columns {
        return;
      }
      screen := CopyScreen(newRows, newColumns);
      rows, columns := newRows, newColumns;
      EnsureCursorInBounds();
      wrapPending := false;
      isDamaged := true;
    }

    /** The copying loops of `resize`. */
    method CopyScreen(newRows: nat, newColumns: nat) returns (resized: seq<Row>)
      requires Valid()
      ensures resized == Model.Fit(screen, newRows, newColumns)
    {
      resized := Model.BlankGrid(newRows, newColumns);
      var rowsToCopy, columnsToCopy := Min(rows, newRows), Min(columns, newColumns);
      for row := 0 to rowsToCopy
        invariant |resized| == newRows
        invariant forall r :: 0 <= r < row ==> resized[r] == Model.FitRow(screen[r], newColumns)
        invariant forall r :: row <= r < newRows ==> resized[r] == Model.BlankRow(newColumns)
      {
        assert Model.GoodRow(screen[row], columns);
        for column := 0 to columnsToCopy
          invariant |resized| == newRows && |resized[row]| == newColumns
          invariant forall r :: 0 <= r < row ==> resized[r] == Model.FitRow(screen[r], newColumns)
          invariant forall r :: row < r < newRows ==> resized[r] == Model.BlankRow(newColumns)
          invariant forall c :: 0 <= c < newColumns ==>
            resized[row][c] == if c < column then screen[row][c] else BLANK_CELL
        {
          resized := resized[row := resized[row][column := screen[row][column]]];
        }
        assert resized[row] == Model.FitRow(screen[row], newColumns);
      }
    }

    method SetScrollbackLimit(requestedLimit: nat)
      requires Valid()
      modifies this
      ensures Value() == Model.LimitScrollback(old(Value()), requestedLimit)
      ensures Valid() && log == old(log)
    {
      scrollbackLimit := Min(requestedLimit, Model.MAXIMUM_SCROLLBACK_ROWS);
      TrimScrollback();
    }

    /** Drops the oldest rows until the limit holds. */
    method TrimScrollback()
      modifies this`scrollback
      ensures scrollback == KeepLast(old(scrollback), scrollbackLimit)
    {
      while |scrollback| > scrollbackLimit
        invariant |scrollback| <= |old(scrollback)|
        invariant |scrollback| >= Min(|old(scrollback)|, scrollbackLimit)
        invariant scrollback == old(scrollback)[|old(scrollback)| - |scrollback|..]
      {
        scrollback := scrollback[1..];
      }
    }

    method ClearDamage()
      modifies this
      ensures Value() == Model.ClearDamage(old(Value())) && log == old(log)
    {
      isDamaged := false;
    }

    // ---- Operations ----

    method Print(codepoint: CodePoint)
      requires Valid()
      modifies this
      ensures Performed(Op.Print(codepoint))
    {
      log := log + [Op.Print(codepoint)];
      if Model.IsCombining(codepoint) {
        AppendCombiningMark(codepoint);
        return;
      }
      PutPrintable(codepoint);
    }

    method ExecuteControl(control: Byte)
      requires Valid()
      modifies this
      ensures Performed(Op.ExecuteControl(control))
    {
      log := log + [Op.ExecuteControl(control)];
      match control {
        case 0x08 => Backspace();
        case 0x09 => Tab();
        case 0x0A => LineFeed();
        case 0x0B => LineFeed();
        case 0x0C => LineFeed();
        case 0x0D => CarriageReturn();
        case _ =>
      }
    }

    method CursorUp(count: nat)
      requires Valid()
      modifies this
      ensures Performed(Op.CursorUp(count))
    {
      log := log + [Op.CursorUp(count)];
      cursor := cursor.(row := if cursor.row > count then cursor.row - count else 0);
      wrapPending, isDamaged := false, true;
    }

    method CursorDown(count: nat)
      requires Valid()
      modifies this
      ensures Performed(Op.CursorDown(count))
    {
      log := log + [Op.CursorDown(count)];
      cursor := cursor.(row := Min(SizeSum(cursor.row, count), rows - 1));
      wrapPending, isDamaged := false, true;
    }

    method CursorForward(count: nat)
      requires Valid()
      modifies this
      ensures Performed(Op.CursorForward(count))
    {
      log := log + [Op.CursorForward(count)];
      cursor := cursor.(column := Min(SizeSum(cursor.column, count), columns - 1));
      wrapPending, isDamaged := false, true;
    }

    method CursorBack(count: nat)
      requires Valid()
      modifies this
      ensures Performed(Op.CursorBack(count))
    {
      log := log + [Op.CursorBack(count)];
      cursor := cursor.(column := if cursor.column > count then cursor.column - count else 0);
      wrapPending, isDamaged := false, true;
    }

    method CursorPosition(row: nat, column: nat)
      requires Valid()
      modifies this
      ensures Performed(Op.CursorPosition(row, column))
    {
      log := log + [Op.CursorPosition(row, column)];
      cursor := cursor.(row := Min(row, rows - 1));
      cursor := cursor.(column := Min(column, columns - 1));
      wrapPending, isDamaged := false, true;
    }

    method EraseInDisplay(mode: nat)
      requires Valid()
      modifies this
      ensures Performed(Op.EraseInDisplay(mode))
    {
      assert Model.GoodScreen(screen, rows, columns) && Model.InGrid(cursor, rows, columns);
      hide Model.WellFormed, Model.GoodScreen, Model.EraseScreen;
      log := log + [Op.EraseInDisplay(mode)];
      match mode {
        case 0 => EraseBelow();
        case 1 => EraseAbove();
        case 2 => EraseAll();
        case 3 => scrollback := [];
        case _ => return;
      }
      isDamaged := true;
    }

    method EraseBelow()
      requires Valid()
      modifies this`screen, this`isDamaged
      ensures screen == Model.EraseScreen(old(screen), 0, cursor) && isDamaged
    {
      EraseLineCells(0);
      EraseRows(cursor.row + 1, rows);
      Model.EraseScreenIs(old(screen), screen, 0, cursor, columns);
    }

    method EraseAbove()
      requires Model.GoodScreen(screen, rows, columns) && Model.InGrid(cursor, rows, columns)
      modifies this`screen
      ensures screen == Model.EraseScreen(old(screen), 1, cursor)
    {
      EraseRows(0, cursor.row);
      ClearRange(cursor.row, 0, cursor.column);
      Model.EraseScreenIs(old(screen), screen, 1, cursor, columns);
    }

    method EraseAll()
      requires Model.GoodScreen(screen, rows, columns)
      modifies this`screen
      ensures screen == Model.EraseScreen(old(screen), 2, cursor)
    {
      EraseRows(0, rows);
      Model.EraseScreenIs(old(screen), screen, 2, cursor, columns);
    }

    /** A loop over whole rows. */
    method EraseRows(first: nat, end: nat)
      requires |screen| == rows && first <= end <= rows && Model.Rectangular(screen, columns)
      modifies this`screen
      ensures |screen| == rows && Model.Rectangular(screen, columns)
      ensures forall r, c :: 0 <= r < rows && 0 <= c < columns ==>
        screen[r][c] == if first <= r < end then BLANK_CELL else old(screen)[r][c]
    {
      for row := first to end
        invariant |screen| == rows && Model.Rectangular(screen, columns)
        invariant forall r, c :: 0 <= r < rows && 0 <= c < columns ==>
          screen[r][c] == if first <= r < row then BLANK_CELL else old(screen)[r][c]
      {
        ClearRange(row, 0, columns - 1);
      }
    }

    method EraseInLine(mode: nat)
      requires Valid()
      modifies this
      ensures Performed(Op.EraseInLine(mode))
    {
      log := log + [Op.EraseInLine(mode)];
      EraseLineCells(mode);
    }

    method EraseLineCells(mode: nat)
      requires Valid()
      modifies this`screen, this`isDamaged
      ensures Valid() && Value() == Model.EraseLine(old(Value()), mode)
    {
      match mode {
        case 0 => ClearRange(cursor.row, cursor.column, columns - 1);
        case 1 => ClearRange(cursor.row, 0, cursor.column);
        case 2 => ClearRange(cursor.row, 0, columns - 1);
        case _ => return;
      }
      assert screen[cursor.row] == Model.EraseRow(old(screen)[cursor.row], mode, cursor, cursor.row);
      isDamaged := true;
    }

    method SetGraphicsRendition(parameters: seq<int>)
      requires Valid()
      modifies this
      ensures Performed(Op.SetGraphicsRendition(parameters))
    {
      log := log + [Op.SetGraphicsRendition(parameters)];
      RunCommands(if parameters == [] then [0] else parameters);
      isDamaged := true;
    }

    /** The loop of `set_graphics_rendition`; a callee may advance the index. */
    method RunCommands(active: seq<int>)
      modifies this`activeStyle
      ensures activeStyle == Model.ApplyCommands(old(activeStyle), active)
    {
      var index := 0;
      while index < |active|
        invariant 0 <= index <= |active|
        invariant Model.ApplyCommands(activeStyle, active[index..]) == Model.ApplyCommands(old(activeStyle), active)
      {
        hide Model.ApplyParameter;
        ghost var rest := active[index..];
        ghost var style := activeStyle;
        var parameter := if active[index] < 0 then 0 else active[index];
        if parameter == 38 {
          index := ApplyExtendedColor(true, active, index);
        } else if parameter == 48 {
          index := ApplyExtendedColor(false, active, index);
        } else {
          ApplyPlainParameter(parameter);
        }
        index := index + 1;
        assert activeStyle == Model.ApplyCommand(style, rest);
        assert rest[Model.CommandLength(rest)..] == active[index..];
      }
    }

    /** The branches of `set_graphics_rendition` that look at one parameter only. */
    method ApplyPlainParameter(parameter: int)
      requires parameter != 38 && parameter != 48
      modifies this`activeStyle
      ensures activeStyle == Model.ApplyParameter(old(activeStyle), parameter)
    {
      if parameter == 0 {
        activeStyle := DEFAULT_STYLE;
      } else if parameter == 1 {
        SetAttribute(Bold, true);
      } else if parameter == 2 {
        SetAttribute(Dim, true);
      } else if parameter == 3 {
        SetAttribute(Italic, true);
      } else if parameter == 4 {
        SetAttribute(Underline, true);
      } else if parameter == 7 {
        SetAttribute(Inverse, true);
      } else if parameter == 9 {
        SetAttribute(Strikethrough, true);
      } else if parameter == 22 {
        SetAttribute(Bold, false);
        SetAttribute(Dim, false);
      } else if parameter == 23 {
        SetAttribute(Italic, false);
      } else if parameter == 24 {
        SetAttribute(Underline, false);
      } else if parameter == 27 {
        SetAttribute(Inverse, false);
      } else if parameter == 29 {
        SetAttribute(Strikethrough, false);
      } else if 30 <= parameter <= 37 {
        activeStyle := activeStyle.(foreground := IndexedColor(parameter - 30));
      } else if parameter == 39 {
        activeStyle := activeStyle.(foreground := DEFAULT_COLOR);
      } else if 40 <= parameter <= 47 {
        activeStyle := activeStyle.(background := IndexedColor(parameter - 40));
      } else if parameter == 49 {
        activeStyle := activeStyle.(background := DEFAULT_COLOR);
      } else if 90 <= parameter <= 97 {
        activeStyle := activeStyle.(foreground := IndexedColor(parameter - 90 + 8));
      } else if 100 <= parameter <= 107 {
        activeStyle := activeStyle.(background := IndexedColor(parameter - 100 + 8));
      }
    }

    method SetTitle(newTitle: seq<Byte>)
      requires Valid()
      modifies this
      ensures Performed(Op.SetTitle(newTitle))
    {
      log := log + [Op.SetTitle(newTitle)];
      title := newTitle[..Min(|newTitle|, Model.MAXIMUM_TITLE_BYTES)];
    }

    method SetPrivateMode(parameters: seq<int>, enabled: bool)
      requires Valid()
      modifies this
      ensures Performed(Op.SetPrivateMode(parameters, enabled))
    {
      log := log + [Op.SetPrivateMode(parameters, enabled)];
      UpdateModes(parameters, enabled);
      isDamaged := true;
    }

    /** The loop over the parameters. */
    method UpdateModes(parameters: seq<int>, enabled: bool)
      modifies this`cursor, this`modes
      ensures cursor == old(cursor).(visible := if 25 in parameters then enabled else old(cursor).visible)
      ensures modes == old(modes).(bracketedPaste :=
                if 2004 in parameters then enabled else old(modes).bracketedPaste)
    {
      for i := 0 to |parameters|
        invariant cursor == old(cursor).(visible := if 25 in parameters[..i] then enabled else old(cursor).visible)
        invariant modes == old(modes).(bracketedPaste :=
                    if 2004 in parameters[..i] then enabled else old(modes).bracketedPaste)
      {
        assert parameters[..i + 1] == parameters[..i] + [parameters[i]];
        if parameters[i] == 25 {
          cursor := cursor.(visible := enabled);
        } else if parameters[i] == 2004 {
          modes := modes.(bracketedPaste := enabled);
        }
      }
      assert parameters[..|parameters|] == parameters;
    }

    method SaveCursor()
      requires Valid()
      modifies this
      ensures Performed(Op.SaveCursor)
    {
      log := log + [Op.SaveCursor];
      savedCursor := cursor;
    }

    method RestoreCursor()
      requires Valid()
      modifies this
      ensures Performed(Op.RestoreCursor)
    {
      log := log + [Op.RestoreCursor];
      cursor := savedCursor;
      EnsureCursorInBounds();
      wrapPending, isDamaged := false, true;
    }

    /** The `reset` of the source. */
    method ResetState()
      requires Valid()
      modifies this
      ensures Performed(Op.Reset)
    {
      assert |screen| == rows;
      hide Model.WellFormed;
      log := log + [Op.Reset];
      cursor, savedCursor := HOME, HOME;
      activeStyle, modes := DEFAULT_STYLE, DEFAULT_MODES;
      wrapPending := false;
      BlankRows();
      isDamaged := true;
    }

    /** The loop over the rows. */
    method BlankRows()
      requires |screen| == rows
      modifies this`screen
      ensures screen == Model.BlankGrid(rows, columns)
    {
      for row := 0 to |screen|
        invariant |screen| == rows
        invariant forall r :: 0 <= r < row ==> screen[r] == Model.BlankRow(columns)
      {
        screen := screen[row := Model.BlankRow(columns)];
      }
    }

    // ---- Private members ----

    method LineFeed()
      requires Valid()
      modifies this
      ensures Value() == Model.LineFeed(old(Value())) && Valid() && log == old(log)
    {
      assert cursor.row < rows == |screen| && columns > 0;
      hide Model.WellFormed, Model.BlankRow;
      if cursor.row + 1 < rows {
        cursor := cursor.(row := cursor.row + 1);
      } else {
        ScrollUp();
      }
      wrapPending, isDamaged := false, true;
    }

    /** The top row moves to the scrollback, if that has any room at all, and a blank row comes in below. */
    method ScrollUp()
      requires screen != []
      modifies this`scrollback, this`screen
      ensures screen == old(screen)[1..] + [Model.BlankRow(columns)]
      ensures scrollback == if scrollbackLimit > 0 then KeepLast(old(scrollback) + [old(screen)[0]], scrollbackLimit)
                            else old(scrollback)
    {
      if scrollbackLimit > 0 {
        scrollback := scrollback + [screen[0]];
        TrimScrollback();
      }
      screen := screen[1..];
      screen := screen + [Model.BlankRow(columns)];
    }

    method CarriageReturn()
      requires Valid()
      modifies this
      ensures Value() == Model.CarriageReturn(old(Value())) && Valid() && log == old(log)
    {
      cursor := cursor.(column := 0);
      wrapPending, isDamaged := false, true;
    }

    method Backspace()
      requires Valid()
      modifies this
      ensures Value() == Model.Backspace(old(Value())) && Valid() && log == old(log)
    {
      if cursor.column > 0 {
        cursor := cursor.(column := cursor.column - 1);
      }
      wrapPending, isDamaged := false, true;
    }

    method Tab()
      requires Valid()
      modifies this
      ensures Value() == Model.Tab(old(Value())) && Valid() && log == old(log)
    {
      var nextStop := (cursor.column / 8 + 1) * 8 % SIZE_MODULUS;
      cursor := cursor.(column := Min(nextStop, columns - 1));
      wrapPending, isDamaged := false, true;
    }

    method EnsureCursorInBounds()
      requires rows > 0 && columns > 0
      modifies this`cursor, this`savedCursor
      ensures cursor == Model.ClampCursor(old(cursor), rows, columns)
      ensures savedCursor == Model.ClampCursor(old(savedCursor), rows, columns)
    {
      cursor := cursor.(row := Min(cursor.row, rows - 1));
      cursor := cursor.(column := Min(cursor.column, columns - 1));
      savedCursor := savedCursor.(row := Min(savedCursor.row, rows - 1));
      savedCursor := savedCursor.(column := Min(savedCursor.column, columns - 1));
    }

    method ClearRange(row: nat, requestedStart: nat, requestedEnd: nat)
      requires row < |screen| && |screen[row]| > 0
      modifies this`screen
      ensures |screen| == |old(screen)| && |screen[row]| == |old(screen)[row]|
      ensures forall r :: 0 <= r < |screen| && r != row ==> screen[r] == old(screen)[r]
      ensures forall c :: 0 <= c < |screen[row]| ==>
        screen[row][c] ==
        if Min(requestedStart, |screen[row]| - 1) <= c <= requestedEnd then BLANK_CELL else old(screen)[row][c]
    {
      var start, end := Min(requestedStart, |screen[row]| - 1), Min(requestedEnd, |screen[row]| - 1);
      var column := start;
      while column <= end
        invariant start <= column
        invariant |screen| == |old(screen)| && |screen[row]| == |old(screen)[row]|
        invariant forall r :: 0 <= r < |screen| && r != row ==> screen[r] == old(screen)[r]
        invariant forall c :: 0 <= c < |screen[row]| ==>
          screen[row][c] == if start <= c < column && c <= end then BLANK_CELL else old(screen)[row][c]
        decreases end + 1 - column
      {
        screen := screen[row := screen[row][column := BLANK_CELL]];
        column := column + 1;
      }
    }

    method AppendCombiningMark(codepoint: CodePoint)
      requires Valid()
      modifies this
      ensures Value() == Model.AppendCombiningMark(old(Value()), codepoint) && Valid() && log == old(log)
    {
      if cursor.column == 0 && cursor.row == 0 {
        PutPrintable(REPLACEMENT_CHARACTER);
        return;
      }
      var row: nat, column: nat := cursor.row, cursor.column;
      if column == 0 {
        row := row - 1;
        column := columns;
      }
      column := column - 1;
      assert Model.GoodRow(screen[row], columns);
      ghost var lead := Model.ScanBack(screen[row], column);
      while column > 0 && screen[row][column].width == Continuation
        invariant column < columns && Model.ScanBack(screen[row], column) == lead
      {
        column := column - 1;
      }
      var cell := screen[row][column];
      screen := screen[row := screen[row][column := cell.(text := cell.text + [codepoint])]];
      isDamaged := true;
    }

    method PutPrintable(codepoint: CodePoint)
      requires Valid()
      modifies this
      ensures Value() == Model.PutPrintable(old(Value()), codepoint) && Valid() && log == old(log)
    {
      if wrapPending && modes.autoWrap {
        LineFeed();
        CarriageReturn();
      }
      var width := Model.WidthOf(codepoint);
      if width == Wide && columns < 2 {
        width := Normal;
      }
      if width == Wide && cursor.column + 1 >= columns {
        LineFeed();
        CarriageReturn();
      }
      assert Value() == Model.MakeRoom(old(Value()), codepoint);
      WriteGlyph(codepoint, width);
    }

    /** The second half of `put_printable`: the character has room at the cursor. */
    method WriteGlyph(codepoint: CodePoint, width: CellWidth)
      requires Valid() && width == Model.EffectiveWidth(codepoint, columns)
      requires cursor.column + |Model.GlyphCells(codepoint, activeStyle, columns)| <= columns
      modifies this
      ensures Value() == Model.PlaceGlyph(old(Value()), codepoint) && Valid() && log == old(log)
    {
      var cells := if width == Wide then 2 else 1;
      assert cursor.row < |screen| && Model.GoodRow(screen[cursor.row], columns);
      ghost var glyph := Model.GlyphCells(codepoint, activeStyle, columns);
      assert |glyph| == cells;
      hide Model.WellFormed, Model.Overwrite, Model.ShiftRight, Model.GlyphCells, Model.EffectiveWidth;
      if modes.insert {
        ShiftCells(cells);
      }
      ghost var shifted := screen[cursor.row];
      WriteCells(codepoint, width);
      assert screen == old(screen)[cursor.row := Model.Overwrite(shifted, cursor.column, glyph)];
      Advance(cells);
    }

    method Advance(cells: nat)
      requires columns > 0
      modifies this`cursor, this`wrapPending, this`isDamaged
      ensures cursor == old(cursor).(column := Min(old(cursor).column + cells, columns - 1))
      ensures wrapPending == (old(cursor).column + cells >= columns) && isDamaged
    {
      var nextColumn := cursor.column + cells;
      if nextColumn >= columns {
        cursor := cursor.(column := columns - 1);
        wrapPending := true;
      } else {
        cursor := cursor.(column := nextColumn);
        wrapPending := false;
      }
      isDamaged := true;
    }

    method WriteCells(codepoint: CodePoint, width: CellWidth)
      requires cursor.row < |screen| && width == Model.EffectiveWidth(codepoint, columns)
      requires cursor.column + |Model.GlyphCells(codepoint, activeStyle, columns)| <= |screen[cursor.row]|
      modifies this`screen
      ensures screen == old(screen)[cursor.row :=
          Model.Overwrite(old(screen)[cursor.row], cursor.column, Model.GlyphCells(codepoint, activeStyle, columns))]
    {
      var row := screen[cursor.row];
      row := row[cursor.column := Cell([codepoint], activeStyle, width)];
      if width == Wide {
        row := row[cursor.column + 1 := Cell([], activeStyle, Continuation)];
      }
      assert row == Model.Overwrite(screen[cursor.row], cursor.column, Model.GlyphCells(codepoint, activeStyle, columns));
      screen := screen[cursor.row := row];
    }

    /** The insert-mode loop, from the right edge down. */
    method ShiftCells(cells: nat)
      requires cursor.row < |screen| && |screen[cursor.row]| == columns > 0 && 1 <= cells
      modifies this`screen
      ensures screen == old(screen)[cursor.row := Model.ShiftRight(old(screen)[cursor.row], cursor.column, cells)]
    {
      ghost var before, edge := screen[cursor.row], cursor.column + cells;
      ghost var target := Model.ShiftRight(before, cursor.column, cells);
      assert forall c :: 0 <= c < columns ==> target[c] == if edge <= c then before[c - cells] else before[c];
      hide Model.ShiftRight;
      var row := screen[cursor.row];
      var column := columns - 1;
      while column >= cursor.column + cells
        invariant column < columns == |row|
        invariant edge < columns ==> edge <= column
        invariant forall c :: 0 <= c < columns && (c <= column || c < edge) ==> row[c] == before[c]
        invariant forall c :: edge <= c < columns && column < c ==> row[c] == target[c]
      {
        row := row[column := row[column - cells]];
        if column == cursor.column + cells {
          break;
        }
        column := column - 1;
      }
      assert row == target;
      screen := screen[cursor.row := row];
    }

    method SetAttribute(attribute: CellAttribute, enabled: bool)
      modifies this`activeStyle
      ensures activeStyle == Model.WithAttribute(old(activeStyle), attribute, enabled)
    {
      var mask := AttributeMask(attribute);
      if enabled {
        activeStyle := activeStyle.(attributes := activeStyle.attributes | mask);
      } else {
        activeStyle := activeStyle.(attributes := activeStyle.attributes & !mask);
      }
    }

    /** Returns the index of the last parameter used. */
    method ApplyExtendedColor(foreground: bool, parameters: seq<int>, index: nat) returns (last: nat)
      requires index < |parameters| && parameters[index] == (if foreground then 38 else 48)
      modifies this`activeStyle
      ensures last == index + Model.CommandLength(parameters[index..]) - 1
      ensures activeStyle == Model.ApplyCommand(old(activeStyle), parameters[index..])
    {
      last := index;
      if last + 1 >= |parameters| {
        return;
      }
      last := last + 1;
      var mode := parameters[last];
      var color, valid := DEFAULT_COLOR, false;
      if mode == 5 && last + 1 < |parameters| {
        last := last + 1;
        color := IndexedColor(Model.ColorComponent(parameters[last]));
        valid := true;
      } else if mode == 2 && last + 3 < |parameters| {
        var red := Model.ColorComponent(parameters[last + 1]);
        var green := Model.ColorComponent(parameters[last + 2]);
        var blue := Model.ColorComponent(parameters[last + 3]);
        last := last + 3;
        color := TrueColor(red, green, blue);
        valid := true;
      }
      if valid {
        if foreground {
          activeStyle := activeStyle.(foreground := color);
        } else {
          activeStyle := activeStyle.(background := color);
        }
      }
    }
  }
}
