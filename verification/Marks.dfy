/** Which cell a combining mark joins. */
module Marks {
  import opened Types
  import opened Sequences
  import opened TerminalModel

  /** In every well-formed terminal the backward scan finds a cell that can carry a mark. */
  lemma TargetIsLead(t: Terminal)
    requires WellFormed(t) && !(t.cursor.row == 0 && t.cursor.column == 0)
    ensures var at := MarkTarget(t);
            |t.screen| == t.rows && |t.screen[at.0]| == t.columns && t.screen[at.0][at.1].width != Continuation
  {
    var at := MarkTarget(t);
    assert GoodRow(t.screen[at.0], t.columns);
    ScanBackStops(t.screen[at.0], if t.cursor.column == 0 then t.columns - 1 else t.cursor.column - 1);
  }

  lemma {:induction false} ScanBackStops(row: Row, column: nat)
    requires column < |row| && row[0].width != Continuation
    ensures row[ScanBack(row, column)].width != Continuation
    decreases column
  {
    if column > 0 && row[column].width == Continuation {
      ScanBackStops(row, column - 1);
    }
  }

  /** The terminal with other text in one cell. */
  function WithText(t: Terminal, row: nat, column: nat, text: seq<CodePoint>): Terminal
    requires row < |t.screen| && column < |t.screen[row]|
  {
    t.(screen := t.screen[row := t.screen[row][column := t.screen[row][column].(text := text)]], damaged := true)
  }

  lemma SameText(t: Terminal, row: nat, column: nat)
    requires t.damaged && row < |t.screen| && column < |t.screen[row]|
    ensures WithText(t, row, column, t.screen[row][column].text) == t
  {
    assert t.screen[row] == t.screen[row][column := t.screen[row][column]];
  }

  lemma TextTwice(t: Terminal, row: nat, column: nat, first: seq<CodePoint>, second: seq<CodePoint>)
    requires row < |t.screen| && column < |t.screen[row]|
    ensures WithText(WithText(t, row, column, first), row, column, second) == WithText(t, row, column, second)
  {
    var r := t.screen[row];
    assert r[column := r[column].(text := first)][column := r[column].(text := second)]
        == r[column := r[column].(text := second)];
  }

  lemma {:induction false} ScanBackSameWidths(row: Row, row': Row, column: nat)
    requires column < |row| == |row'| && forall c :: 0 <= c < |row| ==> row[c].width == row'[c].width
    ensures ScanBack(row, column) == ScanBack(row', column)
    decreases column
  {
    if column > 0 && row[column].width == Continuation {
      ScanBackSameWidths(row, row', column - 1);
    }
  }

  /** One mark: the text of the target cell grows, and the target stays the same. */
  lemma OneMark(t: Terminal, mark: CodePoint)
    requires WellFormed(t) && !(t.cursor.row == 0 && t.cursor.column == 0) && IsCombining(mark)
    ensures var at := MarkTarget(t);
            && |t.screen[at.0]| == t.columns
            && PrintCodePoint(t, mark) == WithText(t, at.0, at.1, t.screen[at.0][at.1].text + [mark])
            && MarkTarget(PrintCodePoint(t, mark)) == at
  {
    hide ScanBack;
    TargetIsLead(t);
    var at, t' := MarkTarget(t), PrintCodePoint(t, mark);
    ScanBackSameWidths(t.screen[at.0], t'.screen[at.0],
                       if t.cursor.column == 0 then t.columns - 1 else t.cursor.column - 1);
  }

  lemma {:induction false} MarksJoinTarget(t: Terminal, marks: seq<CodePoint>)
    requires WellFormed(t) && t.damaged && !(t.cursor.row == 0 && t.cursor.column == 0)
    requires forall i :: 0 <= i < |marks| ==> IsCombining(marks[i])
    ensures var at := MarkTarget(t);
            && |t.screen[at.0]| == t.columns
            && ApplyAll(t, Prints(marks)) == WithText(t, at.0, at.1, t.screen[at.0][at.1].text + marks)
    decreases |marks|
  {
    hide PrintCodePoint, MarkTarget, IsCombining, WellFormed;
    TargetIsLead(t);
    var at := MarkTarget(t);
    var text := t.screen[at.0][at.1].text;
    if marks == [] {
      assert text + [] == text;
      SameText(t, at.0, at.1);
    } else {
      var next := PrintCodePoint(t, marks[0]);
      OneMark(t, marks[0]);
      MarksJoinTarget(next, marks[1..]);
      TextTwice(t, at.0, at.1, text + [marks[0]], text + marks);
      HeadAndTail(text, marks);
      PrintsFirst(marks);
      assert Prints(marks)[1..] == Prints(marks[1..]);
    }
  }

  // ---- The character just printed ----

  /** Where the character goes, and what the terminal looks like there afterwards. */
  lemma GlyphPlaced(t: Terminal, c: CodePoint)
    requires WellFormed(t)
    ensures var room, t' := MakeRoom(t, c), PutPrintable(t, c);
            var row, column := room.cursor.row, room.cursor.column;
            var wide := EffectiveWidth(c, t.columns) == Wide;
            var next := column + if wide then 2 else 1;
            && t'.rows == t.rows && t'.columns == t.columns && row < t.rows && next <= t.columns && t'.damaged
            && |t'.screen[row]| == t.columns
            && t'.screen[row][column] == Cell([c], t.style, EffectiveWidth(c, t.columns))
            && (wide ==> t'.screen[row][column + 1].width == Continuation)
            && t'.cursor.row == row && t'.cursor.column == Min(next, t.columns - 1)
            && t'.wrapPending == (next == t.columns)
  {
    hide NewRow, EffectiveWidth, ShiftRight;
    NewRowFrame(t);
    if t.wrapPending && t.modes.autoWrap {
      NewRowFrame(NewRow(t));
    }
    var room, t' := MakeRoom(t, c), PutPrintable(t, c);
    assert room.columns == t.columns && room.style == t.style && room.rows == t.rows;
    assert GoodRow(room.screen[room.cursor.row], room.columns);
    assert GoodRow(t'.screen[room.cursor.row], t.columns);
  }

  /** A mark that follows reaches the character: a narrow one that goes to the last column is out of reach. */
  predicate InReach(t: Terminal, c: CodePoint) {
    || EffectiveWidth(c, t.columns) == Wide
    || (if t.wrapPending && t.modes.autoWrap then t.columns > 1 else t.cursor.column + 1 < t.columns)
  }

  lemma InReachUnlessPending(t: Terminal, c: CodePoint)
    requires WellFormed(t)
    ensures InReach(t, c) <==> EffectiveWidth(c, t.columns) == Wide || !PutPrintable(t, c).wrapPending
  {
    hide PutPrintable, EffectiveWidth, NewRow;
    GlyphPlaced(t, c);
    NewRowFrame(t);
  }

  lemma TargetIfInReach(t: Terminal, c: CodePoint)
    requires WellFormed(t) && InReach(t, c)
    ensures var t', room := PutPrintable(t, c), MakeRoom(t, c);
            && t'.cursor.column > 0
            && MarkTarget(t') == (room.cursor.row, room.cursor.column)
  {
    hide PutPrintable, EffectiveWidth, MakeRoom, InReach;
    GlyphPlaced(t, c);
    InReachUnlessPending(t, c);
    var t', column := PutPrintable(t, c), MakeRoom(t, c).cursor.column;
    var row := t'.screen[t'.cursor.row];
    assert ScanBack(row, column) == column;
    if EffectiveWidth(c, t.columns) == Wide && !t'.wrapPending {
      assert ScanBack(row, column + 1) == ScanBack(row, column);
    }
  }

  /**
    Marks printed right behind a character in reach all join it, in order, and nothing else in the
    terminal changes: no other cell, no field of the cursor, no pending wrap.
   */
  lemma MarksJoinCharacter(t: Terminal, c: CodePoint, marks: seq<CodePoint>)
    requires WellFormed(t) && !IsCombining(c) && InReach(t, c)
    requires forall i :: 0 <= i < |marks| ==> IsCombining(marks[i])
    ensures var t', room := PrintCodePoint(t, c), MakeRoom(t, c);
            && room.cursor.row < |t'.screen| && room.cursor.column < |t'.screen[room.cursor.row]|
            && ApplyAll(t', Prints(marks)) == WithText(t', room.cursor.row, room.cursor.column, [c] + marks)
  {
    hide PutPrintable, EffectiveWidth, MakeRoom, ApplyAll, MarkTarget, IsCombining, InReach;
    GlyphPlaced(t, c);
    TargetIfInReach(t, c);
    MarksJoinTarget(PutPrintable(t, c), marks);
  }

  /** And only then: behind a narrow character in the last column, the mark goes elsewhere. */
  lemma MarkJoinsExactlyIfInReach(t: Terminal, c: CodePoint, mark: CodePoint)
    requires WellFormed(t) && !IsCombining(c) && IsCombining(mark)
    ensures var room, marked := MakeRoom(t, c), PrintCodePoint(PrintCodePoint(t, c), mark);
            && room.cursor.row < |marked.screen| && room.cursor.column < |marked.screen[room.cursor.row]|
            && (marked.screen[room.cursor.row][room.cursor.column].text == [c, mark] <==> InReach(t, c))
  {
    hide PutPrintable, EffectiveWidth, MakeRoom, MarkTarget, IsCombining, InReach;
    GlyphPlaced(t, c);
    var t', room := PutPrintable(t, c), MakeRoom(t, c);
    var marked := PrintCodePoint(t', mark);
    PrintFrame(t', mark);
    assert GoodRow(marked.screen[room.cursor.row], t.columns);
    if InReach(t, c) {
      TargetIfInReach(t, c);
      OneMark(t', mark);
      assert [c] + [mark] == [c, mark];
    } else {
      OutOfReach(t, c, mark);
    }
  }

  /** For one, on a row of two: the acute accent printed behind b joins the a before it. */
  lemma MarkMissesLastColumn()
    ensures var t := PrintCodePoint(Initial(1, 2, 0), 0x61);
            && !InReach(t, 0x62)
            && var row := PrintCodePoint(PrintCodePoint(t, 0x62), 0x301).screen[0];
               |row| == 2 && row[0].text == [0x61, 0x301] && row[1].text == [0x62]
  {
    hide PutPrintable, ScanBack;
    var t' := PrintCodePoint(PrintCodePoint(Initial(1, 2, 0), 0x61), 0x62);
    TwoLetters();
    OneMark(t', 0x301);
    assert ScanBack(t'.screen[0], 0) == 0;
    assert [0x61] + [0x301] == [0x61, 0x301];
  }

  lemma TwoLetters()
    ensures var t := PutPrintable(Initial(1, 2, 0), 0x61);
            var t' := PutPrintable(t, 0x62);
            && t.cursor == Cursor(0, 1, true) && !t.wrapPending && t.columns == 2
            && t'.cursor == Cursor(0, 1, true) && t'.columns == 2 && t'.rows == 1
            && t'.screen == [[Cell([0x61], DEFAULT_STYLE, Normal), Cell([0x62], DEFAULT_STYLE, Normal)]]
  {
    var t := PutPrintable(Initial(1, 2, 0), 0x61);
    assert t.screen[0] == [Cell([0x61], DEFAULT_STYLE, Normal), BLANK_CELL];
    var t' := PutPrintable(t, 0x62);
    assert t'.screen[0] == [Cell([0x61], DEFAULT_STYLE, Normal), Cell([0x62], DEFAULT_STYLE, Normal)];
  }

  lemma OutOfReach(t: Terminal, c: CodePoint, mark: CodePoint)
    requires WellFormed(t) && !IsCombining(c) && IsCombining(mark) && !InReach(t, c)
    ensures var room, marked := MakeRoom(t, c), PrintCodePoint(PutPrintable(t, c), mark);
            && room.cursor.row < |marked.screen| && room.cursor.column < |marked.screen[room.cursor.row]|
            && |marked.screen[room.cursor.row][room.cursor.column].text| == 1
  {
    hide PutPrintable, EffectiveWidth, MakeRoom, IsCombining, InReach;
    GlyphPlaced(t, c);
    InReachUnlessPending(t, c);
    var t', room := PutPrintable(t, c), MakeRoom(t, c);
    var at := (room.cursor.row, room.cursor.column);
    if t'.cursor.column == 0 && t'.cursor.row == 0 {
      ReplacementElsewhere(t');
    } else {
      OneMark(t', mark);
      assert MarkTarget(t') != at;
    }
  }

  /** On a one-column terminal, a mark behind the character at the origin becomes a replacement character. */
  lemma ReplacementElsewhere(t: Terminal)
    requires WellFormed(t) && t.cursor.row == 0 && t.cursor.column == 0 && t.wrapPending
    requires |t.screen[0][0].text| == 1
    ensures var t' := PutPrintable(t, REPLACEMENT_CHARACTER); |t'.screen[0]| == 1 && |t'.screen[0][0].text| == 1
  {
    GlyphPlaced(t, REPLACEMENT_CHARACTER);
    var t' := PutPrintable(t, REPLACEMENT_CHARACTER);
    assert GoodRow(t'.screen[0], 1) && GoodRow(t.screen[0], 1);
    if t.rows > 1 && t.modes.autoWrap {
      assert t'.screen[0] == t.screen[0];
    }
  }
}
