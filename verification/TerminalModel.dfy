/**
  The terminal as a value: one function for each operation, each keeping the grid well formed.
  The class in TerminalState.dfy is proved against these functions.
 */
module TerminalModel {
  import opened Types
  import opened Sequences

  const MAXIMUM_SCROLLBACK_ROWS: nat := 1_000_000
  const MAXIMUM_TITLE_BYTES: nat := 512

  datatype Terminal = Terminal(
    rows: nat,
    columns: nat,
    limit: nat,
    screen: seq<Row>,
    scrollback: seq<Row>,
    cursor: Cursor,
    saved: Cursor,
    style: CellStyle,
    modes: Modes,
    title: seq<Byte>,
    wrapPending: bool,
    damaged: bool)

  predicate InGrid(c: Cursor, rows: nat, columns: nat) {
    c.row < rows && c.column < columns
  }

  predicate GoodRow(row: Row, columns: nat) {
    |row| == columns > 0 && row[0].width != Continuation
  }

  predicate Rectangular(screen: seq<Row>, columns: nat) {
    columns > 0 && forall r :: 0 <= r < |screen| ==> |screen[r]| == columns
  }

  predicate GoodScreen(screen: seq<Row>, rows: nat, columns: nat) {
    |screen| == rows > 0 && Rectangular(screen, columns) && forall r :: 0 <= r < |screen| ==> GoodRow(screen[r], columns)
  }

  /** What every operation keeps. */
  predicate WellFormed(t: Terminal) {
    && GoodScreen(t.screen, t.rows, t.columns)
    && t.columns > 0
    && InGrid(t.cursor, t.rows, t.columns)
    && InGrid(t.saved, t.rows, t.columns)
    && (t.wrapPending ==> t.cursor.column == t.columns - 1)
    && |t.scrollback| <= t.limit <= MAXIMUM_SCROLLBACK_ROWS
    && |t.title| <= MAXIMUM_TITLE_BYTES
  }

  // ---- Construction and host actions ----

  function BlankRow(columns: nat): (row: Row)
    ensures columns > 0 ==> GoodRow(row, columns)
  {
    seq(columns, _ => BLANK_CELL)
  }

  function BlankGrid(rows: nat, columns: nat): seq<Row> {
    seq(rows, _ => BlankRow(columns))
  }

  /** A requested number of rows or columns; zero becomes one. */
  function Sanitized(side: nat): nat {
    if side == 0 then 1 else side
  }

  function Initial(rows: nat, columns: nat, limit: nat): (t: Terminal)
    ensures WellFormed(t)
  {
    var r, c := Sanitized(rows), Sanitized(columns);
    Terminal(r, c, Min(limit, MAXIMUM_SCROLLBACK_ROWS), BlankGrid(r, c), [], HOME, HOME,
             DEFAULT_STYLE, DEFAULT_MODES, [], false, true)
  }

  function FitRow(row: Row, columns: nat): Row {
    seq(columns, c => if 0 <= c < |row| then row[c] else BLANK_CELL)
  }

  /** The top left corner of a grid, padded with blanks. */
  function Fit(screen: seq<Row>, rows: nat, columns: nat): seq<Row> {
    seq(rows, r => if 0 <= r < |screen| then FitRow(screen[r], columns) else BlankRow(columns))
  }

  function ClampCursor(c: Cursor, rows: nat, columns: nat): Cursor
    requires rows > 0 && columns > 0
  {
    Cursor(Min(c.row, rows - 1), Min(c.column, columns - 1), c.visible)
  }

  lemma FitIsGood(screen: seq<Row>, oldColumns: nat, rows: nat, columns: nat)
    requires GoodScreen(screen, |screen|, oldColumns) && rows > 0 && columns > 0
    ensures GoodScreen(Fit(screen, rows, columns), rows, columns)
  {
    var fitted := Fit(screen, rows, columns);
    forall r | 0 <= r < |fitted|
      ensures GoodRow(fitted[r], columns)
    {
      if r < |screen| {
        assert GoodRow(screen[r], oldColumns);
        assert fitted[r] == FitRow(screen[r], columns);
      } else {
        assert fitted[r] == BlankRow(columns);
      }
    }
  }

  function Resized(t: Terminal, rows: nat, columns: nat): (t': Terminal)
    requires WellFormed(t)
    ensures WellFormed(t')
  {
    var r, c := Sanitized(rows), Sanitized(columns);
    if r == t.rows && c == t.columns then t
    else
      FitIsGood(t.screen, t.columns, r, c);
      t.(rows := r, columns := c, screen := Fit(t.screen, r, c),
         cursor := ClampCursor(t.cursor, r, c), saved := ClampCursor(t.saved, r, c),
         wrapPending := false, damaged := true)
  }

  function LimitScrollback(t: Terminal, limit: nat): (t': Terminal)
    requires WellFormed(t)
    ensures WellFormed(t')
  {
    var l := Min(limit, MAXIMUM_SCROLLBACK_ROWS);
    t.(limit := l, scrollback := KeepLast(t.scrollback, l))
  }

  function ClearDamage(t: Terminal): Terminal {
    t.(damaged := false)
  }

  // ---- Cursor movement ----

  /** Every move ends a pending wrap and marks damage. */
  function MoveTo(t: Terminal, row: nat, column: nat): (t': Terminal)
    requires WellFormed(t) && row < t.rows && column < t.columns
    ensures WellFormed(t')
  {
    t.(cursor := t.cursor.(row := row, column := column), wrapPending := false, damaged := true)
  }

  function LineFeed(t: Terminal): (t': Terminal)
    requires WellFormed(t)
    ensures WellFormed(t')
  {
    if t.cursor.row + 1 < t.rows then
      MoveTo(t, t.cursor.row + 1, t.cursor.column)
    else
      var kept := if t.limit > 0 then KeepLast(t.scrollback + [t.screen[0]], t.limit) else t.scrollback;
      t.(scrollback := kept, screen := t.screen[1..] + [BlankRow(t.columns)], wrapPending := false, damaged := true)
  }

  function CarriageReturn(t: Terminal): (t': Terminal)
    requires WellFormed(t)
    ensures WellFormed(t')
  {
    MoveTo(t, t.cursor.row, 0)
  }

  function NewRow(t: Terminal): (t': Terminal)
    requires WellFormed(t)
    ensures WellFormed(t')
  {
    CarriageReturn(LineFeed(t))
  }

  function Backspace(t: Terminal): (t': Terminal)
    requires WellFormed(t)
    ensures WellFormed(t')
  {
    MoveTo(t, t.cursor.row, if t.cursor.column > 0 then t.cursor.column - 1 else 0)
  }

  function Tab(t: Terminal): (t': Terminal)
    requires WellFormed(t)
    ensures WellFormed(t')
  {
    MoveTo(t, t.cursor.row, Min((t.cursor.column / 8 + 1) * 8 % SIZE_MODULUS, t.columns - 1))
  }

  function Control(t: Terminal, control: Byte): (t': Terminal)
    requires WellFormed(t)
    ensures WellFormed(t')
  {
    match control
    case 0x08 => Backspace(t)
    case 0x09 => Tab(t)
    case 0x0A => LineFeed(t)
    case 0x0B => LineFeed(t)
    case 0x0C => LineFeed(t)
    case 0x0D => CarriageReturn(t)
    case _ => t
  }

  // ---- Printing ----

  predicate IsCombining(c: CodePoint) {
    || 0x0300 <= c <= 0x036F
    || 0x1AB0 <= c <= 0x1AFF
    || 0x1DC0 <= c <= 0x1DFF
    || 0x20D0 <= c <= 0x20FF
    || 0xFE20 <= c <= 0xFE2F
  }

  function WidthOf(c: CodePoint): (width: CellWidth)
    ensures width != Continuation
  {
    if || 0x1100 <= c <= 0x115F
       || 0x2329 <= c <= 0x232A
       || 0x2E80 <= c <= 0xA4CF
       || 0xAC00 <= c <= 0xD7A3
       || 0xF900 <= c <= 0xFAFF
       || 0xFE10 <= c <= 0xFE19
       || 0xFE30 <= c <= 0xFE6F
       || 0xFF00 <= c <= 0xFF60
       || 0xFFE0 <= c <= 0xFFE6
       || 0x1F300 <= c <= 0x1FAFF
       || 0x20000 <= c <= 0x3FFFD
    then Wide
    else Normal
  }

  /** On a one-column terminal every character is narrow. */
  function EffectiveWidth(c: CodePoint, columns: nat): (width: CellWidth)
    ensures width != Continuation
  {
    if WidthOf(c) == Wide && columns < 2 then Normal else WidthOf(c)
  }

  /** The cells that one character fills. */
  function GlyphCells(c: CodePoint, style: CellStyle, columns: nat): (cells: seq<Cell>)
    ensures 1 <= |cells| <= 2 && cells[0].width != Continuation && (columns < 2 ==> |cells| == 1)
  {
    var width := EffectiveWidth(c, columns);
    [Cell([c], style, width)] + if width == Wide then [Cell([], style, Continuation)] else []
  }

  /** Insert mode: the cells from `column` on move right, the ones pushed over the edge are lost. */
  function ShiftRight(row: Row, column: nat, count: nat): (shifted: Row)
    ensures |shifted| == |row|
  {
    seq(|row|, c requires 0 <= c < |row| => if column + count <= c then row[c - count] else row[c])
  }

  function Overwrite(row: Row, column: nat, cells: seq<Cell>): (written: Row)
    requires column + |cells| <= |row|
    ensures |written| == |row|
  {
    row[..column] + cells + row[column + |cells|..]
  }

  /** Writes one character at the cursor, which has room for it, and advances. */
  function PlaceGlyph(t: Terminal, c: CodePoint): (t': Terminal)
    requires WellFormed(t) && t.cursor.column + |GlyphCells(c, t.style, t.columns)| <= t.columns
    ensures WellFormed(t')
  {
    var cells := GlyphCells(c, t.style, t.columns);
    var row := t.screen[t.cursor.row];
    assert GoodRow(row, t.columns);
    var shifted := if t.modes.insert then ShiftRight(row, t.cursor.column, |cells|) else row;
    var written := Overwrite(shifted, t.cursor.column, cells);
    var next := t.cursor.column + |cells|;
    t.(screen := t.screen[t.cursor.row := written],
       cursor := t.cursor.(column := Min(next, t.columns - 1)),
       wrapPending := next >= t.columns,
       damaged := true)
  }

  /** A pending wrap is carried out, and a wide character that does not fit starts a new row. */
  function MakeRoom(t: Terminal, c: CodePoint): (t': Terminal)
    requires WellFormed(t)
    ensures WellFormed(t') && t'.cursor.column + |GlyphCells(c, t'.style, t'.columns)| <= t'.columns
  {
    var t1 := if t.wrapPending && t.modes.autoWrap then NewRow(t) else t;
    if EffectiveWidth(c, t1.columns) == Wide && t1.cursor.column + 1 >= t1.columns then NewRow(t1) else t1
  }

  function PutPrintable(t: Terminal, c: CodePoint): (t': Terminal)
    requires WellFormed(t)
    ensures WellFormed(t')
  {
    PlaceGlyph(MakeRoom(t, c), c)
  }

  /** The cell at or before `column` that is not the right half of a wide character, if there is one. */
  function ScanBack(row: Row, column: nat): (lead: nat)
    requires column < |row|
    ensures lead <= column
  {
    if column > 0 && row[column].width == Continuation then ScanBack(row, column - 1) else column
  }

  /** The cell that a combining mark joins: left of the cursor, or at the end of the row above. */
  function MarkTarget(t: Terminal): (at: (nat, nat))
    requires WellFormed(t) && !(t.cursor.row == 0 && t.cursor.column == 0)
    ensures at.0 < t.rows && at.1 < t.columns
  {
    var row := if t.cursor.column == 0 then t.cursor.row - 1 else t.cursor.row;
    var column := if t.cursor.column == 0 then t.columns - 1 else t.cursor.column - 1;
    assert GoodRow(t.screen[row], t.columns);
    (row, ScanBack(t.screen[row], column))
  }

  function AddMark(row: Row, column: nat, mark: CodePoint): (row': Row)
    requires column < |row|
    ensures |row'| == |row|
  {
    row[column := row[column].(text := row[column].text + [mark])]
  }

  function AppendCombiningMark(t: Terminal, mark: CodePoint): (t': Terminal)
    requires WellFormed(t)
    ensures WellFormed(t')
  {
    if t.cursor.column == 0 && t.cursor.row == 0 then
      PutPrintable(t, REPLACEMENT_CHARACTER)
    else
      var at := MarkTarget(t);
      assert GoodRow(t.screen[at.0], t.columns);
      t.(screen := t.screen[at.0 := AddMark(t.screen[at.0], at.1, mark)], damaged := true)
  }

  function PrintCodePoint(t: Terminal, c: CodePoint): (t': Terminal)
    requires WellFormed(t)
    ensures WellFormed(t')
  {
    if IsCombining(c) then AppendCombiningMark(t, c) else PutPrintable(t, c)
  }

  /** The fields that placing a character at the cursor, with or without a new row, can change. */
  predicate OnlyPrinted(t: Terminal, t': Terminal) {
    t' == t.(screen := t'.screen, scrollback := t'.scrollback,
             cursor := t.cursor.(row := t'.cursor.row, column := t'.cursor.column),
             wrapPending := t'.wrapPending, damaged := true)
  }

  lemma NewRowFrame(t: Terminal)
    requires WellFormed(t)
    ensures OnlyPrinted(t, NewRow(t)) && NewRow(t).cursor.column == 0 && !NewRow(t).wrapPending
  {
    hide BlankRow, KeepLast;
  }

  lemma PutPrintableFrame(t: Terminal, c: CodePoint)
    requires WellFormed(t)
    ensures OnlyPrinted(t, PutPrintable(t, c))
  {
    hide Overwrite, ShiftRight, GlyphCells, NewRow, EffectiveWidth, WellFormed;
    NewRowFrame(t);
    if t.wrapPending && t.modes.autoWrap {
      NewRowFrame(NewRow(t));
    }
  }

  lemma PrintFrame(t: Terminal, c: CodePoint)
    requires WellFormed(t)
    ensures OnlyPrinted(t, PrintCodePoint(t, c))
  {
    hide PutPrintable, AddMark, MarkTarget, IsCombining;
    PutPrintableFrame(t, c);
    PutPrintableFrame(t, REPLACEMENT_CHARACTER);
  }

  /** A control either does nothing or changes what printing can change. */
  lemma ControlFrame(t: Terminal, control: Byte)
    requires WellFormed(t)
    ensures Control(t, control) == t || OnlyPrinted(t, Control(t, control))
  {
    hide BlankRow, KeepLast;
  }

  // ---- Erasing ----

  /** Whether erasing in the display with this mode, the cursor at `at`, blanks the cell at (r, c). */
  predicate ErasesCell(mode: nat, at: Cursor, r: int, c: int) {
    match mode
    case 0 => r > at.row || (r == at.row && c >= at.column)
    case 1 => r < at.row || (r == at.row && c <= at.column)
    case 2 => true
    case _ => false
  }

  function EraseRow(row: Row, mode: nat, at: Cursor, r: nat): (erased: Row)
    ensures |erased| == |row|
  {
    seq(|row|, c requires 0 <= c < |row| => if ErasesCell(mode, at, r, c) then BLANK_CELL else row[c])
  }

  function EraseScreen(screen: seq<Row>, mode: nat, at: Cursor): seq<Row> {
    seq(|screen|, r requires 0 <= r < |screen| => EraseRow(screen[r], mode, at, r))
  }

  lemma EraseScreenIs(before: seq<Row>, after: seq<Row>, mode: nat, at: Cursor, columns: nat)
    requires |after| == |before| && Rectangular(before, columns) && Rectangular(after, columns)
    requires forall r, c :: 0 <= r < |before| && 0 <= c < columns ==>
      after[r][c] == if ErasesCell(mode, at, r, c) then BLANK_CELL else before[r][c]
    ensures after == EraseScreen(before, mode, at)
  {
    forall r | 0 <= r < |before|
      ensures after[r] == EraseRow(before[r], mode, at, r)
    {
      assert forall c :: 0 <= c < columns ==> after[r][c] == EraseRow(before[r], mode, at, r)[c];
    }
  }

  function EraseDisplay(t: Terminal, mode: nat): (t': Terminal)
    requires WellFormed(t)
    ensures WellFormed(t')
  {
    if mode <= 2 then t.(screen := EraseScreen(t.screen, mode, t.cursor), damaged := true)
    else if mode == 3 then t.(scrollback := [], damaged := true)
    else t
  }

  function EraseLine(t: Terminal, mode: nat): (t': Terminal)
    requires WellFormed(t)
    ensures WellFormed(t')
  {
    if mode <= 2 then
      var r := t.cursor.row;
      var erased := EraseRow(t.screen[r], mode, t.cursor, r);
      assert GoodRow(t.screen[r], t.columns);
      t.(screen := t.screen[r := erased], damaged := true)
    else t
  }

  // ---- Styles ----

  function WithAttribute(s: CellStyle, a: CellAttribute, enabled: bool): CellStyle {
    if enabled then s.(attributes := s.attributes | AttributeMask(a))
    else s.(attributes := s.attributes & !AttributeMask(a))
  }

  function WithColor(s: CellStyle, foreground: bool, color: Color): CellStyle {
    if foreground then s.(foreground := color) else s.(background := color)
  }

  function ColorComponent(value: int): Byte {
    if value < 0 then 0 else if value > 255 then 255 else value
  }

  /** How many parameters the command at the front of the list takes. */
  function CommandLength(ps: seq<int>): (n: nat)
    requires ps != []
    ensures 1 <= n <= |ps|
  {
    if (ps[0] == 38 || ps[0] == 48) && |ps| >= 2 then
      if ps[1] == 5 && |ps| >= 3 then 3
      else if ps[1] == 2 && |ps| >= 5 then 5
      else 2
    else 1
  }

  /** The effect of the command at the front of the list. */
  function ApplyCommand(s: CellStyle, ps: seq<int>): CellStyle
    requires ps != []
  {
    var p := if ps[0] < 0 then 0 else ps[0];
    if p == 38 || p == 48 then
      var n := CommandLength(ps);
      if n == 3 then WithColor(s, p == 38, IndexedColor(ColorComponent(ps[2])))
      else if n == 5 then
        WithColor(s, p == 38, TrueColor(ColorComponent(ps[2]), ColorComponent(ps[3]), ColorComponent(ps[4])))
      else s
    else ApplyParameter(s, p)
  }

  /** A parameter that is a command by itself. */
  function ApplyParameter(s: CellStyle, p: int): CellStyle {
    if p == 0 then DEFAULT_STYLE
    else if p == 1 then WithAttribute(s, Bold, true)
    else if p == 2 then WithAttribute(s, Dim, true)
    else if p == 3 then WithAttribute(s, Italic, true)
    else if p == 4 then WithAttribute(s, Underline, true)
    else if p == 7 then WithAttribute(s, Inverse, true)
    else if p == 9 then WithAttribute(s, Strikethrough, true)
    else if p == 22 then WithAttribute(WithAttribute(s, Bold, false), Dim, false)
    else if p == 23 then WithAttribute(s, Italic, false)
    else if p == 24 then WithAttribute(s, Underline, false)
    else if p == 27 then WithAttribute(s, Inverse, false)
    else if p == 29 then WithAttribute(s, Strikethrough, false)
    else if 30 <= p <= 37 then WithColor(s, true, IndexedColor(p - 30))
    else if p == 39 then WithColor(s, true, DEFAULT_COLOR)
    else if 40 <= p <= 47 then WithColor(s, false, IndexedColor(p - 40))
    else if p == 49 then WithColor(s, false, DEFAULT_COLOR)
    else if 90 <= p <= 97 then WithColor(s, true, IndexedColor(p - 90 + 8))
    else if 100 <= p <= 107 then WithColor(s, false, IndexedColor(p - 100 + 8))
    else s
  }

  function ApplyCommands(s: CellStyle, ps: seq<int>): CellStyle
    decreases |ps|
  {
    if ps == [] then s else ApplyCommands(ApplyCommand(s, ps), ps[CommandLength(ps)..])
  }

  /** An empty list of parameters is the list [0]. */
  function Rendition(s: CellStyle, ps: seq<int>): CellStyle {
    ApplyCommands(s, if ps == [] then [0] else ps)
  }

  // ---- Title, modes, saved cursor ----

  function PrivateModes(t: Terminal, ps: seq<int>, enabled: bool): (t': Terminal)
    requires WellFormed(t)
    ensures WellFormed(t')
  {
    t.(cursor := t.cursor.(visible := if 25 in ps then enabled else t.cursor.visible),
       modes := t.modes.(bracketedPaste := if 2004 in ps then enabled else t.modes.bracketedPaste),
       damaged := true)
  }

  function Restore(t: Terminal): (t': Terminal)
    requires WellFormed(t)
    ensures WellFormed(t')
  {
    t.(cursor := ClampCursor(t.saved, t.rows, t.columns),
       saved := ClampCursor(t.saved, t.rows, t.columns),
       wrapPending := false, damaged := true)
  }

  function ResetAll(t: Terminal): (t': Terminal)
    requires WellFormed(t)
    ensures WellFormed(t')
  {
    t.(cursor := HOME, saved := HOME, style := DEFAULT_STYLE, modes := DEFAULT_MODES, wrapPending := false,
       screen := BlankGrid(t.rows, t.columns), damaged := true)
  }

  // ---- All operations ----

  function Apply(t: Terminal, op: Op): (t': Terminal)
    requires WellFormed(t)
    ensures WellFormed(t')
  {
    match op
    case Print(c) => PrintCodePoint(t, c)
    case ExecuteControl(control) => Control(t, control)
    case CursorUp(count) =>
      MoveTo(t, if t.cursor.row > count then t.cursor.row - count else 0, t.cursor.column)
    case CursorDown(count) =>
      MoveTo(t, Min(SizeSum(t.cursor.row, count), t.rows - 1), t.cursor.column)
    case CursorForward(count) =>
      MoveTo(t, t.cursor.row, Min(SizeSum(t.cursor.column, count), t.columns - 1))
    case CursorBack(count) =>
      MoveTo(t, t.cursor.row, if t.cursor.column > count then t.cursor.column - count else 0)
    case CursorPosition(row, column) => MoveTo(t, Min(row, t.rows - 1), Min(column, t.columns - 1))
    case EraseInDisplay(mode) => EraseDisplay(t, mode)
    case EraseInLine(mode) => EraseLine(t, mode)
    case SetGraphicsRendition(ps) => t.(style := Rendition(t.style, ps), damaged := true)
    case SetTitle(title) => t.(title := title[..Min(|title|, MAXIMUM_TITLE_BYTES)])
    case SetPrivateMode(ps, enabled) => PrivateModes(t, ps, enabled)
    case SaveCursor => t.(saved := t.cursor)
    case RestoreCursor => Restore(t)
    case Reset => ResetAll(t)
  }

  function ApplyAll(t: Terminal, ops: seq<Op>): (t': Terminal)
    requires WellFormed(t)
    ensures WellFormed(t')
    decreases |ops|
  {
    if ops == [] then t else ApplyAll(Apply(t, ops[0]), ops[1..])
  }

  /** What can happen to a terminal: an operation, or an action of the window that owns it. */
  datatype Event =
    | Perform(op: Op)
    | ResizeTo(rows: nat, columns: nat)
    | SetLimit(limit: nat)
    | MarkClean

  function Handle(t: Terminal, e: Event): (t': Terminal)
    requires WellFormed(t)
    ensures WellFormed(t')
  {
    match e
    case Perform(op) => Apply(t, op)
    case ResizeTo(rows, columns) => Resized(t, rows, columns)
    case SetLimit(limit) => LimitScrollback(t, limit)
    case MarkClean => ClearDamage(t)
  }

  function HandleAll(t: Terminal, events: seq<Event>): (t': Terminal)
    requires WellFormed(t)
    ensures WellFormed(t')
    decreases |events|
  {
    if events == [] then t else HandleAll(Handle(t, events[0]), events[1..])
  }

  lemma {:induction false} ApplyAllConcat(t: Terminal, a: seq<Op>, b: seq<Op>)
    requires WellFormed(t)
    ensures ApplyAll(t, a + b) == ApplyAll(ApplyAll(t, a), b)
    decreases |a|
  {
    hide Apply, WellFormed;
    if a == [] {
      assert a + b == b;
    } else {
      assert (a + b)[1..] == a[1..] + b;
      ApplyAllConcat(Apply(t, a[0]), a[1..], b);
    }
  }

  lemma ApplyNone(t: Terminal)
    requires WellFormed(t)
    ensures ApplyAll(t, []) == t
  {
  }

  lemma ApplyNoneOrOne(t: Terminal)
    requires WellFormed(t)
    ensures ApplyAll(t, []) == t
    ensures forall op {:trigger ApplyAll(t, [op])} :: ApplyAll(t, [op]) == Apply(t, op)
  {
    hide Apply, WellFormed;
  }
}
