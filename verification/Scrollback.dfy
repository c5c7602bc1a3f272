/**
  The scrollback as a bounded queue: it is always the newest end of the log of rows that have
  scrolled off the top of the screen.
 */
module Scrollback {
  import opened Types
  import opened Sequences
  import opened TerminalModel

  // ---- When a row scrolls off ----

  /** Placing this character needs a new row first. */
  predicate NeedsNewRow(t: Terminal, c: CodePoint) {
    || (t.wrapPending && t.modes.autoWrap)
    || (EffectiveWidth(c, t.columns) == Wide && t.cursor.column + 1 >= t.columns)
  }

  /** The character that an operation places in the grid, if it does. */
  predicate Places(t: Terminal, c: CodePoint) {
    !IsCombining(c) || (t.cursor.row == 0 && t.cursor.column == 0)
  }

  function Placed(c: CodePoint): CodePoint {
    if IsCombining(c) then REPLACEMENT_CHARACTER else c
  }

  predicate FeedsLine(t: Terminal, e: Event) {
    && e.Perform?
    && match e.op
       case Print(c) => Places(t, c) && NeedsNewRow(t, Placed(c))
       case ExecuteControl(control) => 0x0A <= control <= 0x0C
       case _ => false
  }

  /** The rows that one event pushes off the top: a line feed on the last row pushes one. */
  function ScrolledOff(t: Terminal, e: Event): seq<Row>
    requires WellFormed(t)
  {
    PushedBy(t, FeedsLine(t, e))
  }

  lemma NewRowScrolls(t: Terminal)
    requires WellFormed(t)
    ensures var gone := if t.cursor.row + 1 == t.rows then [t.screen[0]] else [];
            && NewRow(t).scrollback == LineFeed(t).scrollback == KeepLast(t.scrollback + gone, t.limit)
            && gone + NewRow(t).screen == gone + LineFeed(t).screen
               == t.screen + if gone == [] then [] else [BlankRow(t.columns)]
  {
    var gone := if t.cursor.row + 1 == t.rows then [t.screen[0]] else [];
    assert t.scrollback + [] == t.scrollback;
    if gone != [] {
      assert gone + (t.screen[1..] + [BlankRow(t.columns)]) == t.screen + [BlankRow(t.columns)];
    } else {
      assert [] + t.screen == t.screen == t.screen + [];
    }
  }

  lemma MakeRoomScrolls(t: Terminal, c: CodePoint)
    requires WellFormed(t)
    ensures MakeRoom(t, c) == if NeedsNewRow(t, c) then NewRow(t) else t
  {
    hide WellFormed, BlankRow, LineFeed;
  }

  /** `after` follows the pushed rows `gone`: together they are `before` with a blank row for each, but for one row. */
  predicate Conserved(t: Terminal, gone: seq<Row>, after: seq<Row>, written: nat) {
    var document := t.screen + if gone == [] then [] else [BlankRow(t.columns)];
    && |gone + after| == |document|
    && forall r :: 0 <= r < |document| && r != written ==> (gone + after)[r] == document[r]
  }

  function PushedBy(t: Terminal, feeds: bool): seq<Row>
    requires WellFormed(t)
  {
    if feeds && t.cursor.row + 1 == t.rows then [t.screen[0]] else []
  }

  lemma NothingPushed(t: Terminal)
    requires WellFormed(t)
    ensures KeepLast(t.scrollback + [], t.limit) == t.scrollback
    ensures Conserved(t, [], t.screen, 0)
  {
    assert t.scrollback + [] == t.scrollback;
    assert [] + t.screen == t.screen == t.screen + [];
  }

  lemma PutPrintableScrolls(t: Terminal, c: CodePoint)
    requires WellFormed(t)
    ensures var gone := PushedBy(t, NeedsNewRow(t, c));
            && PutPrintable(t, c).scrollback == KeepLast(t.scrollback + gone, t.limit)
            && Conserved(t, gone, PutPrintable(t, c).screen, |gone| + MakeRoom(t, c).cursor.row)
  {
    hide NewRow, LineFeed, MakeRoom, GlyphCells, KeepLast, PlaceGlyph, BlankRow, EffectiveWidth;
    MakeRoomScrolls(t, c);
    NewRowScrolls(t);
    NothingPushed(t);
    PlaceGlyphWritesOneRow(MakeRoom(t, c), c);
  }

  lemma PlaceGlyphWritesOneRow(t: Terminal, c: CodePoint)
    requires WellFormed(t) && t.cursor.column + |GlyphCells(c, t.style, t.columns)| <= t.columns
    ensures var t' := PlaceGlyph(t, c);
            && t'.scrollback == t.scrollback && |t'.screen| == |t.screen|
            && forall r :: 0 <= r < t.rows && r != t.cursor.row ==> t'.screen[r] == t.screen[r]
  {
    hide GlyphCells, Overwrite, ShiftRight;
  }

  lemma PrintScrolls(t: Terminal, c: CodePoint) returns (written: nat)
    requires WellFormed(t)
    ensures var gone := ScrolledOff(t, Perform(Print(c)));
            && PrintCodePoint(t, c).scrollback == KeepLast(t.scrollback + gone, t.limit)
            && Conserved(t, gone, PrintCodePoint(t, c).screen, written)
  {
    hide PutPrintable, KeepLast, IsCombining, NeedsNewRow, MarkTarget, AddMark;
    NothingPushed(t);
    if Places(t, c) {
      PutPrintableScrolls(t, Placed(c));
      written := |PushedBy(t, NeedsNewRow(t, Placed(c)))| + MakeRoom(t, Placed(c)).cursor.row;
    } else {
      written := MarkTarget(t).0;
    }
  }

  lemma ControlScrolls(t: Terminal, control: Byte)
    requires WellFormed(t)
    ensures var gone := ScrolledOff(t, Perform(ExecuteControl(control)));
            && Control(t, control).scrollback == KeepLast(t.scrollback + gone, t.limit)
            && Conserved(t, gone, Control(t, control).screen, |t.screen| + 1)
  {
    hide LineFeed, NewRow, KeepLast;
    NothingPushed(t);
    NewRowScrolls(t);
  }

  lemma OthersScrollNothing(t: Terminal, e: Event)
    requires WellFormed(t) && !(e.Perform? && (e.op.Print? || e.op.ExecuteControl?)) && !e.SetLimit?
    ensures Handle(t, e).scrollback == if e == Perform(EraseInDisplay(3)) then [] else t.scrollback
  {
    hide Rendition, EraseScreen, EraseRow, Fit, BlankGrid;
  }

  /** One event: the pushed rows join the scrollback, and the oldest rows give way. */
  lemma ScrollStep(t: Terminal, e: Event)
    requires WellFormed(t)
    ensures var t' := Handle(t, e);
            if e == Perform(EraseInDisplay(3)) then t'.scrollback == []
            else if e.SetLimit? then t'.scrollback == KeepLast(t.scrollback, t'.limit)
            else t'.scrollback == KeepLast(t.scrollback + ScrolledOff(t, e), t.limit)
  {
    hide PrintCodePoint, Control;
    if e.Perform? && e.op.Print? {
      var written := PrintScrolls(t, e.op.codepoint);
    } else if e.Perform? && e.op.ExecuteControl? {
      ControlScrolls(t, e.op.control);
    } else if !e.SetLimit? {
      OthersScrollNothing(t, e);
      NothingPushed(t);
    }
  }

  /**
    Rows are conserved: reading the pushed rows in front of the new screen gives the old screen
    with a blank row for each pushed one, except in the single row that was written.
   */
  lemma RowsConserved(t: Terminal, e: Event)
    requires WellFormed(t) && e.Perform? && (e.op.Print? || e.op.ExecuteControl?)
    ensures exists written: nat :: Conserved(t, ScrolledOff(t, e), Handle(t, e).screen, written)
  {
    hide PrintCodePoint, Control, Conserved, ScrolledOff;
    match e.op {
      case Print(c) =>
        var written := PrintScrolls(t, c);
        assert Conserved(t, ScrolledOff(t, e), Handle(t, e).screen, written);
      case ExecuteControl(control) =>
        ControlScrolls(t, control);
        assert Conserved(t, ScrolledOff(t, e), Handle(t, e).screen, |t.screen| + 1);
    }
  }

  // ---- Whole runs ----

  /** The log: rows in the order they scrolled off, emptied by ED 3. */
  function LogAfter(t: Terminal, events: seq<Event>, log: seq<Row>): seq<Row>
    requires WellFormed(t)
    decreases |events|
  {
    if events == [] then log
    else
      var next := if events[0] == Perform(EraseInDisplay(3)) then [] else log + ScrolledOff(t, events[0]);
      LogAfter(Handle(t, events[0]), events[1..], next)
  }

  lemma SuffixOfAppended<T>(kept: seq<T>, log: seq<T>, more: seq<T>, n: nat)
    requires IsSuffix(kept, log)
    ensures IsSuffix(KeepLast(kept + more, n), log + more)
  {
  }

  /** In every run, limits changing as they may, the scrollback is the newest end of the log. */
  lemma {:induction false} ScrollbackIsSuffixOfLog(t: Terminal, events: seq<Event>, log: seq<Row>)
    requires WellFormed(t) && IsSuffix(t.scrollback, log)
    ensures IsSuffix(HandleAll(t, events).scrollback, LogAfter(t, events, log))
    decreases |events|
  {
    hide Handle, WellFormed, ScrolledOff, KeepLast;
    if events != [] {
      var e := events[0];
      ScrollStep(t, e);
      SuffixStep(t, e, log);
      var next := if e == Perform(EraseInDisplay(3)) then [] else log + ScrolledOff(t, e);
      ScrollbackIsSuffixOfLog(Handle(t, e), events[1..], next);
    }
  }

  lemma SuffixStep(t: Terminal, e: Event, log: seq<Row>)
    requires WellFormed(t) && IsSuffix(t.scrollback, log)
    ensures IsSuffix(Handle(t, e).scrollback,
                     if e == Perform(EraseInDisplay(3)) then [] else log + ScrolledOff(t, e))
  {
    hide Handle, WellFormed, KeepLast;
    ScrollStep(t, e);
    SuffixOfAppended(t.scrollback, log, ScrolledOff(t, e), t.limit);
    SuffixOfAppended(t.scrollback, log, [], Handle(t, e).limit);
    assert t.scrollback + [] == t.scrollback && log + [] == log;
  }

  /** Under a constant limit the scrollback is exactly the newest rows of the log, as many as fit. */
  lemma {:induction false} ScrollbackIsNewestOfLog(t: Terminal, events: seq<Event>, log: seq<Row>)
    requires WellFormed(t) && t.scrollback == KeepLast(log, t.limit)
    requires forall i :: 0 <= i < |events| ==> !events[i].SetLimit?
    ensures HandleAll(t, events).scrollback == KeepLast(LogAfter(t, events, log), t.limit)
    decreases |events|
  {
    hide Handle, WellFormed, ScrolledOff, KeepLast;
    if events != [] {
      var e := events[0];
      var next := if e == Perform(EraseInDisplay(3)) then [] else log + ScrolledOff(t, e);
      NewestStep(t, e, log);
      ScrollbackIsNewestOfLog(Handle(t, e), events[1..], next);
    }
  }

  lemma NewestStep(t: Terminal, e: Event, log: seq<Row>)
    requires WellFormed(t) && t.scrollback == KeepLast(log, t.limit) && !e.SetLimit?
    ensures var next := if e == Perform(EraseInDisplay(3)) then [] else log + ScrolledOff(t, e);
            Handle(t, e).scrollback == KeepLast(next, t.limit) && Handle(t, e).limit == t.limit
  {
    hide Handle, KeepLast;
    ScrollStep(t, e);
    LimitStep(t, e);
    KeepLastOfNone<Row>(t.limit);
    if ScrolledOff(t, e) == [] {
      KeepLastOfSelf(log, t.limit);
      assert KeepLast(log, t.limit) + [] == KeepLast(log, t.limit) && log + [] == log;
    } else {
      KeepLastOfKept(log, t.screen[0], t.limit);
    }
  }

  lemma LimitStep(t: Terminal, e: Event)
    requires WellFormed(t) && !e.SetLimit?
    ensures Handle(t, e).limit == t.limit
  {
    hide PrintCodePoint, Control, Rendition, EraseScreen, EraseRow, Fit, BlankGrid;
    if e.Perform? && e.op.Print? {
      PrintFrame(t, e.op.codepoint);
    } else if e.Perform? && e.op.ExecuteControl? {
      ControlFrame(t, e.op.control);
    }
  }

  lemma KeepLastOfSelf<T>(s: seq<T>, n: nat)
    ensures KeepLast(KeepLast(s, n), n) == KeepLast(s, n)
  {
  }

  /** From a new terminal on, with nothing but ED 3 ever emptying the log. */
  lemma ScrollbackOfNewTerminal(rows: nat, columns: nat, limit: nat, events: seq<Event>)
    requires forall i :: 0 <= i < |events| ==> !events[i].SetLimit?
    ensures var t := Initial(rows, columns, limit);
            HandleAll(t, events).scrollback == KeepLast(LogAfter(t, events, []), t.limit)
  {
    ScrollbackIsNewestOfLog(Initial(rows, columns, limit), events, []);
  }
}
