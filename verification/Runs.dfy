/** What holds over whole runs of operations and window actions. */
module Runs {
  import opened Types
  import opened Sequences
  import opened TerminalModel

  // ---- Insert mode and automatic wrap ----

  predicate StandardModes(t: Terminal) {
    t.modes.autoWrap && !t.modes.insert
  }

  lemma ModesStep(t: Terminal, e: Event)
    requires WellFormed(t) && StandardModes(t)
    ensures StandardModes(Handle(t, e))
  {
    hide PrintCodePoint, Control, Rendition, EraseScreen, EraseRow, Fit, BlankGrid;
    if e.Perform? && e.op.Print? {
      PrintFrame(t, e.op.codepoint);
    } else if e.Perform? && e.op.ExecuteControl? {
      ControlFrame(t, e.op.control);
    }
  }

  /** No run turns insert mode on or automatic wrap off. */
  lemma {:induction false} ModesNeverChange(t: Terminal, events: seq<Event>)
    requires WellFormed(t) && StandardModes(t)
    ensures StandardModes(HandleAll(t, events))
    decreases |events|
  {
    hide Handle, StandardModes;
    if events != [] {
      ModesStep(t, events[0]);
      ModesNeverChange(Handle(t, events[0]), events[1..]);
    }
  }

  // ---- The saved cursor ----

  predicate KeepsSaved(e: Event) {
    e != Perform(SaveCursor) && e != Perform(Reset)
  }

  /** The least number of rows the terminal ever has, counting the `rows` at the start. */
  function LeastRows(rows: nat, events: seq<Event>): nat
    decreases |events|
  {
    if events == [] then rows
    else if events[0].ResizeTo? then Min(rows, LeastRows(Sanitized(events[0].rows), events[1..]))
    else LeastRows(rows, events[1..])
  }

  function LeastColumns(columns: nat, events: seq<Event>): nat
    decreases |events|
  {
    if events == [] then columns
    else if events[0].ResizeTo? then Min(columns, LeastColumns(Sanitized(events[0].columns), events[1..]))
    else LeastColumns(columns, events[1..])
  }

  lemma SavedStep(t: Terminal, e: Event)
    requires WellFormed(t) && KeepsSaved(e)
    ensures var t' := Handle(t, e);
            && t'.rows == (if e.ResizeTo? then Sanitized(e.rows) else t.rows)
            && t'.columns == (if e.ResizeTo? then Sanitized(e.columns) else t.columns)
            && t'.saved.row == Min(t.saved.row, t'.rows - 1)
            && t'.saved.column == Min(t.saved.column, t'.columns - 1)
            && t'.saved.visible == t.saved.visible
  {
    hide PrintCodePoint, Control, Rendition, EraseScreen, EraseRow, Fit, BlankGrid;
    if e.Perform? && e.op.Print? {
      PrintFrame(t, e.op.codepoint);
    } else if e.Perform? && e.op.ExecuteControl? {
      ControlFrame(t, e.op.control);
    }
  }

  lemma {:induction false} SavedKept(t: Terminal, events: seq<Event>)
    requires WellFormed(t) && forall i :: 0 <= i < |events| ==> KeepsSaved(events[i])
    ensures 0 < LeastRows(t.rows, events) <= t.rows && 0 < LeastColumns(t.columns, events) <= t.columns
    ensures HandleAll(t, events).saved ==
            ClampCursor(t.saved, LeastRows(t.rows, events), LeastColumns(t.columns, events))
    decreases |events|
  {
    hide Handle;
    if events != [] {
      SavedStep(t, events[0]);
      SavedKept(Handle(t, events[0]), events[1..]);
    }
  }

  lemma {:induction false} HandleAllConcat(t: Terminal, a: seq<Event>, b: seq<Event>)
    requires WellFormed(t)
    ensures HandleAll(t, a + b) == HandleAll(HandleAll(t, a), b)
    decreases |a|
  {
    hide Handle, WellFormed;
    if a == [] {
      assert a + b == b;
    } else {
      assert (a + b)[1..] == a[1..] + b;
      HandleAllConcat(Handle(t, a[0]), a[1..], b);
    }
  }

  /** What the two operations change, and that they change nothing else. */
  lemma SaveAndRestore(t: Terminal)
    requires WellFormed(t)
    ensures Apply(t, SaveCursor) == t.(saved := t.cursor)
    ensures Apply(t, RestoreCursor) == t.(cursor := t.saved, wrapPending := false, damaged := true)
  {
  }

  /**
    After a save, whatever is printed, scrolled, moved, resized or restored, a restore returns the
    cursor to the saved place, clamped by the smallest grid there has been since.
   */
  lemma RestoreAfterRun(t: Terminal, events: seq<Event>)
    requires WellFormed(t) && forall i :: 0 <= i < |events| ==> KeepsSaved(events[i])
    ensures 0 < LeastRows(t.rows, events) && 0 < LeastColumns(t.columns, events)
    ensures Apply(HandleAll(Apply(t, SaveCursor), events), RestoreCursor).cursor ==
            ClampCursor(t.cursor, LeastRows(t.rows, events), LeastColumns(t.columns, events))
  {
    hide Handle, HandleAll, WellFormed, Apply;
    SaveAndRestore(t);
    SavedKept(Apply(t, SaveCursor), events);
    SaveAndRestore(HandleAll(Apply(t, SaveCursor), events));
  }

  // ---- Private modes ----

  /** Mode 25 shows and hides the cursor, mode 2004 turns bracketed paste on and off, and no other number does anything. */
  lemma PrivateModesSet(t: Terminal, ps: seq<int>, enabled: bool)
    requires WellFormed(t)
    ensures var t' := Apply(t, SetPrivateMode(ps, enabled));
            && t'.cursor.visible == (if 25 in ps then enabled else t.cursor.visible)
            && t'.modes.bracketedPaste == (if 2004 in ps then enabled else t.modes.bracketedPaste)
            && t' == t.(cursor := t.cursor.(visible := t'.cursor.visible),
                        modes := t.modes.(bracketedPaste := t'.modes.bracketedPaste), damaged := true)
  {
  }

  /** The two flags, and the visibility that goes with the saved cursor. */
  datatype Flags = Flags(visible: bool, savedVisible: bool, paste: bool)

  function FlagsOf(t: Terminal): Flags {
    Flags(t.cursor.visible, t.saved.visible, t.modes.bracketedPaste)
  }

  /** What a run does to the flags: only mode switches, saves, restores and resets count. */
  function FlagsAfter(f: Flags, events: seq<Event>): Flags
    decreases |events|
  {
    if events == [] then f
    else
      var next := match events[0]
        case Perform(SetPrivateMode(ps, enabled)) =>
          f.(visible := if 25 in ps then enabled else f.visible, paste := if 2004 in ps then enabled else f.paste)
        case Perform(SaveCursor) => f.(savedVisible := f.visible)
        case Perform(RestoreCursor) => f.(visible := f.savedVisible)
        case Perform(Reset) => Flags(true, true, false)
        case _ => f;
      FlagsAfter(next, events[1..])
  }

  lemma OtherKeepsFlags(t: Terminal, e: Event)
    requires WellFormed(t)
    requires e.Perform? ==> !e.op.SetPrivateMode? && !e.op.SaveCursor? && !e.op.RestoreCursor? && !e.op.Reset?
    ensures FlagsOf(Handle(t, e)) == FlagsOf(t)
  {
    hide PrintCodePoint, Control, Rendition, EraseScreen, EraseRow, Fit, BlankGrid;
    if e.Perform? && e.op.Print? {
      PrintFrame(t, e.op.codepoint);
    } else if e.Perform? && e.op.ExecuteControl? {
      ControlFrame(t, e.op.control);
    }
  }

  /** In every run cursor visibility and bracketed paste are as the last of those events left them. */
  lemma {:induction false} FlagsAfterRun(t: Terminal, events: seq<Event>)
    requires WellFormed(t)
    ensures FlagsOf(HandleAll(t, events)) == FlagsAfter(FlagsOf(t), events)
    decreases |events|
  {
    hide Apply, WellFormed;
    if events != [] {
      var e := events[0];
      match e {
        case Perform(SetPrivateMode(ps, enabled)) => PrivateModesSet(t, ps, enabled);
        case Perform(SaveCursor) => SaveAndRestore(t);
        case Perform(RestoreCursor) => SaveAndRestore(t);
        case Perform(Reset) => ResetFlags(t);
        case _ => OtherKeepsFlags(t, e);
      }
      FlagsAfterRun(Handle(t, e), events[1..]);
    }
  }

  lemma ResetFlags(t: Terminal)
    requires WellFormed(t)
    ensures FlagsOf(Apply(t, Reset)) == Flags(true, true, false)
  {
  }

  // ---- Damage ----

  /** An event that may not hide a change from the renderer. */
  predicate Watched(t: Terminal, e: Event) {
    e != MarkClean && (e.SetLimit? ==> |t.scrollback| <= Min(e.limit, MAXIMUM_SCROLLBACK_ROWS))
  }

  lemma DamageStep(t: Terminal, e: Event)
    requires WellFormed(t) && Watched(t, e) && !Handle(t, e).damaged
    ensures var t' := Handle(t, e);
            !t.damaged && t' == t.(title := t'.title, saved := t'.saved, limit := t'.limit)
  {
    hide PrintCodePoint, Control, Rendition, EraseScreen, EraseRow, Fit, BlankGrid;
    if e.Perform? && e.op.Print? {
      PrintFrame(t, e.op.codepoint);
    } else if e.Perform? && e.op.ExecuteControl? {
      ControlFrame(t, e.op.control);
    }
  }

  /** Only the renderer clears the damage flag. */
  lemma {:induction false} DamageSticks(t: Terminal, events: seq<Event>)
    requires WellFormed(t) && t.damaged && MarkClean !in events
    ensures HandleAll(t, events).damaged
    decreases |events|
  {
    hide Handle, WellFormed;
    if events != [] {
      DamageStays(t, events[0]);
      DamageSticks(Handle(t, events[0]), events[1..]);
    }
  }

  lemma DamageStays(t: Terminal, e: Event)
    requires WellFormed(t) && t.damaged && e != MarkClean
    ensures Handle(t, e).damaged
  {
    hide PrintCodePoint, Control, Rendition, EraseScreen, EraseRow, Fit, BlankGrid;
    if e.Perform? && e.op.Print? {
      PrintFrame(t, e.op.codepoint);
    } else if e.Perform? && e.op.ExecuteControl? {
      ControlFrame(t, e.op.control);
    }
  }

  /**
    While the damage flag stays clear, nothing the renderer draws has changed: what may differ are
    the title, the saved cursor and the scrollback limit.
   */
  lemma {:induction false} DamageSoundness(t: Terminal, events: seq<Event>)
    requires WellFormed(t) && !HandleAll(t, events).damaged
    requires forall i :: 0 <= i < |events| ==> Watched(t, events[i])
    ensures var t' := HandleAll(t, events);
            !t.damaged && t' == t.(title := t'.title, saved := t'.saved, limit := t'.limit)
    decreases |events|
  {
    hide Handle, WellFormed;
    if events != [] {
      var next := Handle(t, events[0]);
      if next.damaged {
        DamageSticks(next, events[1..]);
      } else {
        DamageStep(t, events[0]);
        DamageSoundness(next, events[1..]);
      }
    }
  }

  /** The one exception: a lower scrollback limit drops rows unmarked exactly when it has rows to drop. */
  lemma LimitDropsUnmarked(t: Terminal, limit: nat)
    requires WellFormed(t) && !t.damaged
    ensures !LimitScrollback(t, limit).damaged
    ensures LimitScrollback(t, limit).scrollback == t.scrollback <==> Watched(t, SetLimit(limit))
  {
  }

  /** For one, a row scrolled off and drawn is gone when the limit becomes zero, with the flag still clear. */
  lemma RowDroppedUnmarked()
    ensures var t := ClearDamage(LineFeed(Initial(1, 1, 1)));
            && t.scrollback == [BlankRow(1)]
            && LimitScrollback(t, 0).scrollback == []
            && !LimitScrollback(t, 0).damaged
  {
    var t := Initial(1, 1, 1);
    assert [] + [t.screen[0]] == [BlankRow(1)];
  }
}
