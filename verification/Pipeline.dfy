/** Bytes in, screen out: the parser and the terminal together. */
module Pipeline {
  import opened Types
  import opened Sequences
  import opened TerminalModel
  import opened Runs
  import P = ParserModel
  import Laws = ParserLaws
  import Sgr
  import Layout
  import PrintParse

  /** What reaches the pair: bytes and parser actions, and actions of the window. */
  datatype Input =
    | Feed(byte: Byte)
    | FlushInput
    | ResetInput
    | Window(event: Event)

  datatype System = System(parser: P.Parser, terminal: Terminal)

  function StepOutcome(p: P.Parser, input: Input): P.Outcome {
    match input
    case Feed(b) => P.Step(p, b)
    case FlushInput => P.Flush(p)
    case ResetInput => P.Outcome(P.Reset(p), [])
    case Window(_) => P.Outcome(p, [])
  }

  function SystemStep(s: System, input: Input): (s': System)
    requires WellFormed(s.terminal)
    ensures WellFormed(s'.terminal)
  {
    var outcome := StepOutcome(s.parser, input);
    System(outcome.parser,
           if input.Window? then Handle(s.terminal, input.event) else ApplyAll(s.terminal, outcome.ops))
  }

  function SystemRun(s: System, inputs: seq<Input>): (s': System)
    requires WellFormed(s.terminal)
    ensures WellFormed(s'.terminal)
    decreases |inputs|
  {
    if inputs == [] then s else SystemRun(SystemStep(s, inputs[0]), inputs[1..])
  }

  // ---- A system run is a terminal run ----

  function AsEvents(ops: seq<Op>): seq<Event> {
    if ops == [] then [] else [Perform(ops[0])] + AsEvents(ops[1..])
  }

  /** The events that reach the terminal. */
  function EventsOf(p: P.Parser, inputs: seq<Input>): seq<Event>
    decreases |inputs|
  {
    if inputs == [] then []
    else
      var outcome := StepOutcome(p, inputs[0]);
      (if inputs[0].Window? then [inputs[0].event] else AsEvents(outcome.ops))
      + EventsOf(outcome.parser, inputs[1..])
  }

  lemma {:induction false} OpsAreEvents(t: Terminal, ops: seq<Op>)
    requires WellFormed(t)
    ensures HandleAll(t, AsEvents(ops)) == ApplyAll(t, ops)
    decreases |ops|
  {
    hide Apply, WellFormed;
    if ops != [] {
      OpsAreEvents(Apply(t, ops[0]), ops[1..]);
      assert AsEvents(ops)[1..] == AsEvents(ops[1..]);
    }
  }

  /** So everything proved of terminal runs holds of byte streams, whatever the window does in between. */
  lemma {:induction false} SystemRunIsTerminalRun(s: System, inputs: seq<Input>)
    requires WellFormed(s.terminal)
    ensures SystemRun(s, inputs).terminal == HandleAll(s.terminal, EventsOf(s.parser, inputs))
    decreases |inputs|
  {
    hide Handle, WellFormed, ApplyAll, StepOutcome;
    if inputs != [] {
      var next := SystemStep(s, inputs[0]);
      var first := if inputs[0].Window? then [inputs[0].event] else AsEvents(StepOutcome(s.parser, inputs[0]).ops);
      SystemRunIsTerminalRun(next, inputs[1..]);
      HandleAllConcat(s.terminal, first, EventsOf(next.parser, inputs[1..]));
      if inputs[0].Window? {
        OneEvent(s.terminal, inputs[0].event);
      } else {
        OpsAreEvents(s.terminal, StepOutcome(s.parser, inputs[0]).ops);
      }
    }
  }

  lemma OneEvent(t: Terminal, e: Event)
    requires WellFormed(t)
    ensures HandleAll(t, [e]) == Handle(t, e)
  {
    hide Handle;
    assert [e][1..] == [];
  }

  lemma {:induction false} ParserStaysSound(s: System, inputs: seq<Input>)
    requires WellFormed(s.terminal) && Laws.Sound(s.parser)
    ensures Laws.Sound(SystemRun(s, inputs).parser)
    decreases |inputs|
  {
    hide WellFormed, P.Step, Handle, ApplyAll;
    if inputs != [] {
      if inputs[0].Feed? {
        Laws.StepKeepsSound(s.parser, inputs[0].byte);
      }
      ParserStaysSound(SystemStep(s, inputs[0]), inputs[1..]);
    }
  }

  /**
    From a new parser on a new terminal, no byte stream, no resizing and no change of the limit
    breaks the terminal: the grid and all positions stay well formed, the parser stays sound,
    insert mode stays off and automatic wrap on, and the style stays canonical.
   */
  lemma AlwaysWellFormed(rows: nat, columns: nat, limit: nat, inputs: seq<Input>)
    ensures var s := SystemRun(System(P.INITIAL, Initial(rows, columns, limit)), inputs);
            && WellFormed(s.terminal) && Laws.Sound(s.parser)
            && StandardModes(s.terminal) && CanonicalStyle(s.terminal.style)
  {
    hide WellFormed, HandleAll, SystemRun;
    var s := System(P.INITIAL, Initial(rows, columns, limit));
    ParserStaysSound(s, inputs);
    SystemRunIsTerminalRun(s, inputs);
    ModesNeverChange(s.terminal, EventsOf(s.parser, inputs));
    Sgr.StyleStaysCanonical(s.terminal, EventsOf(s.parser, inputs));
  }

  // ---- Damage ----

  /** Bytes, parser actions and resizes; nothing that trims the scrollback or clears the flag. */
  predicate Drawn(input: Input) {
    input.Window? ==> input.event.ResizeTo?
  }

  lemma {:induction false} OpsAreWatched(t: Terminal, ops: seq<Op>)
    ensures forall i :: 0 <= i < |AsEvents(ops)| ==> Watched(t, AsEvents(ops)[i])
    decreases |ops|
  {
    if ops != [] {
      OpsAreWatched(t, ops[1..]);
    }
  }

  lemma {:induction false} EventsAreWatched(t: Terminal, p: P.Parser, inputs: seq<Input>)
    requires forall i :: 0 <= i < |inputs| ==> Drawn(inputs[i])
    ensures forall i :: 0 <= i < |EventsOf(p, inputs)| ==> Watched(t, EventsOf(p, inputs)[i])
    decreases |inputs|
  {
    hide StepOutcome;
    if inputs != [] {
      assert Drawn(inputs[0]);
      OpsAreWatched(t, StepOutcome(p, inputs[0]).ops);
      EventsAreWatched(t, StepOutcome(p, inputs[0]).parser, inputs[1..]);
    }
  }

  /**
    The renderer may skip a batch of bytes and resizes that leaves the damage flag clear: it has
    changed no cell, no scrollback row, no size and nothing about the cursor.
   */
  lemma SkippedFrames(s: System, inputs: seq<Input>)
    requires WellFormed(s.terminal) && forall i :: 0 <= i < |inputs| ==> Drawn(inputs[i])
    requires !SystemRun(s, inputs).terminal.damaged
    ensures var t, t' := s.terminal, SystemRun(s, inputs).terminal;
            && t'.screen == t.screen && t'.scrollback == t.scrollback && t'.cursor == t.cursor
            && t'.rows == t.rows && t'.columns == t.columns
  {
    hide SystemRun, HandleAll, Watched, WellFormed, Drawn;
    SystemRunIsTerminalRun(s, inputs);
    EventsAreWatched(s.terminal, s.parser, inputs);
    DamageSoundness(s.terminal, EventsOf(s.parser, inputs));
  }

  // ---- Text from bytes to rows ----

  /** Text that the parser passes on as it is, and that takes cells of its own. */
  predicate TextCharacter(c: CodePoint) {
    PrintParse.Supported(PrintParse.Character(c)) && !IsCombining(c)
  }

  predicate TextLines(lines: seq<seq<CodePoint>>) {
    forall l, i :: 0 <= l < |lines| && 0 <= i < |lines[l]| ==> TextCharacter(lines[l][i])
  }

  function LineItems(line: seq<CodePoint>): seq<PrintParse.Item> {
    if line == [] then [] else [PrintParse.Item(PrintParse.Character(line[0]), false)] + LineItems(line[1..])
  }

  const RETURN_AND_FEED := [PrintParse.Item(PrintParse.C0(0x0D), false), PrintParse.Item(PrintParse.C0(0x0A), false)]

  function TextItems(lines: seq<seq<CodePoint>>): seq<PrintParse.Item>
    requires lines != []
  {
    if |lines| == 1 then LineItems(lines[0])
    else LineItems(lines[0]) + (RETURN_AND_FEED + TextItems(lines[1..]))
  }

  lemma {:induction false} MeaningConcat(a: seq<PrintParse.Item>, b: seq<PrintParse.Item>)
    ensures PrintParse.MeaningAll(a + b) == PrintParse.MeaningAll(a) + PrintParse.MeaningAll(b)
    decreases |a|
  {
    hide PrintParse.Meaning;
    if a == [] {
      EmptyFirst(b);
      EmptyFirst(PrintParse.MeaningAll(b));
    } else {
      MeaningConcat(a[1..], b);
      assert (a + b)[0] == a[0] && (a + b)[1..] == a[1..] + b;
      AppendAssoc(PrintParse.Meaning(a[0].command), PrintParse.MeaningAll(a[1..]), PrintParse.MeaningAll(b));
    }
  }

  lemma {:induction false} LineMeaning(line: seq<CodePoint>)
    requires forall i :: 0 <= i < |line| ==> TextCharacter(line[i])
    ensures PrintParse.AllSupported(LineItems(line)) && PrintParse.MeaningAll(LineItems(line)) == Prints(line)
    decreases |line|
  {
    hide PrintParse.Supported, Prints;
    if line == [] {
      PrintParse.PrintsNone();
    } else {
      assert TextCharacter(line[0]);
      LineMeaning(line[1..]);
      assert LineItems(line)[1..] == LineItems(line[1..]);
      PrintsFirst(line);
    }
  }

  lemma {:induction false} TextMeaning(lines: seq<seq<CodePoint>>)
    requires lines != [] && TextLines(lines)
    ensures PrintParse.AllSupported(TextItems(lines)) && PrintParse.MeaningAll(TextItems(lines)) == Layout.TextOps(lines)
    decreases |lines|
  {
    hide TextCharacter, LineItems, PrintParse.MeaningAll;
    LineMeaning(lines[0]);
    if |lines| > 1 {
      var rest := TextItems(lines[1..]);
      TextMeaning(lines[1..]);
      ReturnAndFeedMeaning();
      MeaningConcat(RETURN_AND_FEED, rest);
      MeaningConcat(LineItems(lines[0]), RETURN_AND_FEED + rest);
    }
  }

  lemma ReturnAndFeedMeaning()
    ensures PrintParse.AllSupported(RETURN_AND_FEED)
    ensures PrintParse.MeaningAll(RETURN_AND_FEED) == [ExecuteControl(0x0D), ExecuteControl(0x0A)]
  {
    assert RETURN_AND_FEED[1..] == [PrintParse.Item(PrintParse.C0(0x0A), false)];
    assert RETURN_AND_FEED[1..][1..] == [];
  }

  /**
    Text as bytes, lines joined by CR LF, fed to a new parser on a new terminal: scrollback and
    screen together are the last rows of the text's layout.
   */
  lemma BytesToRows(rows: nat, columns: nat, limit: nat, lines: seq<seq<CodePoint>>)
    requires lines != [] && TextLines(lines)
    ensures PrintParse.AllSupported(TextItems(lines))
    ensures var start := Initial(rows, columns, limit);
            var outcome := P.Run(P.INITIAL, PrintParse.WrittenAll(TextItems(lines)));
            var t := ApplyAll(start, outcome.ops);
            var page := Layout.LayoutText(lines, DEFAULT_STYLE, start.columns);
            var blanks := if |page| < start.rows then start.rows - |page| else 0;
            && outcome.parser == P.INITIAL
            && t.scrollback + t.screen ==
                 KeepLast(page + BlankGrid(blanks, start.columns), start.limit + start.rows)
  {
    hide P.Run, ApplyAll, Layout.LayoutText, Layout.TextOps, TextItems, PrintParse.WrittenAll, KeepLast, PrintParse.Supported;
    TextMeaning(lines);
    PrintParse.ParseInvertsPrint(TextItems(lines));
    assert forall l, i :: 0 <= l < |lines| && 0 <= i < |lines[l]| ==> TextCharacter(lines[l][i]);
    Layout.LayoutRefinement(rows, columns, limit, DEFAULT_STYLE, lines);
  }
}
