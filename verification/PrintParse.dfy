/**
  Commands in their written form (ECMA-48, sections 5.4 and 5.6), and that the parser turns any
  list of them into exactly the operations they stand for.
 */
module PrintParse {
  import opened Types
  import opened Sequences
  import opened Parameters
  import opened Decimals
  import opened ParserModel
  import opened ParserLaws
  import opened StreamGrammar
  import Utf8 = Utf8Model
  import Utf8Theorems

  datatype Direction = Up | Down | Forward | Back

  datatype Terminator = WithBel | WithSt | WithEscBackslash

  datatype Command =
    | Character(c: CodePoint)
    | C0(control: Byte)
    | Move(direction: Direction, count: nat)
    | Goto(row: nat, column: nat, letter: Byte)
    | Erase(display: bool, mode: nat)
    | Style(ps: seq<int>)
    | Mode(modes: seq<int>, enabled: bool)
    | Title(kind: Byte, text: seq<Byte>, terminator: Terminator)
    | Ignored(kind: Byte, text: seq<Byte>, terminator: Terminator)
    | Save(csi: bool)
    | Restore(csi: bool)
    | FullReset
    | NextLine
    | Index

  // ---- What can be written ----

  /** Ground takes these bytes as introducers even in the middle of a character. */
  predicate Hazard(b: Byte) {
    b == CSI || b == OSC || b == DCS
  }

  predicate Hazardous(c: Utf8.Scalar) {
    exists i :: 0 <= i < |Utf8Theorems.Encode(c)| && Hazard(Utf8Theorems.Encode(c)[i])
  }

  predicate Supported(command: Command) {
    match command
    case Character(c) => Utf8.IsScalar(c) && !IsC0(c) && !Hazardous(c)
    case C0(control) => IsC0(control) && control != ESC && control != CAN && control != SUB
    case Move(_, count) => 1 <= count < 0x8000_0000
    case Goto(row, column, letter) =>
      row < 0x7FFF_FFFF && column < 0x7FFF_FFFF && (letter == 0x48 || letter == 0x66)
    case Erase(_, mode) => mode < 0x8000_0000
    case Style(ps) => AllWritable(ps) && |ps| <= MAXIMUM_PARAMETER_COUNT && ps != [-1]
    case Mode(ps, _) => AllWritable(ps) && 1 <= |ps| <= MAXIMUM_PARAMETER_COUNT
    case Title(kind, text, _) =>
      (kind == 0x30 || kind == 0x32) && IsBody(text) && |text| + 2 <= MAXIMUM_SEQUENCE_BYTES
    case Ignored(kind, text, terminator) =>
      (kind == 0x50 || kind == 0x5E || kind == 0x5F) && IsIgnored(text) && terminator != WithBel
    case _ => true
  }

  /** The two forms of an introducer: ESC and a letter, or one byte. */
  function Introducer(eightBit: bool, letter: Byte, c1: Byte): seq<Byte> {
    if eightBit then [c1] else [ESC, letter]
  }

  function CsiBytes(eightBit: bool, prefix: seq<Byte>, ps: seq<int>, final: Byte): seq<Byte>
    requires AllWritable(ps)
  {
    Introducer(eightBit, 0x5B, CSI) + (prefix + WriteParameters(ps) + [final])
  }

  function TerminatorBytes(terminator: Terminator): seq<Byte> {
    match terminator
    case WithBel => [BEL]
    case WithSt => [ST]
    case WithEscBackslash => [ESC, BACKSLASH]
  }

  function DirectionLetter(d: Direction): Byte {
    match d
    case Up => 0x41
    case Down => 0x42
    case Forward => 0x43
    case Back => 0x44
  }

  /** The written form of a command. */
  function Written(command: Command, eightBit: bool): seq<Byte>
    requires Supported(command)
  {
    match command
    case Character(c) => Utf8Theorems.Encode(c)
    case C0(control) => [control]
    case Move(direction, count) => CsiBytes(eightBit, [], [count], DirectionLetter(direction))
    case Goto(row, column, letter) => CsiBytes(eightBit, [], [row + 1, column + 1], letter)
    case Erase(display, mode) => CsiBytes(eightBit, [], [mode], if display then 0x4A else 0x4B)
    case Style(ps) => CsiBytes(eightBit, [], ps, 0x6D)
    case Mode(ps, enabled) => CsiBytes(eightBit, [QUESTION_MARK], ps, if enabled then 0x68 else 0x6C)
    case Title(kind, text, terminator) =>
      Introducer(eightBit, 0x5D, OSC) + ([kind, SEMICOLON] + text + TerminatorBytes(terminator))
    case Ignored(kind, text, terminator) =>
      Introducer(eightBit && kind == 0x50, kind, DCS) + (text + TerminatorBytes(terminator))
    case Save(csi) => if csi then CsiBytes(eightBit, [], [], 0x73) else [ESC, 0x37]
    case Restore(csi) => if csi then CsiBytes(eightBit, [], [], 0x75) else [ESC, 0x38]
    case FullReset => [ESC, 0x63]
    case NextLine => [ESC, 0x45]
    case Index => [ESC, 0x44]
  }

  /** The operations a command stands for. */
  function Meaning(command: Command): seq<Op> {
    match command
    case Character(c) => [Print(c)]
    case C0(control) => [ExecuteControl(control)]
    case Move(direction, count) =>
      (match direction
       case Up => [CursorUp(count)]
       case Down => [CursorDown(count)]
       case Forward => [CursorForward(count)]
       case Back => [CursorBack(count)])
    case Goto(row, column, _) => [CursorPosition(row, column)]
    case Erase(display, mode) => if display then [EraseInDisplay(mode)] else [EraseInLine(mode)]
    case Style(ps) => [SetGraphicsRendition(ps)]
    case Mode(ps, enabled) => [SetPrivateMode(ps, enabled)]
    case Title(_, text, _) => [SetTitle(text)]
    case Ignored(_, _, _) => []
    case Save(_) => [SaveCursor]
    case Restore(_) => [RestoreCursor]
    case FullReset => [Op.Reset]
    case NextLine => [ExecuteControl(0x0A), ExecuteControl(0x0D)]
    case Index => [ExecuteControl(0x0A)]
  }

  // ---- Reading one command ----

  lemma RunTwo(p: Parser, a: Byte, b: Byte)
    ensures var first := Step(p, a);
            var second := Step(first.parser, b);
            Run(p, [a, b]) == Outcome(second.parser, first.ops + second.ops)
  {
    hide Step, Run;
    assert [a, b] == [a] + [b];
    RunConcat(p, [a], [b]);
    RunOne(p, a);
    RunOne(Step(p, a).parser, b);
  }

  lemma IntroducerRun(eightBit: bool)
    ensures Run(INITIAL, Introducer(eightBit, 0x5B, CSI)) == Outcome(INITIAL.(state := Csi), [])
    ensures Run(INITIAL, Introducer(eightBit, 0x5D, OSC)) == Outcome(INITIAL.(state := Osc), [])
    ensures Run(INITIAL, Introducer(eightBit, 0x50, DCS)) == Outcome(INITIAL.(state := String), [])
    ensures Run(INITIAL, Introducer(false, 0x5E, DCS)) == Outcome(INITIAL.(state := String), [])
    ensures Run(INITIAL, Introducer(false, 0x5F, DCS)) == Outcome(INITIAL.(state := String), [])
  {
    hide Run;
    RunTwo(INITIAL, ESC, 0x5E);
    RunTwo(INITIAL, ESC, 0x5F);
    if eightBit {
      RunOne(INITIAL, DCS);
      RunOne(INITIAL, CSI);
      RunOne(INITIAL, OSC);
    } else {
      RunTwo(INITIAL, ESC, 0x5B);
      RunTwo(INITIAL, ESC, 0x5D);
      RunTwo(INITIAL, ESC, 0x50);
    }
  }

  lemma {:induction false} StripNothing(bytes: seq<Byte>)
    requires forall i :: 0 <= i < |bytes| ==> !IsC0(bytes[i])
    ensures Strip(bytes) == bytes && ControlOps(bytes) == []
    decreases |bytes|
  {
    if bytes != [] {
      StripNothing(bytes[1..]);
    }
  }

  lemma FinalRun(p: Parser, final: Byte)
    requires p.state == Csi && IsFinalByte(final)
    ensures Step(p, final) == Outcome(Enter(p, Ground), Dispatch(p.parameters, p.privateMode, final))
  {
    hide Dispatch;
  }

  lemma CsiBodyRun(buffer: seq<Byte>, final: Byte)
    requires IsFinalByte(final) && |buffer| <= MAXIMUM_SEQUENCE_BYTES
    requires forall i :: 0 <= i < |buffer| ==> IsParameterByte(buffer[i])
    ensures Run(INITIAL.(state := Csi), buffer + [final]) ==
            Outcome(INITIAL, Dispatch(buffer, buffer != [] && buffer[0] == QUESTION_MARK, final))
  {
    hide Run, Step, Dispatch, Strip, ControlOps;
    var csi := INITIAL.(state := Csi);
    StripNothing(buffer);
    Collects(csi, buffer);
    assert [] + buffer == buffer;
    RunSnoc(csi, buffer, final);
    FinalRun(Run(csi, buffer).parser, final);
    EmptyFirst(Dispatch(buffer, buffer != [] && buffer[0] == QUESTION_MARK, final));
  }

  /** A control sequence is dispatched with its parameters, and leaves the parser as new. */
  lemma CsiRun(eightBit: bool, prefix: seq<Byte>, ps: seq<int>, final: Byte)
    requires AllWritable(ps) && |ps| <= MAXIMUM_PARAMETER_COUNT && IsFinalByte(final)
    requires prefix == [] || prefix == [QUESTION_MARK]
    ensures Run(INITIAL, CsiBytes(eightBit, prefix, ps, final)) ==
            Outcome(INITIAL, Dispatch(prefix + WriteParameters(ps), prefix != [], final))
  {
    hide Run, Dispatch, WriteParameters;
    var buffer := prefix + WriteParameters(ps);
    WrittenBytes(ps);
    CsiBodyRun(buffer, final);
    IntroducerRun(eightBit);
    RunConcat(INITIAL, Introducer(eightBit, 0x5B, CSI), buffer + [final]);
    EmptyFirst(Run(INITIAL.(state := Csi), buffer + [final]).ops);
  }

  lemma TitleRun(eightBit: bool, kind: Byte, text: seq<Byte>, terminator: Terminator)
    requires Supported(Title(kind, text, terminator))
    ensures Run(INITIAL, Written(Title(kind, text, terminator), eightBit)) == Outcome(INITIAL, [SetTitle(text)])
  {
    hide Run, IsBody;
    var body, osc := [kind, SEMICOLON] + text, INITIAL.(state := Osc);
    var end := TerminatorBytes(terminator);
    IntroducerRun(eightBit);
    RunConcat(INITIAL, Introducer(eightBit, 0x5D, OSC), body + end);
    TitleBody(kind, text);
    BodyRun(osc, body);
    assert [] + body == body && body[2..] == text;
    RunConcat(osc, body, end);
    if terminator == WithEscBackslash {
      RunTwo(osc.(payload := body), ESC, BACKSLASH);
    } else {
      RunOne(osc.(payload := body), end[0]);
    }
  }

  lemma TitleBody(kind: Byte, text: seq<Byte>)
    requires IsBody(text) && (kind == 0x30 || kind == 0x32)
    ensures IsBody([kind, SEMICOLON] + text)
  {
    var body := [kind, SEMICOLON] + text;
    assert body[1..] == [SEMICOLON] + text && body[1..][1..] == text;
  }

  lemma IgnoredRun(eightBit: bool, kind: Byte, text: seq<Byte>, terminator: Terminator)
    requires Supported(Ignored(kind, text, terminator))
    ensures Run(INITIAL, Written(Ignored(kind, text, terminator), eightBit)) == Outcome(INITIAL, [])
  {
    hide Run, IsIgnored;
    var body, end := INITIAL.(state := String), TerminatorBytes(terminator);
    IntroducerRun(eightBit);
    IntroducerRun(false);
    RunConcat(INITIAL, Introducer(eightBit && kind == 0x50, kind, DCS), text + end);
    StringBodyRun(body, text);
    RunConcat(body, text, end);
    if terminator == WithEscBackslash {
      RunTwo(body, ESC, BACKSLASH);
    } else {
      RunOne(body, ST);
    }
  }

  lemma PlainCharacter(c: CodePoint)
    requires Utf8.IsScalar(c) && !IsC0(c)
    ensures var e := Utf8Theorems.Encode(c);
            forall i :: 0 <= i < |e| ==> !IsC0(e[i]) && (!Hazard(e[i]) ==> PlainByte(e[i]))
  {
  }

  lemma CharacterRun(c: CodePoint)
    requires Utf8.IsScalar(c) && !IsC0(c) && !Hazardous(c)
    ensures Run(INITIAL, Utf8Theorems.Encode(c)) == Outcome(INITIAL, [Print(c)])
  {
    hide Run, Utf8Theorems.Encode, Utf8.DecodeAll;
    var e := Utf8Theorems.Encode(c);
    PlainCharacter(c);
    assert Plain(e);
    PlainTextIsDecoded(INITIAL, e);
    Utf8Theorems.DecodeOneEncoded(Utf8.IDLE, c);
    assert Utf8.Flush(Utf8.IDLE) + [c] == [c];
    assert Prints([c]) == [Print(c)];
  }

  lemma EscapeRun(letter: Byte)
    requires letter == 0x37 || letter == 0x38 || letter == 0x63 || letter == 0x45 || letter == 0x44
    ensures Run(INITIAL, [ESC, letter]) == Outcome(INITIAL, EscapeStep(INITIAL, letter).ops)
  {
    hide Run;
    RunTwo(INITIAL, ESC, letter);
    assert [] + EscapeStep(INITIAL, letter).ops == EscapeStep(INITIAL, letter).ops;
  }

  /** ESC and any byte but the five letters of introducers: the parser is left as new, and five letters call something. */
  lemma OtherEscapes(b: Byte)
    ensures b !in {0x5B, 0x5D, 0x50, 0x5E, 0x5F} ==> Run(INITIAL, [ESC, b]).parser == INITIAL
    ensures b !in {0x37, 0x38, 0x63, 0x44, 0x45} ==> Run(INITIAL, [ESC, b]).ops == []
  {
    hide Run;
    RunTwo(INITIAL, ESC, b);
  }

  /** From a new parser to a new parser, every command calls its operations. */
  lemma CommandRun(command: Command, eightBit: bool)
    requires Supported(command)
    ensures Run(INITIAL, Written(command, eightBit)) == Outcome(INITIAL, Meaning(command))
  {
    hide Run, Dispatch, CsiBytes, IsBody, IsIgnored, Hazardous;
    match command {
      case Character(c) => CharacterRun(c);
      case C0(control) => RunOne(INITIAL, control);
      case Title(kind, text, terminator) => TitleRun(eightBit, kind, text, terminator);
      case Ignored(kind, text, terminator) => IgnoredRun(eightBit, kind, text, terminator);
      case Save(csi) => CursorRun(eightBit);
      case Restore(csi) => CursorRun(eightBit);
      case FullReset => EscapeRun(0x63);
      case NextLine => EscapeRun(0x45);
      case Index => EscapeRun(0x44);
      case _ => SequenceRun(command, eightBit);
    }
  }

  lemma SequenceRun(command: Command, eightBit: bool)
    requires Supported(command)
    requires command.Move? || command.Goto? || command.Erase? || command.Style? || command.Mode?
    ensures Run(INITIAL, Written(command, eightBit)) == Outcome(INITIAL, Meaning(command))
  {
    hide Run, CsiBytes, WriteParameters, ParseParameters;
    match command {
      case Move(direction, count) => ReadBack(eightBit, [count], DirectionLetter(direction));
      case Goto(row, column, letter) => ReadBack(eightBit, [row + 1, column + 1], letter);
      case Erase(display, mode) => ReadBack(eightBit, [mode], if display then 0x4A else 0x4B);
      case Style(ps) => ReadBack(eightBit, ps, 0x6D);
      case Mode(ps, enabled) =>
        CsiRun(eightBit, [QUESTION_MARK], ps, if enabled then 0x68 else 0x6C);
        PrivateParametersRoundTrip(ps);
    }
  }

  lemma CursorRun(eightBit: bool)
    ensures Run(INITIAL, CsiBytes(eightBit, [], [], 0x73)) == Run(INITIAL, [ESC, 0x37]) == Outcome(INITIAL, [SaveCursor])
    ensures Run(INITIAL, CsiBytes(eightBit, [], [], 0x75)) == Run(INITIAL, [ESC, 0x38]) == Outcome(INITIAL, [RestoreCursor])
  {
    hide Run, CsiBytes, WriteParameters, ParseParameters;
    EscapeRun(0x37);
    EscapeRun(0x38);
    ReadBack(eightBit, [], 0x73);
    ReadBack(eightBit, [], 0x75);
  }

  lemma ReadBack(eightBit: bool, ps: seq<int>, final: Byte)
    requires AllWritable(ps) && |ps| <= MAXIMUM_PARAMETER_COUNT && ps != [-1] && IsFinalByte(final)
    ensures Run(INITIAL, CsiBytes(eightBit, [], ps, final)) == Outcome(INITIAL, Dispatch(WriteParameters(ps), false, final))
    ensures ParseParameters(WriteParameters(ps)) == ps
  {
    hide Run, CsiBytes, Dispatch, WriteParameters, ParseParameters;
    CsiRun(eightBit, [], ps, final);
    EmptyFirst(WriteParameters(ps));
    ParametersRoundTrip(ps);
  }

  /** A parameter that is left out, empty, zero or negative means `default`. */
  function Or(ps: seq<int>, index: nat, default: nat): nat {
    if index < |ps| && ps[index] > 0 then ps[index] else default
  }

  /** What control sequences call, by their parameters; a leading question mark matters to h and l only. */
  function Called(ps: seq<int>, privateMode: bool, final: Byte): seq<Op> {
    var n := Or(ps, 0, 1);
    if final == 0x41 then [CursorUp(n)]
    else if final == 0x42 then [CursorDown(n)]
    else if final == 0x43 then [CursorForward(n)]
    else if final == 0x44 then [CursorBack(n)]
    else if final == 0x48 || final == 0x66 then [CursorPosition(n - 1, Or(ps, 1, 1) - 1)]
    else if final == 0x4A then [EraseInDisplay(Or(ps, 0, 0))]
    else if final == 0x4B then [EraseInLine(Or(ps, 0, 0))]
    else if final == 0x6D then [SetGraphicsRendition(ps)]
    else if (final == 0x68 || final == 0x6C) && privateMode then [SetPrivateMode(ps, final == 0x68)]
    else if final == 0x73 then [SaveCursor]
    else if final == 0x75 then [RestoreCursor]
    else []
  }

  lemma DispatchCalls(buffer: seq<Byte>, privateMode: bool, final: Byte)
    ensures Dispatch(buffer, privateMode, final) == Called(ParseParameters(buffer), privateMode, final)
  {
    hide ParseParameters;
  }

  /**
    A control sequence of any bytes and any length, controls among them: the controls are executed,
    the first 4096 other bytes are its parameters, and the parser is left as new. A byte that is no
    final byte ends it without a call.
   */
  lemma SequenceExactly(eightBit: bool, body: seq<Byte>, final: Byte)
    requires IsCollected(body) && final >= 0x40 && final != 0x7F
    ensures var buffer := Front(Strip(body), 4096);
            Run(INITIAL, Introducer(eightBit, 0x5B, CSI) + (body + [final])) ==
            Outcome(INITIAL, ControlOps(body) + if final > 0x7E then []
                             else Called(ParseParameters(buffer), buffer != [] && buffer[0] == QUESTION_MARK, final))
  {
    hide Run, Step, Strip, ControlOps, ParseParameters, Called, Dispatch, IsCollected;
    var csi := INITIAL.(state := Csi);
    var p := Run(csi, body).parser;
    IntroducerRun(eightBit);
    CollectRun(csi, body);
    RunKeepsSound(csi, body);
    RunConcat(INITIAL, Introducer(eightBit, 0x5B, CSI), body + [final]);
    RunSnoc(csi, body, final);
    LastByte(p, final);
    DispatchCalls(p.parameters, p.privateMode, final);
    EmptyFirst(Run(csi, body + [final]).ops);
  }

  lemma LastByte(p: Parser, final: Byte)
    requires p.state == Csi && final >= 0x40 && final != 0x7F
    ensures Step(p, final) ==
            Outcome(Enter(p, Ground), if final > 0x7E then [] else Dispatch(p.parameters, p.privateMode, final))
  {
    hide Dispatch;
  }

  /** Written parameters, with or without a question mark, mean what they say; left out, they mean the defaults. */
  lemma OmittedParameters(eightBit: bool, prefix: seq<Byte>, ps: seq<int>, final: Byte)
    requires AllWritable(ps) && |ps| <= MAXIMUM_PARAMETER_COUNT && IsFinalByte(final)
    requires prefix == [] || prefix == [QUESTION_MARK]
    requires final != 0x6D && final != 0x68 && final != 0x6C
    ensures Run(INITIAL, CsiBytes(eightBit, prefix, ps, final)) == Outcome(INITIAL, Called(ps, prefix != [], final))
  {
    hide Run, CsiBytes, WriteParameters, ParseParameters, Dispatch;
    CsiRun(eightBit, prefix, ps, final);
    DispatchCalls(prefix + WriteParameters(ps), prefix != [], final);
    ReadOrDefault(prefix, ps);
  }

  /** The lone empty field and no field at all are the only lists that can be confused. */
  lemma ReadOrDefault(prefix: seq<Byte>, ps: seq<int>)
    requires AllWritable(ps) && |ps| <= MAXIMUM_PARAMETER_COUNT
    requires prefix == [] || prefix == [QUESTION_MARK]
    ensures var read := ParseParameters(prefix + WriteParameters(ps));
            read == ps || ((read == [] || read == [-1]) && (ps == [] || ps == [-1]))
  {
    hide ParseParameters, WriteParameters;
    if prefix == [] {
      EmptyFirst(WriteParameters(ps));
      ParametersRoundTrip(ps);
      LoneEmptyField();
    } else if ps != [] {
      PrivateParametersRoundTrip(ps);
    } else {
      LoneQuestionMark();
    }
  }

  lemma LoneQuestionMark()
    ensures ParseParameters([QUESTION_MARK] + WriteParameters([])) == [-1]
  {
  }

  /** The final bytes that call an operation. */
  const FINALS := {0x41, 0x42, 0x43, 0x44, 0x48, 0x66, 0x4A, 0x4B, 0x6D, 0x73, 0x75}

  /** A control sequence calls something exactly if its final byte is known, and private where it must be. */
  lemma UnsupportedSequences(eightBit: bool, prefix: seq<Byte>, ps: seq<int>, final: Byte)
    requires AllWritable(ps) && |ps| <= MAXIMUM_PARAMETER_COUNT && IsFinalByte(final)
    requires prefix == [] || prefix == [QUESTION_MARK]
    ensures var run := Run(INITIAL, CsiBytes(eightBit, prefix, ps, final));
            && run.parser == INITIAL
            && (run.ops == [] <==> !(final in FINALS || (prefix != [] && (final == 0x68 || final == 0x6C))))
  {
    hide Run, CsiBytes, WriteParameters, ParseParameters;
    CsiRun(eightBit, prefix, ps, final);
  }

  lemma LoneEmptyField()
    ensures ParseParameters(WriteParameters([-1])) == []
  {
  }

  // ---- Whole lists ----

  /** A command and the form of its introducer. */
  datatype Item = Item(command: Command, eightBit: bool)

  predicate AllSupported(items: seq<Item>) {
    forall i :: 0 <= i < |items| ==> Supported(items[i].command)
  }

  function WrittenAll(items: seq<Item>): seq<Byte>
    requires AllSupported(items)
  {
    if items == [] then [] else Written(items[0].command, items[0].eightBit) + WrittenAll(items[1..])
  }

  function MeaningAll(items: seq<Item>): seq<Op> {
    if items == [] then [] else Meaning(items[0].command) + MeaningAll(items[1..])
  }

  /** Any list of commands, written out and fed to a new parser, calls exactly its operations, and leaves the parser as new. */
  lemma {:induction false} ParseInvertsPrint(items: seq<Item>)
    requires AllSupported(items)
    ensures Run(INITIAL, WrittenAll(items)) == Outcome(INITIAL, MeaningAll(items))
    decreases |items|
  {
    hide Run, Written, Meaning, Supported;
    if items == [] {
      RunNone(INITIAL);
    } else {
      CommandRun(items[0].command, items[0].eightBit);
      ParseInvertsPrint(items[1..]);
      RunConcat(INITIAL, Written(items[0].command, items[0].eightBit), WrittenAll(items[1..]));
    }
  }

  // ---- The exception ----

  /** A character is printed exactly if none of its bytes is taken for an introducer. */
  lemma CharacterPrintedExactly(c: CodePoint)
    requires Utf8.IsScalar(c) && !IsC0(c)
    ensures Run(INITIAL, Utf8Theorems.Encode(c)) == Outcome(INITIAL, [Print(c)]) <==> !Hazardous(c)
  {
    hide Run, Utf8Theorems.Encode, Hazardous;
    if !Hazardous(c) {
      CharacterRun(c);
    } else {
      HazardousCut(c);
    }
  }

  predicate NoControls(cs: seq<Utf8.Scalar>) {
    forall i :: 0 <= i < |cs| ==> !IsC0(cs[i])
  }

  lemma PrintsNone()
    ensures Prints([]) == []
  {
  }

  lemma {:induction false} SafeTextRun(cs: seq<Utf8.Scalar>)
    requires NoControls(cs) && forall i :: 0 <= i < |cs| ==> !Hazardous(cs[i])
    ensures Run(INITIAL, Utf8Theorems.EncodeAll(cs)) == Outcome(INITIAL, Prints(cs))
    decreases |cs|
  {
    hide Run, Utf8Theorems.Encode, Hazardous, Prints;
    if cs == [] {
      RunNone(INITIAL);
      PrintsNone();
    } else {
      CharacterRun(cs[0]);
      SafeTextRun(cs[1..]);
      RunConcat(INITIAL, Utf8Theorems.Encode(cs[0]), Utf8Theorems.EncodeAll(cs[1..]));
      PrintsFirst(cs);
    }
  }

  /** Where text holds a hazard, its first hazardous character does not come out. */
  lemma {:induction false} HazardCutsText(cs: seq<Utf8.Scalar>)
    requires NoControls(cs) && exists i :: 0 <= i < |cs| && Hazardous(cs[i])
    ensures Run(INITIAL, Utf8Theorems.EncodeAll(cs)).ops != Prints(cs)
    decreases |cs|
  {
    hide Run, Utf8Theorems.Encode, Hazardous;
    var c, rest := cs[0], Utf8Theorems.EncodeAll(cs[1..]);
    var first := Run(INITIAL, Utf8Theorems.Encode(c));
    RunConcat(INITIAL, Utf8Theorems.Encode(c), rest);
    if Hazardous(c) {
      HazardousCut(c);
      assert (first.ops + Run(first.parser, rest).ops)[0] == first.ops[0];
    } else {
      CharacterRun(c);
      var i :| 0 <= i < |cs| && Hazardous(cs[i]);
      assert Hazardous(cs[1..][i - 1]);
      HazardCutsText(cs[1..]);
      var ops := Run(INITIAL, rest).ops;
      assert ([Print(c)] + ops)[1..] == ops;
      PrintsFirst(cs);
      assert Prints(cs)[1..] == Prints(cs[1..]);
    }
  }

  lemma HazardousCut(c: Utf8.Scalar)
    requires !IsC0(c) && Hazardous(c)
    ensures var ops := Run(INITIAL, Utf8Theorems.Encode(c)).ops;
            |ops| >= 1 && ops[0] == Print(REPLACEMENT_CHARACTER) && c != REPLACEMENT_CHARACTER
  {
    hide Run, Utf8Theorems.Encode;
    var i := FirstHazard(Utf8Theorems.Encode(c));
    HazardCuts(c, i);
  }

  /** Text without controls is printed, and leaves the parser as new, exactly if no character is hazardous. */
  lemma TextPrintedExactly(cs: seq<Utf8.Scalar>)
    requires NoControls(cs)
    ensures Run(INITIAL, Utf8Theorems.EncodeAll(cs)) == Outcome(INITIAL, Prints(cs))
            <==> forall i :: 0 <= i < |cs| ==> !Hazardous(cs[i])
  {
    hide Run, Utf8Theorems.EncodeAll, Hazardous;
    if forall i :: 0 <= i < |cs| ==> !Hazardous(cs[i]) {
      SafeTextRun(cs);
    } else {
      HazardCutsText(cs);
    }
  }

  /** For one, U+00DB, written C3 9B: its second byte starts a control sequence. */
  lemma LostCharacter()
    ensures Run(INITIAL, Utf8Theorems.Encode(0xDB)) == Outcome(INITIAL.(state := Csi), [Print(REPLACEMENT_CHARACTER)])
  {
    hide Run;
    assert Utf8Theorems.Encode(0xDB) == [0xC3, 0x9B];
    RunTwo(INITIAL, 0xC3, 0x9B);
  }

  lemma {:induction false} FirstHazard(bytes: seq<Byte>) returns (i: nat)
    requires exists i :: 0 <= i < |bytes| && Hazard(bytes[i])
    ensures i < |bytes| && Hazard(bytes[i]) && forall k :: 0 <= k < i ==> !Hazard(bytes[k])
    decreases |bytes|
  {
    if Hazard(bytes[0]) {
      i := 0;
    } else {
      assert exists k :: 0 <= k < |bytes[1..]| && Hazard(bytes[1..][k]) by {
        var k :| 0 <= k < |bytes| && Hazard(bytes[k]);
        assert bytes[1..][k - 1] == bytes[k];
      }
      var j := FirstHazard(bytes[1..]);
      i := j + 1;
      assert forall k :: 1 <= k < i ==> bytes[k] == bytes[1..][k - 1];
    }
  }

  /** The hazard interrupts the character: U+FFFD is printed before anything else. */
  lemma HazardCuts(c: CodePoint, i: nat)
    requires Utf8.IsScalar(c) && !IsC0(c) && i < |Utf8Theorems.Encode(c)|
    requires Hazard(Utf8Theorems.Encode(c)[i]) && forall k :: 0 <= k < i ==> !Hazard(Utf8Theorems.Encode(c)[k])
    ensures var ops := Run(INITIAL, Utf8Theorems.Encode(c)).ops;
            |ops| >= 1 && ops[0] == Print(REPLACEMENT_CHARACTER) && c != REPLACEMENT_CHARACTER
  {
    hide Run, Utf8.DecodeAll;
    var e := Utf8Theorems.Encode(c);
    var before, rest := e[..i], e[i + 1..];
    PlainCharacter(c);
    assert Plain(before);
    PlainTextIsDecoded(INITIAL, before);
    CutCharacter(c, i);
    var p := Run(INITIAL, before).parser;
    assert e == before + ([e[i]] + rest);
    RunConcat(INITIAL, before, [e[i]] + rest);
    RunConcat(p, [e[i]], rest);
    RunOne(p, e[i]);
    assert Prints([]) == [];
    assert Prints([REPLACEMENT_CHARACTER]) == [Print(REPLACEMENT_CHARACTER)];
    assert Step(p, e[i]).ops == [Print(REPLACEMENT_CHARACTER)];
  }

  lemma CutCharacter(c: CodePoint, i: nat)
    requires Utf8.IsScalar(c) && i < |Utf8Theorems.Encode(c)| && Hazard(Utf8Theorems.Encode(c)[i])
    ensures i >= 1 && c != REPLACEMENT_CHARACTER
    ensures var cut := Utf8.DecodeAll(Utf8.IDLE, Utf8Theorems.Encode(c)[..i]);
            cut.emitted == [] && cut.decoder.remaining > 0
  {
    var e := Utf8Theorems.Encode(c);
    assert e[0] >= 0xC0;
    Utf8Theorems.EncodedValue(c);
    Utf8Theorems.DecodeShortSegment(e[..i]);
  }
}
