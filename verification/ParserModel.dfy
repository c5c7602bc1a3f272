/**
  The control-sequence parser as a function on values: one step per byte, which yields the next
  configuration and the operations called on the terminal, in order.
 */
module ParserModel {
  import opened Types
  import opened Parameters
  import Utf8 = Utf8Model

  const ESC: Byte := 0x1B
  const BEL: Byte := 0x07
  const CAN: Byte := 0x18
  const SUB: Byte := 0x1A
  const CSI: Byte := 0x9B
  const OSC: Byte := 0x9D
  const DCS: Byte := 0x90
  const ST: Byte := 0x9C
  const BACKSLASH: Byte := 0x5C

  const MAXIMUM_SEQUENCE_BYTES: nat := 4096

  predicate IsC0(b: Byte) {
    b < 0x20 || b == 0x7F
  }

  predicate IsParameterByte(b: Byte) {
    0x30 <= b <= 0x3F
  }

  predicate IsIntermediateByte(b: Byte) {
    0x20 <= b <= 0x2F
  }

  predicate IsFinalByte(b: Byte) {
    0x40 <= b <= 0x7E
  }

  datatype State = Ground | Escape | Csi | Osc | OscEscape | String | StringEscape

  datatype Parser = Parser(
    state: State,
    decoder: Utf8.Decoder,
    parameters: seq<Byte>,
    payload: seq<Byte>,
    privateMode: bool)

  const INITIAL := Parser(Ground, Utf8.IDLE, [], [], false)

  datatype Outcome = Outcome(parser: Parser, ops: seq<Op>)

  /** A change of state that empties the sequence buffers. */
  function Enter(p: Parser, state: State): Parser {
    p.(state := state, parameters := [], payload := [], privateMode := false)
  }

  /** The decoder is flushed, then the state changes and the buffers are emptied. */
  function FlushInto(p: Parser, state: State): Outcome {
    Outcome(Enter(p, state).(decoder := Utf8.IDLE), Prints(Utf8.Flush(p.decoder)))
  }

  function Step(p: Parser, b: Byte): Outcome {
    if b == CAN || b == SUB then FlushInto(p, Ground)
    else
      match p.state
      case Ground => GroundStep(p, b)
      case Escape => EscapeStep(p, b)
      case Csi => CsiStep(p, b)
      case Osc => OscStep(p, b)
      case OscEscape => OscEscapeStep(p, b)
      case String => StringStep(p, b)
      case StringEscape => Outcome(p.(state := if b == BACKSLASH then Ground else String), [])
  }

  function GroundStep(p: Parser, b: Byte): Outcome {
    if b == ESC then
      Outcome(p.(state := Escape, decoder := Utf8.IDLE), Prints(Utf8.Flush(p.decoder)))
    else if b == CSI then FlushInto(p, Csi)
    else if b == OSC then FlushInto(p, Osc)
    else if b == DCS then FlushInto(p, String)
    else if IsC0(b) then Outcome(p, [ExecuteControl(b)])
    else
      var decoded := Utf8.Step(p.decoder, b);
      Outcome(p.(decoder := decoded.decoder), Prints(decoded.emitted))
  }

  function EscapeStep(p: Parser, b: Byte): Outcome {
    var ground := p.(state := Ground);
    match b
    case 0x5B => Outcome(Enter(p, Csi), [])
    case 0x5D => Outcome(Enter(p, Osc), [])
    case 0x50 => Outcome(Enter(p, String), [])
    case 0x5E => Outcome(Enter(p, String), [])
    case 0x5F => Outcome(Enter(p, String), [])
    case 0x37 => Outcome(ground, [SaveCursor])
    case 0x38 => Outcome(ground, [RestoreCursor])
    case 0x63 => Outcome(ground, [Op.Reset])
    case 0x44 => Outcome(ground, [ExecuteControl(0x0A)])
    case 0x45 => Outcome(ground, [ExecuteControl(0x0A), ExecuteControl(0x0D)])
    case _ => Outcome(ground, [])
  }

  function CsiStep(p: Parser, b: Byte): Outcome {
    if b == QUESTION_MARK && p.parameters == [] then
      Outcome(p.(privateMode := true, parameters := [b]), [])
    else if IsC0(b) then Outcome(p, [ExecuteControl(b)])
    else if IsParameterByte(b) then
      if |p.parameters| < MAXIMUM_SEQUENCE_BYTES then Outcome(p.(parameters := p.parameters + [b]), [])
      else Outcome(Enter(p, Ground), [])
    else if IsIntermediateByte(b) then
      if |p.parameters| < MAXIMUM_SEQUENCE_BYTES then Outcome(p.(parameters := p.parameters + [b]), [])
      else Outcome(p, [])
    else
      Outcome(Enter(p, Ground), if IsFinalByte(b) then Dispatch(p.parameters, p.privateMode, b) else [])
  }

  /** A parameter that counts from one: absent, empty and zero mean one. */
  function Count(values: seq<int>, index: nat): (n: nat)
    ensures n >= 1
  {
    var value := ParameterOrDefault(values, index, 1);
    if value < 1 then 1 else value
  }

  function EraseMode(values: seq<int>): nat {
    var value := ParameterOrDefault(values, 0, 0);
    if value < 0 then 0 else value
  }

  function Dispatch(buffer: seq<Byte>, privateMode: bool, final: Byte): seq<Op> {
    var values := ParseParameters(buffer);
    match final
    case 0x41 => [CursorUp(Count(values, 0))]
    case 0x42 => [CursorDown(Count(values, 0))]
    case 0x43 => [CursorForward(Count(values, 0))]
    case 0x44 => [CursorBack(Count(values, 0))]
    case 0x48 => [CursorPosition(Count(values, 0) - 1, Count(values, 1) - 1)]
    case 0x66 => [CursorPosition(Count(values, 0) - 1, Count(values, 1) - 1)]
    case 0x4A => [EraseInDisplay(EraseMode(values))]
    case 0x4B => [EraseInLine(EraseMode(values))]
    case 0x6D => [SetGraphicsRendition(values)]
    case 0x68 => if privateMode then [SetPrivateMode(values, true)] else []
    case 0x6C => if privateMode then [SetPrivateMode(values, false)] else []
    case 0x73 => [SaveCursor]
    case 0x75 => [RestoreCursor]
    case _ => []
  }

  datatype Option<T> = None | Some(value: T)

  /** The part before the first semicolon must be "0" or "2"; the part behind it is the title. */
  function TitleOf(payload: seq<Byte>): Option<seq<Byte>> {
    if |payload| >= 2 && (payload[0] == 0x30 || payload[0] == 0x32) && payload[1] == SEMICOLON then Some(payload[2..])
    else None
  }

  function ExecuteOsc(payload: seq<Byte>): seq<Op> {
    match TitleOf(payload)
    case Some(title) => [SetTitle(title)]
    case None => []
  }

  function OscStep(p: Parser, b: Byte): Outcome {
    if b == BEL || b == ST then Outcome(Enter(p, Ground), ExecuteOsc(p.payload))
    else if b == ESC then Outcome(p.(state := OscEscape), [])
    else if |p.payload| < MAXIMUM_SEQUENCE_BYTES then Outcome(p.(payload := p.payload + [b]), [])
    else Outcome(p.(state := String), [])
  }

  function OscEscapeStep(p: Parser, b: Byte): Outcome {
    if b == BACKSLASH then Outcome(Enter(p, Ground), ExecuteOsc(p.payload))
    else if |p.payload| + 2 <= MAXIMUM_SEQUENCE_BYTES then
      Outcome(p.(state := Osc, payload := p.payload + [ESC, b]), [])
    else Outcome(p.(state := String), [])
  }

  function StringStep(p: Parser, b: Byte): Outcome {
    if b == ESC then Outcome(p.(state := StringEscape), [])
    else if b == ST then Outcome(p.(state := Ground), [])
    else Outcome(p, [])
  }

  // ---- The two actions besides feeding bytes, and runs ----

  /** The end of input, as far as is known. */
  function Flush(p: Parser): Outcome {
    var decoded := p.(decoder := Utf8.IDLE);
    Outcome(if p.state != Ground then Enter(decoded, Ground) else decoded, Prints(Utf8.Flush(p.decoder)))
  }

  function Reset(p: Parser): Parser {
    Enter(p, Ground).(decoder := Utf8.IDLE)
  }

  function Run(p: Parser, bytes: seq<Byte>): Outcome
    decreases |bytes|
  {
    if bytes == [] then Outcome(p, [])
    else
      var first := Step(p, bytes[0]);
      var rest := Run(first.parser, bytes[1..]);
      Outcome(rest.parser, first.ops + rest.ops)
  }

  lemma {:induction false} RunConcat(p: Parser, a: seq<Byte>, b: seq<Byte>)
    ensures var first := Run(p, a);
            var second := Run(first.parser, b);
            Run(p, a + b) == Outcome(second.parser, first.ops + second.ops)
    decreases |a|
  {
    hide Step;
    if a == [] {
      assert a + b == b;
    } else {
      RunConcat(Step(p, a[0]).parser, a[1..], b);
      assert (a + b)[1..] == a[1..] + b;
    }
  }

  lemma RunNone(p: Parser)
    ensures Run(p, []) == Outcome(p, [])
  {
  }

  lemma RunOne(p: Parser, b: Byte)
    ensures Run(p, [b]) == Step(p, b)
  {
    hide Step;
    var first := Step(p, b);
    assert [b][1..] == [];
    assert first.ops + [] == first.ops;
  }

  lemma RunSnoc(p: Parser, bytes: seq<Byte>, b: Byte)
    ensures var before := Run(p, bytes);
            var step := Step(before.parser, b);
            Run(p, bytes + [b]) == Outcome(step.parser, before.ops + step.ops)
  {
    hide Step, Run;
    RunConcat(p, bytes, [b]);
    RunOne(Run(p, bytes).parser, b);
  }
}
