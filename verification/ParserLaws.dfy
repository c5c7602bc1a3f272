/** What every configuration of the parser satisfies, what it cannot show, and what it lets through. */
module ParserLaws {
  import opened Types
  import opened Sequences
  import opened Parameters
  import opened ParserModel
  import Utf8 = Utf8Model
  import TerminalModel

  // ---- Invariant ----

  /** The decoder rests outside Ground; buffers are bounded; parameters live in Csi only. */
  predicate Sound(p: Parser) {
    && (p.state != Ground ==> p.decoder == Utf8.IDLE)
    && |p.parameters| <= MAXIMUM_SEQUENCE_BYTES
    && |p.payload| <= MAXIMUM_SEQUENCE_BYTES
    && (p.state != Csi ==> p.parameters == [])
    && (p.privateMode <==> p.parameters != [] && p.parameters[0] == QUESTION_MARK)
  }

  lemma StepKeepsSound(p: Parser, b: Byte)
    requires Sound(p)
    ensures Sound(Step(p, b).parser)
  {
    hide Dispatch, ExecuteOsc, Prints;
  }

  /** From a new parser on, every byte stream keeps the configuration sound. */
  lemma {:induction false} RunKeepsSound(p: Parser, bytes: seq<Byte>)
    requires Sound(p)
    ensures Sound(Run(p, bytes).parser)
    decreases |bytes|
  {
    hide Step, Sound;
    if bytes != [] {
      StepKeepsSound(p, bytes[0]);
      RunKeepsSound(Step(p, bytes[0]).parser, bytes[1..]);
    }
  }

  // ---- Stale buffers cannot be observed ----

  /** Agreement on what the current state can still use. */
  predicate Agree(p: Parser, q: Parser) {
    && p.state == q.state
    && p.decoder == q.decoder
    && (p.state == Csi ==> p.parameters == q.parameters && p.privateMode == q.privateMode)
    && (p.state == Osc || p.state == OscEscape ==> p.payload == q.payload)
  }

  lemma StepAgrees(p: Parser, q: Parser, b: Byte)
    requires Agree(p, q)
    ensures Step(p, b).ops == Step(q, b).ops && Agree(Step(p, b).parser, Step(q, b).parser)
  {
    hide Dispatch, ExecuteOsc, Prints, Utf8.Step, Utf8.Flush, Utf8.ValidState, IsC0, IsParameterByte, IsFinalByte, IsIntermediateByte;
  }

  lemma FlushAgrees(p: Parser, q: Parser)
    requires Agree(p, q)
    ensures ParserModel.Flush(p).ops == ParserModel.Flush(q).ops
    ensures Agree(ParserModel.Flush(p).parser, ParserModel.Flush(q).parser)
    ensures Agree(ParserModel.Reset(p), INITIAL)
  {
  }

  /** Configurations that agree call the same operations on every future input. */
  lemma {:induction false} RunAgrees(p: Parser, q: Parser, bytes: seq<Byte>)
    requires Agree(p, q)
    ensures Run(p, bytes).ops == Run(q, bytes).ops && Agree(Run(p, bytes).parser, Run(q, bytes).parser)
    decreases |bytes|
  {
    hide Step, Agree;
    if bytes != [] {
      StepAgrees(p, q, bytes[0]);
      RunAgrees(Step(p, bytes[0]).parser, Step(q, bytes[0]).parser, bytes[1..]);
    }
  }

  /** In Ground with the decoder at rest, whatever is left in the buffers, the parser is as good as new. */
  lemma GroundIsAsNew(p: Parser, bytes: seq<Byte>)
    requires p.state == Ground && p.decoder == Utf8.IDLE
    ensures Run(p, bytes).ops == Run(INITIAL, bytes).ops
  {
    RunAgrees(p, INITIAL, bytes);
  }

  /** CAN and SUB abandon anything: the rest of the stream meets a new parser. */
  lemma CancelRestarts(p: Parser, cancel: Byte, rest: seq<Byte>)
    requires cancel == CAN || cancel == SUB
    ensures Run(p, [cancel] + rest) ==
            Outcome(Run(INITIAL, rest).parser, Prints(Utf8.Flush(p.decoder)) + Run(INITIAL, rest).ops)
  {
    assert ([cancel] + rest)[1..] == rest;
    assert Step(p, cancel).parser == INITIAL;
  }

  /** So does a flush: an unfinished character yields U+FFFD, and the rest of the stream meets a new parser. */
  lemma FlushRestarts(p: Parser, rest: seq<Byte>)
    requires Sound(p)
    ensures var flushed := ParserModel.Flush(p);
            && flushed.ops == (if p.decoder.remaining > 0 then [Print(0xFFFD)] else [])
            && Run(flushed.parser, rest).ops == Run(INITIAL, rest).ops
            && Run(ParserModel.Reset(p), rest).ops == Run(INITIAL, rest).ops
  {
    hide Run;
    GroundIsAsNew(ParserModel.Flush(p).parser, rest);
    GroundIsAsNew(ParserModel.Reset(p), rest);
  }

  // ---- Bounds on what reaches the terminal ----

  predicate Bounded(op: Op) {
    match op
    case Print(c) => Utf8.IsScalar(c)
    case ExecuteControl(control) => IsC0(control)
    case CursorUp(n) => 1 <= n < 0x8000_0000
    case CursorDown(n) => 1 <= n < 0x8000_0000
    case CursorForward(n) => 1 <= n < 0x8000_0000
    case CursorBack(n) => 1 <= n < 0x8000_0000
    case CursorPosition(row, column) => row < 0x7FFF_FFFF && column < 0x7FFF_FFFF
    case EraseInDisplay(mode) => mode < 0x8000_0000
    case EraseInLine(mode) => mode < 0x8000_0000
    case SetGraphicsRendition(ps) => BoundedParameters(ps)
    case SetPrivateMode(ps, _) => BoundedParameters(ps)
    case SetTitle(title) => |title| <= 4094
    case SaveCursor => true
    case RestoreCursor => true
    case Reset => true
  }

  predicate BoundedParameters(ps: seq<int>) {
    |ps| <= 32 && forall i :: 0 <= i < |ps| ==> IsInt32(ps[i])
  }

  lemma {:induction false} FieldValuesBounded(fields: seq<seq<Byte>>, limit: nat)
    ensures forall i :: 0 <= i < |FieldValues(fields, limit)| ==> IsInt32(FieldValues(fields, limit)[i])
    decreases limit
  {
    hide FieldValue;
    if fields != [] && limit > 0 {
      FieldValuesBounded(fields[1..], limit - 1);
    }
  }

  lemma ParametersBounded(buffer: seq<Byte>)
    ensures BoundedParameters(ParseParameters(buffer))
  {
    hide Split, FieldValues;
    if buffer != [] {
      FieldValuesBounded(Split(if buffer[0] == QUESTION_MARK then buffer[1..] else buffer), MAXIMUM_PARAMETER_COUNT);
    }
  }

  lemma DispatchBounded(buffer: seq<Byte>, privateMode: bool, final: Byte)
    ensures forall op :: op in Dispatch(buffer, privateMode, final) ==> Bounded(op)
  {
    hide ParseParameters;
    ParametersBounded(buffer);
  }

  lemma StepBounded(p: Parser, b: Byte)
    requires Sound(p)
    ensures forall op :: op in Step(p, b).ops ==> Bounded(op)
  {
    hide Dispatch;
    DispatchBounded(p.parameters, p.privateMode, b);
  }

  /**
    Whatever bytes arrive, every operation is within bounds: scalar values only, counts of a 32-bit
    integer, at most 32 parameters, titles that fit the buffer.
   */
  lemma {:induction false} RunBounded(p: Parser, bytes: seq<Byte>)
    requires Sound(p)
    ensures forall op :: op in Run(p, bytes).ops ==> Bounded(op)
    decreases |bytes|
  {
    hide Step, Sound, Bounded;
    if bytes != [] {
      StepBounded(p, bytes[0]);
      StepKeepsSound(p, bytes[0]);
      RunBounded(Step(p, bytes[0]).parser, bytes[1..]);
    }
  }

  /** On grids with sides below 2^31, bounded counts never wrap a 64-bit sum: the cursor stops at the edge. */
  lemma CountsNeverWrap(t: TerminalModel.Terminal, op: Op)
    requires TerminalModel.WellFormed(t) && t.rows < 0x8000_0000 && t.columns < 0x8000_0000 && Bounded(op)
    ensures op.CursorDown? ==>
            TerminalModel.Apply(t, op).cursor == t.cursor.(row := Min(t.cursor.row + op.count, t.rows - 1))
    ensures op.CursorForward? ==>
            TerminalModel.Apply(t, op).cursor == t.cursor.(column := Min(t.cursor.column + op.count, t.columns - 1))
  {
  }

  // ---- C0 controls pass through ----

  function Strip(bytes: seq<Byte>): seq<Byte> {
    if bytes == [] then []
    else (if IsC0(bytes[0]) then [] else [bytes[0]]) + Strip(bytes[1..])
  }

  /** The operations that the C0 controls of a byte string call by themselves. */
  function ControlOps(bytes: seq<Byte>): seq<Op> {
    if bytes == [] then []
    else (if IsC0(bytes[0]) then [ExecuteControl(bytes[0])] else []) + ControlOps(bytes[1..])
  }

  function Controls(ops: seq<Op>): seq<Op> {
    if ops == [] then [] else (if ops[0].ExecuteControl? then [ops[0]] else []) + Controls(ops[1..])
  }

  function Others(ops: seq<Op>): seq<Op> {
    if ops == [] then [] else (if ops[0].ExecuteControl? then [] else [ops[0]]) + Others(ops[1..])
  }

  function SelectOne(op: Op, control: bool): seq<Op> {
    if op.ExecuteControl? == control then [op] else []
  }

  lemma SelectFirst(op: Op, rest: seq<Op>)
    ensures Controls([op] + rest) == SelectOne(op, true) + Controls(rest)
    ensures Others([op] + rest) == SelectOne(op, false) + Others(rest)
  {
    assert ([op] + rest)[1..] == rest;
  }

  lemma {:induction false} SelectConcat(a: seq<Op>, b: seq<Op>)
    ensures Controls(a + b) == Controls(a) + Controls(b) && Others(a + b) == Others(a) + Others(b)
    decreases |a|
  {
    if a == [] {
      EmptyFirst(b);
    } else {
      hide Controls, Others, SelectOne;
      var op, rest := a[0], a[1..];
      assert a == [op] + rest && a + b == [op] + (rest + b);
      SelectConcat(rest, b);
      SelectFirst(op, rest);
      SelectFirst(op, rest + b);
      AppendAssoc(SelectOne(op, true), Controls(rest), Controls(b));
      AppendAssoc(SelectOne(op, false), Others(rest), Others(b));
    }
  }

  lemma {:induction false} OnlyOthers(ops: seq<Op>)
    requires NoControl(ops)
    ensures Controls(ops) == [] && Others(ops) == ops
    decreases |ops|
  {
    if ops != [] {
      OnlyOthers(ops[1..]);
    }
  }

  /** A byte that neither starts nor abandons a sequence. */
  predicate PlainByte(b: Byte) {
    b != ESC && b != CAN && b != SUB && b != CSI && b != OSC && b != DCS
  }

  predicate Plain(bytes: seq<Byte>) {
    forall i :: 0 <= i < |bytes| ==> PlainByte(bytes[i])
  }

  predicate NoControl(ops: seq<Op>) {
    forall i :: 0 <= i < |ops| ==> !ops[i].ExecuteControl?
  }

  lemma DispatchNoControl(buffer: seq<Byte>, privateMode: bool, final: Byte)
    ensures NoControl(Dispatch(buffer, privateMode, final))
  {
    hide ParseParameters, Count, EraseMode;
  }

  lemma PlainStep(p: Parser, b: Byte)
    requires p.state == Ground || p.state == Csi
    requires PlainByte(b)
    ensures var step := Step(p, b);
            && (step.parser.state == Ground || step.parser.state == Csi)
            && (if IsC0(b) then step == Outcome(p, [ExecuteControl(b)]) else NoControl(step.ops))
  {
    hide Dispatch, Utf8.Step;
    DispatchNoControl(p.parameters, p.privateMode, b);
  }

  /**
    In text and inside a control sequence, C0 controls act at once and are otherwise invisible:
    without them the parser ends in the same configuration and calls the same other operations.
   */
  lemma {:induction false} ControlsAreTransparent(p: Parser, bytes: seq<Byte>)
    requires (p.state == Ground || p.state == Csi) && Plain(bytes)
    ensures var run, stripped := Run(p, bytes), Run(p, Strip(bytes));
            && run.parser == stripped.parser
            && Others(run.ops) == stripped.ops
            && Controls(run.ops) == ControlOps(bytes)
    decreases |bytes|
  {
    hide Step;
    if bytes != [] {
      var step := Step(p, bytes[0]);
      var rest := Run(step.parser, bytes[1..]);
      PlainStep(p, bytes[0]);
      ControlsAreTransparent(step.parser, bytes[1..]);
      SelectConcat(step.ops, rest.ops);
      if !IsC0(bytes[0]) {
        OnlyOthers(step.ops);
        assert ([bytes[0]] + Strip(bytes[1..]))[1..] == Strip(bytes[1..]);
        assert [] + ControlOps(bytes[1..]) == ControlOps(bytes[1..]);
      } else {
        OneControl(bytes[0], rest.ops);
        EmptyFirst(Strip(bytes[1..]));
      }
    }
  }

  lemma OneControl(b: Byte, rest: seq<Op>)
    ensures Controls([ExecuteControl(b)]) == [ExecuteControl(b)] && Others([ExecuteControl(b)]) + Others(rest) == Others(rest)
  {
    assert [ExecuteControl(b)][1..] == [];
  }

  /** In Ground, what is printed is the decoder's output on the text without its controls. */
  lemma {:induction false} PlainTextIsDecoded(p: Parser, bytes: seq<Byte>)
    requires p.state == Ground && Plain(bytes) && forall i :: 0 <= i < |bytes| ==> !IsC0(bytes[i])
    ensures var decoded := Utf8.DecodeAll(p.decoder, bytes);
            Run(p, bytes) == Outcome(p.(decoder := decoded.decoder), Prints(decoded.emitted))
    decreases |bytes|
  {
    hide Utf8.Step;
    if bytes != [] {
      var step := Utf8.Step(p.decoder, bytes[0]);
      PlainTextIsDecoded(p.(decoder := step.decoder), bytes[1..]);
      PrintsConcat(step.emitted, Utf8.DecodeAll(step.decoder, bytes[1..]).emitted);
    } else {
      assert Prints([]) == [];
    }
  }

  lemma PrintsConcat(a: seq<CodePoint>, b: seq<CodePoint>)
    ensures Prints(a + b) == Prints(a) + Prints(b)
  {
  }

  lemma {:induction false} StripIsPlain(bytes: seq<Byte>)
    ensures forall i :: 0 <= i < |Strip(bytes)| ==> !IsC0(Strip(bytes)[i])
    ensures Plain(bytes) ==> Plain(Strip(bytes))
    decreases |bytes|
  {
    if bytes != [] {
      StripIsPlain(bytes[1..]);
    }
  }

  /** Text with controls in it: both parts at once. */
  lemma ControlsInText(p: Parser, bytes: seq<Byte>)
    requires p.state == Ground && Plain(bytes)
    ensures var run := Run(p, bytes);
            && Others(run.ops) == Prints(Utf8.DecodeAll(p.decoder, Strip(bytes)).emitted)
            && Controls(run.ops) == ControlOps(bytes)
  {
    hide Run, Plain, Strip;
    ControlsAreTransparent(p, bytes);
    StripIsPlain(bytes);
    PlainTextIsDecoded(p, Strip(bytes));
  }

  /** The bytes that end text: the four introducers, and CAN and SUB. */
  const INTERRUPTERS := {0x1B, 0x9B, 0x9D, 0x90, 0x18, 0x1A}

  /** Text that one of them ends is printed whole: a character cut off by it comes out as U+FFFD. */
  lemma InterruptedText(bytes: seq<Byte>, b: Byte)
    requires Plain(bytes) && (forall i :: 0 <= i < |bytes| ==> !IsC0(bytes[i])) && b in INTERRUPTERS
    ensures Run(INITIAL, bytes + [b]).ops == Prints(Utf8.DecodeText(bytes))
    ensures Run(INITIAL, bytes).ops + ParserModel.Flush(Run(INITIAL, bytes).parser).ops == Prints(Utf8.DecodeText(bytes))
  {
    hide Run, Utf8.DecodeAll, Prints, Plain;
    PlainTextIsDecoded(INITIAL, bytes);
    RunSnoc(INITIAL, bytes, b);
    var decoded := Utf8.DecodeAll(Utf8.IDLE, bytes);
    PrintsConcat(decoded.emitted, Utf8.Flush(decoded.decoder));
  }

  /** Of the seven-bit bytes, the graphic ones are printed and the others executed, except ESC, CAN and SUB. */
  lemma SevenBitBytes(b: Byte)
    requires 0 <= b < 0x80 && b != 0x1B && b != 0x18 && b != 0x1A
    ensures Run(INITIAL, [b]) == Outcome(INITIAL, [if 0x20 <= b < 0x7F then Print(b) else ExecuteControl(b)])
  {
    hide Run;
    RunOne(INITIAL, b);
    assert Prints([b]) == [Print(b)];
  }

  /** Behind an introducer of a control sequence: which bytes go on collecting, and which end it. */
  lemma SequenceBytes(p: Parser, b: Byte)
    requires p.state == Csi && |p.parameters| < 4096 && 0 <= b < 0x100
    ensures Step(p, b).parser.state == if (b < 0x40 && b != 0x18 && b != 0x1A) || b == 0x7F then Csi else Ground
  {
    hide Dispatch;
  }

  // ---- Collecting parameters ----

  /** The part of a control sequence before its final byte, with any controls mixed in, ESC too. */
  predicate CollectedByte(b: Byte) {
    (IsC0(b) && b != CAN && b != SUB) || IsParameterByte(b) || IsIntermediateByte(b)
  }

  /** The buffer collects exactly the bytes that are not controls. */
  lemma {:induction false} Collects(p: Parser, bytes: seq<Byte>)
    requires p.state == Csi && Sound(p) && forall i :: 0 <= i < |bytes| ==> CollectedByte(bytes[i])
    requires |p.parameters| + |Strip(bytes)| <= MAXIMUM_SEQUENCE_BYTES
    ensures var buffer := p.parameters + Strip(bytes);
            Run(p, bytes) == Outcome(p.(parameters := buffer,
                                        privateMode := buffer != [] && buffer[0] == QUESTION_MARK),
                                     ControlOps(bytes))
    decreases |bytes|
  {
    hide Dispatch, Step;
    if bytes == [] {
      assert p.parameters + [] == p.parameters;
    } else {
      CollectOne(p, bytes[0]);
      StepKeepsSound(p, bytes[0]);
      var next := Step(p, bytes[0]).parser;
      Collects(next, bytes[1..]);
      AppendAssoc(p.parameters, if IsC0(bytes[0]) then [] else [bytes[0]], Strip(bytes[1..]));
    }
  }

  lemma CollectOne(p: Parser, b: Byte)
    requires p.state == Csi && Sound(p) && CollectedByte(b)
    requires IsC0(b) || |p.parameters| < MAXIMUM_SEQUENCE_BYTES
    ensures var buffer := p.parameters + if IsC0(b) then [] else [b];
            Step(p, b) == Outcome(p.(parameters := buffer,
                                     privateMode := buffer != [] && buffer[0] == QUESTION_MARK),
                                  if IsC0(b) then [ExecuteControl(b)] else [])
  {
    assert p.parameters + [] == p.parameters;
  }

  /** No byte of these takes the parser out of Csi, though some may be dropped for want of room. */
  predicate StaysInCsi(p: Parser, bytes: seq<Byte>) {
    forall n :: 0 <= n <= |bytes| ==> Run(p, bytes[..n]).parser.state == Csi
  }

  lemma StaysFurther(p: Parser, bytes: seq<Byte>)
    requires StaysInCsi(p, bytes)
    ensures p.state == Csi
    ensures bytes != [] ==> StaysInCsi(Step(p, bytes[0]).parser, bytes[1..])
  {
    hide Step, Run;
    assert bytes[..0] == [];
    RunNone(p);
    if bytes != [] {
      var next := Step(p, bytes[0]).parser;
      forall n | 0 <= n <= |bytes[1..]|
        ensures Run(next, bytes[1..][..n]).parser.state == Csi
      {
        assert bytes[..n + 1] == [bytes[0]] + bytes[1..][..n];
        RunConcat(p, [bytes[0]], bytes[1..][..n]);
        RunOne(p, bytes[0]);
      }
    }
  }

  lemma StepInCsi(p: Parser, b: Byte)
    requires p.state == Csi && Step(p, b).parser.state == Csi
    ensures if IsC0(b) then Step(p, b) == Outcome(p, [ExecuteControl(b)]) else Step(p, b).ops == []
  {
    hide Dispatch;
  }

  lemma {:induction false} ControlsWithinCsi(p: Parser, bytes: seq<Byte>)
    requires StaysInCsi(p, bytes)
    ensures Run(p, bytes).ops == ControlOps(bytes)
    ensures Run(p, Strip(bytes)) == Outcome(Run(p, bytes).parser, [])
    decreases |bytes|
  {
    hide Step, StaysInCsi;
    StaysFurther(p, bytes);
    if bytes != [] {
      var b, rest := bytes[0], bytes[1..];
      var next := Step(p, b).parser;
      StaysFurther(next, rest);
      StepInCsi(p, b);
      ControlsWithinCsi(next, rest);
      EmptyFirst(ControlOps(rest));
      if IsC0(b) {
        EmptyFirst(Strip(rest));
      } else {
        assert ([b] + Strip(rest))[1..] == Strip(rest);
      }
    }
  }

  /**
    Inside a control sequence, however long, C0 controls, ESC too, are executed and do not change what
    the sequence does: whatever byte follows acts as it does without them.
   */
  lemma ControlsInsideSequence(p: Parser, bytes: seq<Byte>, next: Byte)
    requires StaysInCsi(p, bytes)
    ensures var run, stripped := Run(p, bytes + [next]), Run(p, Strip(bytes) + [next]);
            run.parser == stripped.parser && run.ops == ControlOps(bytes) + stripped.ops
  {
    hide Run, Step, Strip, StaysInCsi;
    ControlsWithinCsi(p, bytes);
    RunSnoc(p, bytes, next);
    RunSnoc(p, Strip(bytes), next);
    EmptyFirst(Step(Run(p, bytes).parser, next).ops);
  }
}
