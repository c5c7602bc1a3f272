/**
  The control-sequence parser, updated in place by each byte. It owns a decoder and calls the
  terminal directly; each method states the new configuration and the operations called, both as
  a list and by their effect on the terminal.
 */
module TerminalParserClass {
  import opened Types
  import opened Parameters
  import Model = ParserModel
  import Utf8 = Utf8Model
  import Terminal = TerminalModel
  import opened Utf8DecoderClass
  import opened TerminalStateClass

  class TerminalParser {
    const operations: TerminalState
    const decoder: Utf8Decoder
    var state: Model.State
    var parameters: seq<Byte>
    var oscPayload: seq<Byte>
    var privateMode: bool

    ghost predicate Valid()
      reads this, decoder, operations
    {
      decoder.Valid() && operations.Valid()
    }

    ghost function Value(): Model.Parser
      requires decoder.Valid()
      reads this, decoder
    {
      Model.Parser(state, decoder.Value(), parameters, oscPayload, privateMode)
    }

    /** Exactly these operations, in this order, have reached the terminal. */
    twostate predicate Called(new ops: seq<Op>)
      reads operations
    {
      && old(operations.Valid())
      && operations.Value() == Terminal.ApplyAll(old(operations.Value()), ops)
      && operations.Valid()
      && operations.log == old(operations.log) + ops
    }

    twostate lemma CalledOne(new op: Op)
      requires operations.Performed(op)
      ensures Called([op])
    {
      hide Terminal.WellFormed, Terminal.Apply;
      Terminal.ApplyNoneOrOne(old(operations.Value()));
    }

    twostate lemma CalledNone()
      requires operations.Valid() && operations.Value() == old(operations.Value()) && operations.log == old(operations.log)
      ensures Called([])
    {
      hide Terminal.WellFormed;
      assert operations.log + [] == operations.log;
    }

    /** The step from the old state to this one. */
    twostate predicate Did(new outcome: Model.Outcome)
      reads this, decoder, operations
    {
      && Valid()
      && Value() == outcome.parser
      && Called(outcome.ops)
    }

    constructor (terminal: TerminalState)
      requires terminal.Valid()
      ensures Valid() && operations == terminal && fresh(decoder)
      ensures Value() == Model.INITIAL
    {
      operations := terminal;
      decoder := new Utf8Decoder();
      state, parameters, oscPayload, privateMode := Model.Ground, [], [], false;
    }

    method Feed(bytes: seq<Byte>)
      requires Valid() && forall i :: 0 <= i < |bytes| ==> IsByte(bytes[i])
      modifies this, decoder, operations
      ensures Did(Model.Run(old(Value()), bytes))
    {
      hide Model.Step, Model.Run, Terminal.WellFormed, Terminal.Apply, Terminal.ApplyAll;
      ghost var start, terminal, log := Value(), operations.Value(), operations.log;
      assert bytes[..0] == [];
      assert log + [] == log;
      Model.RunNone(start);
      Terminal.ApplyNone(terminal);
      for index := 0 to |bytes|
        invariant Valid()
        invariant var done := Model.Run(start, bytes[..index]);
                  && Value() == done.parser
                  && operations.Value() == Terminal.ApplyAll(terminal, done.ops)
                  && operations.log == log + done.ops
      {
        ghost var done := Model.Run(start, bytes[..index]);
        ProcessByte(bytes[index]);
        assert bytes[..index + 1] == bytes[..index] + [bytes[index]];
        Model.RunSnoc(start, bytes[..index], bytes[index]);
        ghost var step := Model.Step(done.parser, bytes[index]);
        Terminal.ApplyAllConcat(terminal, done.ops, step.ops);
        assert log + done.ops + step.ops == log + (done.ops + step.ops);
      }
      assert bytes[..|bytes|] == bytes;
    }

    method Flush()
      requires Valid()
      modifies this, decoder, operations
      ensures Did(Model.Flush(old(Value())))
    {
      FlushDecoder();
      if state != Model.Ground {
        state := Model.Ground;
        ClearSequenceBuffers();
      }
    }

    /** The `reset` of the source. */
    method ResetParser()
      requires Valid()
      modifies this, decoder
      ensures Valid() && Value() == Model.Reset(old(Value()))
    {
      decoder.Clear();
      state := Model.Ground;
      ClearSequenceBuffers();
    }

    method ProcessByte(byte: Byte)
      requires Valid() && IsByte(byte)
      modifies this, decoder, operations
      ensures Did(Model.Step(old(Value()), byte))
    {
      if byte == Model.CAN || byte == Model.SUB {
        FlushDecoder();
        state := Model.Ground;
        ClearSequenceBuffers();
        return;
      }
      match state {
        case Ground => ProcessGround(byte);
        case Escape => ProcessEscape(byte);
        case Csi => ProcessCsi(byte);
        case Osc => ProcessOsc(byte);
        case OscEscape => ProcessOsc(byte);
        case String => ProcessString(byte);
        case StringEscape => ProcessString(byte);
      }
    }

    method ProcessGround(byte: Byte)
      requires Valid() && state == Model.Ground && IsByte(byte)
      modifies this, decoder, operations
      ensures Did(Model.GroundStep(old(Value()), byte))
    {
      if byte == Model.ESC {
        FlushDecoder();
        state := Model.Escape;
        return;
      }
      if byte == Model.CSI {
        FlushDecoder();
        EnterCsi();
        return;
      }
      if byte == Model.OSC {
        FlushDecoder();
        EnterOsc();
        return;
      }
      if byte == Model.DCS {
        FlushDecoder();
        EnterString();
        return;
      }
      if Model.IsC0(byte) {
        operations.ExecuteControl(byte);
        return;
      }
      var emitted := decoder.Feed(byte);
      EmitCodepoints(emitted);
    }

    method ProcessEscape(byte: Byte)
      requires Valid() && state == Model.Escape
      modifies this, operations
      ensures Did(Model.EscapeStep(old(Value()), byte))
    {
      Terminal.ApplyNoneOrOne(operations.Value());
      assert operations.log + [] == operations.log;
      state := Model.Ground;
      hide Terminal.WellFormed, Terminal.Apply;
      match byte {
        case 0x5B => EnterCsi();
        case 0x5D => EnterOsc();
        case 0x50 => EnterString();
        case 0x5E => EnterString();
        case 0x5F => EnterString();
        case 0x37 => operations.SaveCursor();
        case 0x38 => operations.RestoreCursor();
        case 0x63 => operations.ResetState();
        case 0x44 => operations.ExecuteControl(0x0A);
        case 0x45 =>
          operations.ExecuteControl(0x0A);
          operations.ExecuteControl(0x0D);
        case _ =>
      }
    }

    method ProcessCsi(byte: Byte)
      requires Valid() && state == Model.Csi
      modifies this, operations
      ensures Did(Model.CsiStep(old(Value()), byte))
    {
      if byte == QUESTION_MARK && parameters == [] {
        privateMode := true;
        parameters := parameters + [byte];
        return;
      }
      if Model.IsC0(byte) {
        operations.ExecuteControl(byte);
        return;
      }
      if Model.IsParameterByte(byte) {
        if |parameters| < Model.MAXIMUM_SEQUENCE_BYTES {
          parameters := parameters + [byte];
        } else {
          state := Model.Ground;
          ClearSequenceBuffers();
        }
        return;
      }
      if Model.IsIntermediateByte(byte) {
        if |parameters| < Model.MAXIMUM_SEQUENCE_BYTES {
          parameters := parameters + [byte];
        }
        return;
      }
      if Model.IsFinalByte(byte) {
        ExecuteCsi(byte);
      }
      state := Model.Ground;
      ClearSequenceBuffers();
    }

    method ProcessOsc(byte: Byte)
      requires Valid() && (state == Model.Osc || state == Model.OscEscape)
      modifies this, operations
      ensures Did(if old(state) == Model.Osc then Model.OscStep(old(Value()), byte)
                  else Model.OscEscapeStep(old(Value()), byte))
    {
      if state == Model.OscEscape {
        if byte == Model.BACKSLASH {
          FinishOsc();
          return;
        }
        if |oscPayload| + 2 <= Model.MAXIMUM_SEQUENCE_BYTES {
          oscPayload := oscPayload + [Model.ESC];
          oscPayload := oscPayload + [byte];
          state := Model.Osc;
        } else {
          state := Model.String;
        }
        return;
      }
      if byte == Model.BEL {
        FinishOsc();
        return;
      }
      if byte == Model.ESC {
        state := Model.OscEscape;
        return;
      }
      if byte == Model.ST {
        FinishOsc();
        return;
      }
      if |oscPayload| < Model.MAXIMUM_SEQUENCE_BYTES {
        oscPayload := oscPayload + [byte];
      } else {
        state := Model.String;
      }
    }

    /** The three places where a terminator completes the string. */
    method FinishOsc()
      requires Valid()
      modifies this, operations
      ensures Did(Model.Outcome(Model.Enter(old(Value()), Model.Ground), Model.ExecuteOsc(old(oscPayload))))
    {
      ExecuteOsc();
      state := Model.Ground;
      ClearSequenceBuffers();
    }

    method ProcessString(byte: Byte)
      requires Valid() && (state == Model.String || state == Model.StringEscape)
      modifies this`state
      ensures Valid()
      ensures Value() == if old(state) == Model.String then Model.StringStep(old(Value()), byte).parser
                         else old(Value()).(state := if byte == Model.BACKSLASH then Model.Ground else Model.String)
    {
      if state == Model.StringEscape {
        state := if byte == Model.BACKSLASH then Model.Ground else Model.String;
        return;
      }
      if byte == Model.ESC {
        state := Model.StringEscape;
      } else if byte == Model.ST {
        state := Model.Ground;
      }
    }

    /** The decoder's consumer: each code point is printed. */
    method EmitCodepoints(emitted: seq<CodePoint>)
      requires Valid()
      modifies operations
      ensures Called(Prints(emitted))
    {
      hide Terminal.WellFormed, Terminal.Apply, Terminal.ApplyAll;
      assert Prints(emitted[..0]) == [];
      CalledNone();
      for i := 0 to |emitted|
        invariant operations.Valid()
        invariant Called(Prints(emitted[..i]))
      {
        ghost var before := operations.Value();
        operations.Print(emitted[i]);
        Terminal.ApplyNoneOrOne(before);
        ghost var done := Prints(emitted[..i]);
        assert Prints(emitted[..i + 1]) == done + [Print(emitted[i])];
        Terminal.ApplyAllConcat(old(operations.Value()), done, [Print(emitted[i])]);
      }
      assert emitted[..|emitted|] == emitted;
    }

    method FlushDecoder()
      requires Valid()
      modifies decoder, operations
      ensures Valid() && Value() == old(Value()).(decoder := Utf8.IDLE)
      ensures Called(Prints(Utf8.Flush(old(Value()).decoder)))
    {
      var emitted := decoder.Flush();
      EmitCodepoints(emitted);
    }

    method ExecuteCsi(final: Byte)
      requires Valid()
      modifies operations
      ensures Valid() && Called(Model.Dispatch(parameters, privateMode, final))
    {
      hide Terminal.WellFormed, Terminal.Apply, Terminal.ApplyAll, Model.Count, Model.EraseMode, ParseParameters;
      var values := ParseBuffer();
      if final == 0x41 {
        operations.CursorUp(Model.Count(values, 0));
        CalledOne(Op.CursorUp(Model.Count(values, 0)));
      } else if final == 0x42 {
        operations.CursorDown(Model.Count(values, 0));
        CalledOne(Op.CursorDown(Model.Count(values, 0)));
      } else if final == 0x43 {
        operations.CursorForward(Model.Count(values, 0));
        CalledOne(Op.CursorForward(Model.Count(values, 0)));
      } else if final == 0x44 {
        operations.CursorBack(Model.Count(values, 0));
        CalledOne(Op.CursorBack(Model.Count(values, 0)));
      } else if final == 0x48 || final == 0x66 {
        operations.CursorPosition(Model.Count(values, 0) - 1, Model.Count(values, 1) - 1);
        CalledOne(Op.CursorPosition(Model.Count(values, 0) - 1, Model.Count(values, 1) - 1));
      } else if final == 0x4A {
        operations.EraseInDisplay(Model.EraseMode(values));
        CalledOne(Op.EraseInDisplay(Model.EraseMode(values)));
      } else if final == 0x4B {
        operations.EraseInLine(Model.EraseMode(values));
        CalledOne(Op.EraseInLine(Model.EraseMode(values)));
      } else if final == 0x6D {
        operations.SetGraphicsRendition(values);
        CalledOne(Op.SetGraphicsRendition(values));
      } else if final == 0x68 && privateMode {
        operations.SetPrivateMode(values, true);
        CalledOne(Op.SetPrivateMode(values, true));
      } else if final == 0x6C && privateMode {
        operations.SetPrivateMode(values, false);
        CalledOne(Op.SetPrivateMode(values, false));
      } else if final == 0x73 {
        operations.SaveCursor();
        CalledOne(Op.SaveCursor);
      } else if final == 0x75 {
        operations.RestoreCursor();
        CalledOne(Op.RestoreCursor);
      } else {
        CalledNone();
      }
    }

    method ExecuteOsc()
      requires Valid()
      modifies operations
      ensures Valid() && Called(Model.ExecuteOsc(oscPayload))
    {
      var separator := Find(oscPayload, SEMICOLON, 0);
      if separator == |oscPayload| {
        return;
      }
      var command, value := oscPayload[..separator], oscPayload[separator + 1..];
      if command == [0x30] || command == [0x32] {
        operations.SetTitle(value);
      }
    }

    method EnterCsi()
      modifies this
      ensures state == Model.Csi && parameters == [] && oscPayload == [] && !privateMode
    {
      state := Model.Csi;
      ClearSequenceBuffers();
    }

    method EnterOsc()
      modifies this
      ensures state == Model.Osc && parameters == [] && oscPayload == [] && !privateMode
    {
      state := Model.Osc;
      ClearSequenceBuffers();
    }

    method EnterString()
      modifies this
      ensures state == Model.String && parameters == [] && oscPayload == [] && !privateMode
    {
      state := Model.String;
      ClearSequenceBuffers();
    }

    method ClearSequenceBuffers()
      modifies this`parameters, this`oscPayload, this`privateMode
      ensures parameters == [] && oscPayload == [] && !privateMode
    {
      parameters, oscPayload, privateMode := [], [], false;
    }

    /** The `parse_parameters` of the source. */
    method ParseBuffer() returns (result: seq<int>)
      ensures result == ParseParameters(parameters)
    {
      result := ParseText(parameters);
    }
  }
}
