/**
  A grammar of whole byte streams that knows no parser: text, escape sequences, control sequences and
  control strings (ECMA-48, sections 5.3 to 5.6), with what the source adds to it: cancelling, pairs
  with ESC, and limits of length. The parser is in Ground exactly where a stream is made of complete
  tokens, and elsewhere its state tells which token is unfinished.
 */
module StreamGrammar {
  import opened Types
  import opened Sequences
  import opened ParserModel
  import opened ParserLaws
  import Utf8 = Utf8Model

  // ---- Inside control strings ----

  predicate Ordinary(b: Byte) {
    b != ESC && b != BEL && b != ST && b != CAN && b != SUB
  }

  /** ESC makes a pair with the byte behind it, unless that byte ends or abandons the string. */
  predicate Paired(b: Byte) {
    b != BACKSLASH && b != CAN && b != SUB
  }

  predicate IsBody(raw: seq<Byte>)
    decreases |raw|
  {
    || raw == []
    || (Ordinary(raw[0]) && IsBody(raw[1..]))
    || (raw[0] == ESC && |raw| >= 2 && Paired(raw[1]) && IsBody(raw[2..]))
  }

  /** Other control strings only end at ST: there BEL is an ordinary byte. */
  predicate Ignorable(b: Byte) {
    Ordinary(b) || b == BEL
  }

  predicate IsIgnored(raw: seq<Byte>)
    decreases |raw|
  {
    || raw == []
    || (Ignorable(raw[0]) && IsIgnored(raw[1..]))
    || (raw[0] == ESC && |raw| >= 2 && Paired(raw[1]) && IsIgnored(raw[2..]))
  }

  function UnitLength(raw: seq<Byte>): nat {
    if raw == [] then 0 else if raw[0] == ESC then 2 else 1
  }

  lemma {:induction false} BodyConcat(a: seq<Byte>, b: seq<Byte>)
    requires IsBody(a) && IsBody(b)
    ensures IsBody(a + b)
    decreases |a|
  {
    if a == [] {
      EmptyFirst(b);
    } else {
      var n := UnitLength(a);
      BodyConcat(a[n..], b);
      assert (a + b)[n..] == a[n..] + b;
    }
  }

  lemma {:induction false} IgnoredConcat(a: seq<Byte>, b: seq<Byte>)
    requires IsIgnored(a) && IsIgnored(b)
    ensures IsIgnored(a + b)
    decreases |a|
  {
    if a == [] {
      EmptyFirst(b);
    } else {
      var n := UnitLength(a);
      IgnoredConcat(a[n..], b);
      assert (a + b)[n..] == a[n..] + b;
    }
  }

  lemma {:induction false} BodyIsIgnored(raw: seq<Byte>)
    requires IsBody(raw)
    ensures IsIgnored(raw)
    decreases |raw|
  {
    if raw != [] {
      BodyIsIgnored(if Ordinary(raw[0]) then raw[1..] else raw[2..]);
    }
  }

  // ---- Tokens ----

  predicate CsiIntroducer(s: seq<Byte>) {
    s == [CSI] || s == [ESC, 0x5B]
  }

  predicate OscIntroducer(s: seq<Byte>) {
    s == [OSC] || s == [ESC, 0x5D]
  }

  /** Device control strings, privacy messages and application program commands. */
  predicate StringIntroducer(s: seq<Byte>) {
    s == [DCS] || s == [ESC, 0x50] || s == [ESC, 0x5E] || s == [ESC, 0x5F]
  }

  function HeadLength(r: seq<Byte>): (n: nat)
    ensures n <= |r|
  {
    if r != [] && r[0] == ESC then Min(2, |r|) else Min(1, |r|)
  }

  /** The introducer. */
  function Head(r: seq<Byte>): seq<Byte> {
    r[..HeadLength(r)]
  }

  /** What stands behind the introducer. */
  function Rest(r: seq<Byte>): seq<Byte> {
    r[HeadLength(r)..]
  }

  /** Parameters, intermediates and controls; no parameter byte once 4096 bytes other than controls have come. */
  predicate IsCollected(body: seq<Byte>) {
    forall i :: 0 <= i < |body| ==>
                  CollectedByte(body[i]) && (IsParameterByte(body[i]) ==> |Strip(body[..i])| < MAXIMUM_SEQUENCE_BYTES)
  }

  predicate InSequence(r: seq<Byte>) {
    CsiIntroducer(Head(r)) && IsCollected(Rest(r))
  }

  /** An operating system command, no longer than its limit. */
  predicate InCommand(r: seq<Byte>) {
    OscIntroducer(Head(r)) && IsBody(Rest(r)) && |Rest(r)| <= MAXIMUM_SEQUENCE_BYTES
  }

  /** A command that has grown past its limit at or before `n`, where BEL no longer ends it. */
  predicate OversizedAt(raw: seq<Byte>, n: nat) {
    MAXIMUM_SEQUENCE_BYTES < n <= |raw| && IsBody(raw[..n]) && IsIgnored(raw[n..])
  }

  ghost predicate InString(r: seq<Byte>) {
    || (StringIntroducer(Head(r)) && IsIgnored(Rest(r)))
    || (OscIntroducer(Head(r)) && exists n: nat :: OversizedAt(Rest(r), n))
  }

  /** A final byte, a byte that does not belong in a control sequence, or a parameter byte too many. */
  predicate EndsSequence(body: seq<Byte>, b: Byte) {
    !CollectedByte(b) || (IsParameterByte(b) && |Strip(body)| >= MAXIMUM_SEQUENCE_BYTES)
  }

  predicate StartsNothing(b: Byte) {
    b != ESC && b != CSI && b != OSC && b != DCS
  }

  /** ESC and this byte are an escape sequence of their own. */
  predicate EndsEscape(b: Byte) {
    !CsiIntroducer([ESC, b]) && !OscIntroducer([ESC, b]) && !StringIntroducer([ESC, b])
  }

  /** A last ESC waits for the byte that ends the string or makes a pair. */
  function WithoutEscape(r: seq<Byte>): seq<Byte> {
    if r != [] && r[|r| - 1] == ESC then r[..|r| - 1] else []
  }

  /** The byte `b` makes the unfinished `r` a whole token. */
  ghost predicate Finishes(r: seq<Byte>, b: Byte) {
    || (r == [] && StartsNothing(b))
    || (r == [ESC] && EndsEscape(b))
    || (InSequence(r) && EndsSequence(Rest(r), b))
    || (InCommand(r) && (b == BEL || b == ST || b == CAN || b == SUB))
    || (InString(r) && (b == ST || b == CAN || b == SUB))
    || ((InCommand(WithoutEscape(r)) || InString(WithoutEscape(r))) && (b == BACKSLASH || b == CAN || b == SUB))
  }

  ghost predicate IsToken(s: seq<Byte>) {
    s != [] && Finishes(s[..|s| - 1], s[|s| - 1])
  }

  ghost predicate IsTokens(s: seq<Byte>)
    decreases |s|
  {
    s == [] || exists k: nat :: k < |s| && IsTokens(s[..k]) && IsToken(s[k..])
  }

  // ---- Running control strings ----

  /** One unit of a payload, a byte or a pair, is collected or overflows. */
  lemma UnitRun(p: Parser, unit: seq<Byte>)
    requires p.state == Osc
    requires (|unit| == 1 && Ordinary(unit[0])) || (|unit| == 2 && unit[0] == ESC && Paired(unit[1]))
    ensures Run(p, unit) ==
            if |p.payload| + |unit| <= MAXIMUM_SEQUENCE_BYTES then Outcome(p.(payload := p.payload + unit), [])
            else Outcome(p.(state := String), [])
  {
    if |unit| == 1 {
      assert unit == [unit[0]];
      RunOne(p, unit[0]);
    } else {
      assert unit == [ESC] + [unit[1]] == [ESC, unit[1]];
      RunConcat(p, [ESC], [unit[1]]);
      RunOne(p, ESC);
      RunOne(p.(state := OscEscape), unit[1]);
    }
  }

  lemma StringUnitRun(p: Parser, unit: seq<Byte>)
    requires p.state == String
    requires (|unit| == 1 && Ignorable(unit[0])) || (|unit| == 2 && unit[0] == ESC && Paired(unit[1]))
    ensures Run(p, unit) == Outcome(p, [])
  {
    if |unit| == 1 {
      assert unit == [unit[0]];
      RunOne(p, unit[0]);
    } else {
      assert unit == [ESC] + [unit[1]] == [ESC, unit[1]];
      RunConcat(p, [ESC], [unit[1]]);
      RunOne(p, ESC);
      RunOne(p.(state := StringEscape), unit[1]);
    }
  }

  lemma {:induction false} StringBodyRun(p: Parser, raw: seq<Byte>)
    requires p.state == String && IsIgnored(raw)
    ensures Run(p, raw) == Outcome(p, [])
    decreases |raw|
  {
    hide Step, Run;
    if raw == [] {
      RunNone(p);
    } else {
      var n := UnitLength(raw);
      StringUnitRun(p, raw[..n]);
      StringBodyRun(p, raw[n..]);
      RunConcat(p, raw[..n], raw[n..]);
      assert raw == raw[..n] + raw[n..];
    }
  }

  /** A payload that fits the buffer is collected byte for byte; a longer one ends up in String. */
  lemma {:induction false} BodyRun(p: Parser, raw: seq<Byte>)
    requires p.state == Osc && IsBody(raw) && |p.payload| <= MAXIMUM_SEQUENCE_BYTES
    ensures var run := Run(p, raw);
            && run.ops == []
            && if |p.payload| + |raw| <= MAXIMUM_SEQUENCE_BYTES then run.parser == p.(payload := p.payload + raw)
               else run.parser.state == String
    decreases |raw|
  {
    hide Step, Run;
    if raw == [] {
      RunNone(p);
      assert p.payload + [] == p.payload;
    } else {
      var n := UnitLength(raw);
      var unit, rest := raw[..n], raw[n..];
      assert raw == unit + rest;
      UnitRun(p, unit);
      RunConcat(p, unit, rest);
      if |p.payload| + n <= MAXIMUM_SEQUENCE_BYTES {
        BodyRun(p.(payload := p.payload + unit), rest);
        AppendAssoc(p.payload, unit, rest);
      } else {
        BodyIsIgnored(rest);
        StringBodyRun(p.(state := String), rest);
      }
    }
  }

  // ---- Running tokens ----

  lemma HeadRun(g: Parser, head: seq<Byte>)
    requires g.state == Ground
    ensures var p := Run(g, head).parser;
            && (CsiIntroducer(head) ==> p.state == Csi && p.parameters == [])
            && (OscIntroducer(head) ==> p.state == Osc && p.payload == [])
            && (StringIntroducer(head) ==> p.state == String)
  {
    hide Run;
    if |head| == 1 {
      assert head == [head[0]];
      RunOne(g, head[0]);
    } else if |head| == 2 && head[0] == ESC {
      assert head == [ESC] + [head[1]];
      RunOne(g, ESC);
      RunConcat(g, [ESC], [head[1]]);
      RunOne(Step(g, ESC).parser, head[1]);
    }
  }

  lemma StripOne(b: Byte)
    ensures Strip([] + [b]) == Strip([]) + if IsC0(b) then [] else [b]
  {
    assert ([] + [b])[1..] == [];
  }

  lemma {:induction false} StripSnoc(bytes: seq<Byte>, b: Byte)
    ensures Strip(bytes + [b]) == Strip(bytes) + if IsC0(b) then [] else [b]
    decreases |bytes|
  {
    var first := if bytes == [] || IsC0(bytes[0]) then [] else [bytes[0]];
    if bytes == [] {
      StripOne(b);
    } else {
      StripSnoc(bytes[1..], b);
      assert (bytes + [b])[1..] == bytes[1..] + [b];
      AppendAssoc(first, Strip(bytes[1..]), if IsC0(b) then [] else [b]);
    }
  }

  lemma CollectStep(p: Parser, b: Byte)
    requires p.state == Csi && CollectedByte(b)
    requires |p.parameters| <= MAXIMUM_SEQUENCE_BYTES
    ensures if IsParameterByte(b) && |p.parameters| == MAXIMUM_SEQUENCE_BYTES then Step(p, b).parser.state == Ground
            else
              && Step(p, b).parser.state == Csi
              && Step(p, b).parser.decoder == p.decoder && Step(p, b).parser.payload == p.payload
              && Step(p, b).parser.parameters
                 == Front(p.parameters + (if IsC0(b) then [] else [b]), MAXIMUM_SEQUENCE_BYTES)
              && Step(p, b).ops == if IsC0(b) then [ExecuteControl(b)] else []
  {
    assert p.parameters + [] == p.parameters;
  }

  lemma {:induction false} ControlOpsSnoc(bytes: seq<Byte>, b: Byte)
    ensures ControlOps(bytes + [b]) == ControlOps(bytes) + if IsC0(b) then [ExecuteControl(b)] else []
    decreases |bytes|
  {
    var first := if bytes == [] || !IsC0(bytes[0]) then [] else [ExecuteControl(bytes[0])];
    if bytes == [] {
      ControlOpsOne(b);
    } else {
      ControlOpsSnoc(bytes[1..], b);
      assert (bytes + [b])[1..] == bytes[1..] + [b];
      AppendAssoc(first, ControlOps(bytes[1..]), if IsC0(b) then [ExecuteControl(b)] else []);
    }
  }

  lemma ControlOpsOne(b: Byte)
    ensures ControlOps([] + [b]) == ControlOps([]) + if IsC0(b) then [ExecuteControl(b)] else []
  {
    assert ([] + [b])[1..] == [];
  }

  /** At most the first `n` bytes. */
  function Front(s: seq<Byte>, n: nat): (front: seq<Byte>)
    ensures |front| == Min(|s|, n)
  {
    s[..Min(|s|, n)]
  }

  lemma FrontOfFront(s: seq<Byte>, more: seq<Byte>, n: nat)
    ensures Front(Front(s, n) + more, n) == Front(s + more, n)
  {
  }

  /** A control sequence buffers the first 4096 bytes that are no controls, and executes the controls. */
  lemma {:induction false} CollectRun(p: Parser, body: seq<Byte>)
    requires p.state == Csi && p.parameters == [] && IsCollected(body)
    ensures var run := Run(p, body);
            && run.parser == p.(parameters := run.parser.parameters, privateMode := run.parser.privateMode)
            && run.parser.parameters == Front(Strip(body), MAXIMUM_SEQUENCE_BYTES)
            && run.ops == ControlOps(body)
    decreases |body|
  {
    hide Run, Step, Strip, ControlOps, Front;
    if body == [] {
      RunNone(p);
      StripNone();
    } else {
      var front, b := body[..|body| - 1], body[|body| - 1];
      assert body == front + [b];
      assert IsCollected(front) by {
        assert forall i :: 0 <= i < |front| ==> front[..i] == body[..i];
      }
      CollectRun(p, front);
      StripSnoc(front, b);
      ControlOpsSnoc(front, b);
      FrontOfFront(Strip(front), if IsC0(b) then [] else [b], MAXIMUM_SEQUENCE_BYTES);
      RunSnoc(p, front, b);
      CollectStep(Run(p, front).parser, b);
    }
  }

  lemma StripNone()
    ensures Strip([]) == [] && ControlOps([]) == [] && Front([], MAXIMUM_SEQUENCE_BYTES) == []
  {
  }

  /** The state behind each kind of unfinished token. */
  lemma OpenRun(g: Parser, r: seq<Byte>)
    requires g.state == Ground
    ensures var p := Run(g, r).parser;
            && (InSequence(r) ==>
                  p.state == Csi && |p.parameters| == Min(|Strip(Rest(r))|, MAXIMUM_SEQUENCE_BYTES))
            && (InCommand(r) ==> p.state == Osc && p.payload == Rest(r))
            && (InString(r) ==> p.state == String)
  {
    hide Run, Strip, IsBody, IsIgnored, IsCollected;
    assert r == Head(r) + Rest(r);
    var p := Run(g, Head(r)).parser;
    RunConcat(g, Head(r), Rest(r));
    HeadRun(g, Head(r));
    if InSequence(r) {
      CollectRun(p, Rest(r));
    }
    if InCommand(r) {
      BodyRun(p, Rest(r));
      EmptyFirst(Rest(r));
    }
    if InString(r) {
      InStringRun(p, r);
    }
  }

  lemma InStringRun(p: Parser, r: seq<Byte>)
    requires InString(r)
    requires if OscIntroducer(Head(r)) then p.state == Osc && p.payload == [] else p.state == String
    ensures Run(p, Rest(r)).parser.state == String
  {
    hide Run, IsBody, IsIgnored;
    if OscIntroducer(Head(r)) {
      var raw := Rest(r);
      var n: nat :| OversizedAt(raw, n);
      assert raw == raw[..n] + raw[n..];
      RunConcat(p, raw[..n], raw[n..]);
      BodyRun(p, raw[..n]);
      StringBodyRun(Run(p, raw[..n]).parser, raw[n..]);
    } else {
      StringBodyRun(p, Rest(r));
    }
  }

  lemma EscapedRun(g: Parser, r: seq<Byte>)
    requires g.state == Ground
    ensures InCommand(WithoutEscape(r)) ==>
              Run(g, r).parser == Run(g, WithoutEscape(r)).parser.(state := OscEscape)
    ensures InString(WithoutEscape(r)) ==> Run(g, r).parser.state == StringEscape
  {
    hide Run, InCommand, InString;
    var front := WithoutEscape(r);
    if InCommand(front) || InString(front) {
      OpenNotEmpty(front);
      assert r == front + [ESC];
      OpenRun(g, front);
      RunSnoc(g, front, ESC);
    }
  }

  lemma OpenNotEmpty(r: seq<Byte>)
    requires InSequence(r) || InCommand(r) || InString(r)
    ensures r != []
  {
  }

  lemma TokenRun(g: Parser, s: seq<Byte>)
    requires g.state == Ground && IsToken(s)
    ensures Run(g, s).parser.state == Ground
  {
    hide Run, Step, InSequence, InCommand, InString, Strip, EndsSequence, StartsNothing, EndsEscape, WithoutEscape, Rest;
    var r, b := s[..|s| - 1], s[|s| - 1];
    assert s == r + [b];
    RunSnoc(g, r, b);
    if r == [] {
      RunNone(g);
    } else if r == [ESC] {
      EscapeOpens(g);
    }
    OpenRun(g, r);
    OpenRun(g, WithoutEscape(r));
    EscapedRun(g, r);
    LastStep(Run(g, r).parser, Rest(r), b);
  }

  lemma EscapeOpens(g: Parser)
    requires g.state == Ground
    ensures Run(g, [ESC]).parser.state == Escape
  {
    hide Run;
    RunOne(g, ESC);
  }

  lemma LastStep(p: Parser, body: seq<Byte>, b: Byte)
    requires match p.state
             case Ground => StartsNothing(b)
             case Escape => EndsEscape(b)
             case Csi => |p.parameters| == Min(|Strip(body)|, MAXIMUM_SEQUENCE_BYTES) && EndsSequence(body, b)
             case Osc => b == BEL || b == ST || b == CAN || b == SUB
             case String => b == ST || b == CAN || b == SUB
             case _ => b == BACKSLASH || b == CAN || b == SUB
    ensures Step(p, b).parser.state == Ground
  {
    hide Dispatch, ExecuteOsc, Prints, Strip;
  }

  lemma {:induction false} TokensRun(s: seq<Byte>)
    requires IsTokens(s)
    ensures Run(INITIAL, s).parser.state == Ground
    decreases |s|
  {
    hide Run, IsToken;
    if s == [] {
      RunNone(INITIAL);
    } else {
      var k: nat :| k < |s| && IsTokens(s[..k]) && IsToken(s[k..]);
      TokensRun(s[..k]);
      TokenRun(Run(INITIAL, s[..k]).parser, s[k..]);
      assert s == s[..k] + s[k..];
      RunConcat(INITIAL, s[..k], s[k..]);
    }
  }

  // ---- The unfinished token, from the state ----

  /** What has been read of the unfinished token in each state. */
  ghost predicate Unfinished(r: seq<Byte>, state: State) {
    match state
    case Ground => r == []
    case Escape => r == [ESC]
    case Csi => InSequence(r)
    case Osc => InCommand(r)
    case OscEscape => InCommand(WithoutEscape(r))
    case String => InString(r)
    case StringEscape => InString(WithoutEscape(r))
  }

  lemma RestThen(r: seq<Byte>, b: Byte)
    requires InSequence(r) || InCommand(r) || InString(r)
    ensures Head(r + [b]) == Head(r) && Rest(r + [b]) == Rest(r) + [b] && HeadLength(r + [b]) == HeadLength(r)
    ensures r + [b] != [] && r + [b] != [ESC]
    ensures WithoutEscape(r + [ESC]) == r
  {
    hide IsBody, IsIgnored, IsCollected;
    OpenNotEmpty(r);
  }

  lemma OpeningStep(p: Parser, r: seq<Byte>, b: Byte)
    requires (p.state == Ground && r == []) || (p.state == Escape && r == [ESC])
    ensures var state := Step(p, b).parser.state;
            if state == Ground then Finishes(r, b) else Unfinished(r + [b], state)
  {
    hide Step, InSequence, InCommand, InString;
    if p.state == Ground {
      StateAfterGround(p, b);
      EmptyFirst([b]);
    } else {
      StateAfterEscape(p, b);
      assert [ESC] + [b] == [ESC, b];
    }
    JustIntroduced(r + [b]);
  }

  lemma StateAfterGround(p: Parser, b: Byte)
    requires p.state == Ground
    ensures Step(p, b).parser.state ==
            if b == ESC then Escape
            else if CsiIntroducer([b]) then Csi
            else if OscIntroducer([b]) then Osc
            else if StringIntroducer([b]) then String
            else Ground
  {
    hide Prints, Utf8.Step, Utf8.Flush;
  }

  lemma StateAfterEscape(p: Parser, b: Byte)
    requires p.state == Escape
    ensures Step(p, b).parser.state ==
            if CsiIntroducer([ESC, b]) then Csi
            else if OscIntroducer([ESC, b]) then Osc
            else if StringIntroducer([ESC, b]) then String
            else Ground
  {
    hide Prints, Utf8.Flush;
  }

  lemma JustIntroduced(head: seq<Byte>)
    ensures CsiIntroducer(head) ==> InSequence(head)
    ensures OscIntroducer(head) ==> InCommand(head)
    ensures StringIntroducer(head) ==> InString(head)
  {
  }

  lemma SequenceStep(p: Parser, r: seq<Byte>, b: Byte)
    requires p.state == Csi && InSequence(r)
    requires |p.parameters| == Min(|Strip(Rest(r))|, MAXIMUM_SEQUENCE_BYTES)
    ensures var state := Step(p, b).parser.state;
            if state == Ground then Finishes(r, b) else Unfinished(r + [b], state)
  {
    hide Strip, Dispatch, Head, Rest, InCommand, InString;
    RestThen(r, b);
    var body := Rest(r);
    if CollectedByte(b) {
      CollectStep(p, b);
      if !EndsSequence(body, b) {
        assert forall i :: 0 <= i <= |body| ==> (body + [b])[..i] == body[..i];
        assert body[..|body|] == body;
      }
    } else {
      assert Step(p, b).parser.state == Ground;
    }
  }

  lemma CommandStep(p: Parser, r: seq<Byte>, b: Byte)
    requires p.state == Osc && InCommand(r) && p.payload == Rest(r)
    ensures var state := Step(p, b).parser.state;
            if state == Ground then Finishes(r, b) else Unfinished(r + [b], state)
  {
    hide ExecuteOsc, Head, Rest, InSequence;
    RestThen(r, b);
    if Ordinary(b) {
      BodyGrows(Rest(r), [b]);
    }
  }

  /** A body and one more unit: a longer body, or past the limit. */
  lemma BodyGrows(raw: seq<Byte>, unit: seq<Byte>)
    requires IsBody(raw)
    requires (|unit| == 1 && Ordinary(unit[0])) || (|unit| == 2 && unit[0] == ESC && Paired(unit[1]))
    ensures IsBody(raw + unit)
    ensures |raw + unit| > MAXIMUM_SEQUENCE_BYTES ==> OversizedAt(raw + unit, |raw + unit|)
  {
    assert unit[|unit|..] == [];
    assert IsBody([]) && IsIgnored([]);
    BodyConcat(raw, unit);
    assert (raw + unit)[..|raw + unit|] == raw + unit && (raw + unit)[|raw + unit|..] == [];
  }

  lemma CommandEscapeStep(p: Parser, r: seq<Byte>, b: Byte)
    requires p.state == OscEscape && InCommand(WithoutEscape(r)) && p.payload == Rest(WithoutEscape(r))
    ensures var state := Step(p, b).parser.state;
            if state == Ground then Finishes(r, b) else Unfinished(r + [b], state)
  {
    hide ExecuteOsc, Head, Rest, InSequence;
    var front := WithoutEscape(r);
    RestOfPair(r, b);
    if Paired(b) {
      BodyGrows(Rest(front), [ESC, b]);
    }
  }

  lemma RestOfPair(r: seq<Byte>, b: Byte)
    requires InCommand(WithoutEscape(r)) || InString(WithoutEscape(r))
    ensures var front := WithoutEscape(r);
            && Head(r + [b]) == Head(front) && Rest(r + [b]) == Rest(front) + [ESC, b]
  {
    hide InCommand, InString, Head, Rest;
    var front := WithoutEscape(r);
    OpenNotEmpty(front);
    RestThen(front, ESC);
    assert r == front + [ESC];
    LongerRest(r, b);
    assert Rest(front) + [ESC] + [b] == Rest(front) + [ESC, b];
  }

  lemma LongerRest(r: seq<Byte>, b: Byte)
    requires |r| >= 2
    ensures Head(r + [b]) == Head(r) && Rest(r + [b]) == Rest(r) + [b]
  {
  }

  /** A string and one more unit is a string. */
  lemma StringGrows(r: seq<Byte>, r': seq<Byte>, unit: seq<Byte>)
    requires InString(r) && Head(r') == Head(r) && Rest(r') == Rest(r) + unit
    requires IsIgnored(unit)
    ensures InString(r')
  {
    hide Head, Rest, IsBody, IsIgnored;
    var raw := Rest(r);
    if StringIntroducer(Head(r)) {
      IgnoredConcat(raw, unit);
    } else {
      var n: nat :| OversizedAt(raw, n);
      IgnoredConcat(raw[n..], unit);
      assert (raw + unit)[..n] == raw[..n] && (raw + unit)[n..] == raw[n..] + unit;
      assert OversizedAt(Rest(r'), n);
    }
  }

  lemma IgnoredUnit(unit: seq<Byte>)
    requires (|unit| == 1 && Ignorable(unit[0])) || (|unit| == 2 && unit[0] == ESC && Paired(unit[1]))
    ensures IsIgnored(unit)
  {
    assert unit[|unit|..] == [];
  }

  lemma StringSteps(p: Parser, r: seq<Byte>, b: Byte)
    requires (p.state == String && InString(r)) || (p.state == StringEscape && InString(WithoutEscape(r)))
    ensures var state := Step(p, b).parser.state;
            if state == Ground then Finishes(r, b) else Unfinished(r + [b], state)
  {
    hide InString, Head, Rest, InSequence, InCommand, Prints, IsIgnored;
    if p.state == String {
      RestThen(r, b);
      if Ignorable(b) {
        IgnoredUnit([b]);
        StringGrows(r, r + [b], [b]);
      }
    } else {
      RestOfPair(r, b);
      if Paired(b) {
        IgnoredUnit([ESC, b]);
        StringGrows(WithoutEscape(r), r + [b], [ESC, b]);
      }
    }
  }

  lemma UnfinishedStep(g: Parser, r: seq<Byte>, b: Byte)
    requires g.state == Ground && Unfinished(r, Run(g, r).parser.state)
    ensures var state := Run(g, r + [b]).parser.state;
            if state == Ground then IsToken(r + [b]) else Unfinished(r + [b], state)
  {
    hide Run, Step, InSequence, InCommand, InString, Finishes, Strip;
    var p := Run(g, r).parser;
    RunSnoc(g, r, b);
    OpenRun(g, r);
    OpenRun(g, WithoutEscape(r));
    EscapedRun(g, r);
    assert (r + [b])[..|r|] == r;
    match p.state {
      case Csi => SequenceStep(p, r, b);
      case Osc => CommandStep(p, r, b);
      case OscEscape => CommandEscapeStep(p, r, b);
      case String => StringSteps(p, r, b);
      case StringEscape => StringSteps(p, r, b);
      case _ => OpeningStep(p, r, b);
    }
  }

  // ---- Positions in a stream ----

  /** The configuration of a new parser that has read the first `n` bytes. */
  function At(stream: seq<Byte>, n: nat): Parser
    requires n <= |stream|
  {
    Run(INITIAL, stream[..n]).parser
  }

  lemma AtNext(stream: seq<Byte>, n: nat)
    requires n < |stream|
    ensures At(stream, n + 1) == Step(At(stream, n), stream[n]).parser
    ensures Run(INITIAL, stream[..n + 1]).ops == Run(INITIAL, stream[..n]).ops + Step(At(stream, n), stream[n]).ops
  {
    hide Step, Run;
    assert stream[..n + 1] == stream[..n] + [stream[n]];
    RunSnoc(INITIAL, stream[..n], stream[n]);
  }

  lemma AtLater(stream: seq<Byte>, i: nat, n: nat)
    requires i <= n <= |stream|
    ensures At(stream, n) == Run(At(stream, i), stream[i..n]).parser
  {
    hide Step, Run;
    assert stream[..n] == stream[..i] + stream[i..n];
    RunConcat(INITIAL, stream[..i], stream[i..n]);
  }

  /** The first `j` bytes are whole tokens, and what follows up to `n` is the unfinished one. */
  ghost predicate LastBoundary(stream: seq<Byte>, j: nat, n: nat) {
    j <= n <= |stream| && IsTokens(stream[..j]) && Unfinished(stream[j..n], At(stream, n).state)
  }

  lemma BoundaryNext(stream: seq<Byte>, j: nat, n: nat)
    requires n < |stream| && LastBoundary(stream, j, n)
    ensures if At(stream, n + 1).state == Ground then LastBoundary(stream, n + 1, n + 1)
            else LastBoundary(stream, j, n + 1)
  {
    hide Run, IsToken, Unfinished;
    TokensRun(stream[..j]);
    AtLater(stream, j, n);
    AtLater(stream, j, n + 1);
    assert stream[j..n + 1] == stream[j..n] + [stream[n]];
    UnfinishedStep(At(stream, j), stream[j..n], stream[n]);
    if At(stream, n + 1).state == Ground {
      var s := stream[..n + 1];
      assert s[..j] == stream[..j] && s[j..] == stream[j..n + 1];
      assert IsTokens(s);
      assert stream[n + 1..n + 1] == [];
      NothingUnfinished();
    }
  }

  lemma NothingUnfinished()
    ensures Unfinished([], Ground)
  {
  }

  lemma NothingReadYet(stream: seq<Byte>)
    ensures LastBoundary(stream, 0, 0)
  {
    assert stream[..0] == [];
  }

  /** In every stream the parser's state is that of the unfinished token behind the last boundary. */
  lemma {:induction false} StateIsUnfinishedToken(stream: seq<Byte>, n: nat)
    requires n <= |stream|
    ensures exists j: nat :: LastBoundary(stream, j, n)
    decreases n
  {
    hide Run, Unfinished, LastBoundary;
    if n == 0 {
      NothingReadYet(stream);
    } else {
      StateIsUnfinishedToken(stream, n - 1);
      var j: nat :| LastBoundary(stream, j, n - 1);
      BoundaryNext(stream, j, n - 1);
      assert LastBoundary(stream, n, n) || LastBoundary(stream, j, n);
    }
  }

  /** The parser is in Ground exactly behind whole tokens. */
  lemma GroundBehindTokens(stream: seq<Byte>)
    ensures Run(INITIAL, stream).parser.state == Ground <==> IsTokens(stream)
  {
    hide Run, IsTokens;
    if IsTokens(stream) {
      TokensRun(stream);
    }
    if Run(INITIAL, stream).parser.state == Ground {
      assert stream[..|stream|] == stream;
      StateIsUnfinishedToken(stream, |stream|);
      var j: nat :| LastBoundary(stream, j, |stream|);
      assert stream[j..] == [];
    }
  }
}
