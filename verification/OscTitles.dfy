/**
  Which operating system commands set the title: the grammar of the stream against the parser, over
  arbitrary byte streams.
 */
module OscTitles {
  import opened Types
  import opened Sequences
  import opened Parameters
  import opened ParserModel
  import opened StreamGrammar
  import Utf8 = Utf8Model
  import Terminal = TerminalModel

  // ---- Payloads ----

  /** Whole tokens, then an introducer, 9D or ESC ], which ends just before position `i`. */
  ghost predicate OscStart(stream: seq<Byte>, i: nat) {
    i <= |stream| && exists j: nat :: j <= i && IsTokens(stream[..j]) && OscIntroducer(stream[j..i])
  }

  lemma StartIsEmpty(stream: seq<Byte>, i: nat)
    requires OscStart(stream, i)
    ensures At(stream, i).state == Osc && At(stream, i).payload == []
  {
    hide Run, IsTokens;
    var j: nat :| j <= i && IsTokens(stream[..j]) && OscIntroducer(stream[j..i]);
    TokensRun(stream[..j]);
    AtLater(stream, j, i);
    HeadRun(At(stream, j), stream[j..i]);
  }

  /** In Osc or OscEscape after `n` bytes: since `i`, nothing but this payload, less a trailing ESC. */
  ghost predicate Collected(stream: seq<Byte>, i: nat, n: nat) {
    && OscStart(stream, i) && i <= n <= |stream|
    && var p := At(stream, n);
       && |p.payload| <= MAXIMUM_SEQUENCE_BYTES
       && IsBody(p.payload)
       && stream[i..n] == p.payload + if p.state == OscEscape then [ESC] else []
  }

  /** In every byte stream the buffered payload is the raw bytes since the introducer. */
  lemma PayloadIsRaw(stream: seq<Byte>, n: nat)
    requires n <= |stream|
    requires At(stream, n).state == Osc || At(stream, n).state == OscEscape
    ensures exists i: nat :: Collected(stream, i, n)
  {
    hide Run, IsTokens, Unfinished, OscStart, IsBody, Head, Rest;
    StateIsUnfinishedToken(stream, n);
    var j: nat :| LastBoundary(stream, j, n);
    var g, r, p := At(stream, j), stream[j..n], At(stream, n);
    TokensRun(stream[..j]);
    AtLater(stream, j, n);
    UnfinishedCommand(g, r);
    var command := r[..|r| - if p.state == OscEscape then 1 else 0];
    assert command == stream[j..j + |command|];
    CommandStart(stream, j, j + |command|);
    RestIsSlice(stream, j, n);
    RestIsSlice(stream, j, j + |command|);
    assert Collected(stream, j + HeadLength(command), n);
  }

  lemma RestIsSlice(stream: seq<Byte>, j: nat, n: nat)
    requires j <= n <= |stream|
    ensures Rest(stream[j..n]) == stream[j + HeadLength(stream[j..n])..n]
  {
  }

  lemma UnfinishedCommand(g: Parser, r: seq<Byte>)
    requires g.state == Ground
    requires var p := Run(g, r).parser; (p.state == Osc || p.state == OscEscape) && Unfinished(r, p.state)
    ensures var p := Run(g, r).parser;
            if p.state == Osc then InCommand(r) && p.payload == Rest(r) && HeadLength(r) <= |r|
            else && r != [] && r[|r| - 1] == ESC && InCommand(r[..|r| - 1]) && p.payload == Rest(r[..|r| - 1])
                 && HeadLength(r) == HeadLength(r[..|r| - 1]) && Rest(r) == p.payload + [ESC]
  {
    hide Run, InCommand, InString, InSequence, Head, Rest, HeadLength;
    if Run(g, r).parser.state == Osc {
      OpenRun(g, r);
    } else {
      var front := WithoutEscape(r);
      OpenNotEmpty(front);
      assert r == front + [ESC];
      OpenRun(g, front);
      EscapedRun(g, r);
      RestThen(front, ESC);
    }
  }

  lemma CommandStart(stream: seq<Byte>, j: nat, n: nat)
    requires j <= n <= |stream| && IsTokens(stream[..j]) && InCommand(stream[j..n])
    ensures OscStart(stream, j + HeadLength(stream[j..n]))
    ensures IsBody(Rest(stream[j..n])) && |Rest(stream[j..n])| <= MAXIMUM_SEQUENCE_BYTES
  {
    hide IsTokens, IsBody;
    var i := j + HeadLength(stream[j..n]);
    assert stream[j..i] == Head(stream[j..n]);
  }

  // ---- Which bytes set a title ----

  /** The bytes from `i` up to and including position `n` are a payload and its terminator. */
  ghost predicate Completes(stream: seq<Byte>, i: nat, n: nat) {
    && OscStart(stream, i) && i <= n < |stream|
    && if stream[n] == BACKSLASH then i < n && stream[n - 1] == ESC && IsBody(stream[i..n - 1])
       else (stream[n] == BEL || stream[n] == ST) && IsBody(stream[i..n])
  }

  ghost function Body(stream: seq<Byte>, i: nat, n: nat): seq<Byte>
    requires Completes(stream, i, n)
  {
    if stream[n] == BACKSLASH then stream[i..n - 1] else stream[i..n]
  }

  /** Only commands 0 and 2, in one digit each, name a title: all that stands behind the first semicolon. */
  lemma TitlePayloads(payload: seq<Byte>, title: seq<Byte>)
    ensures TitleOf(payload) == Some(title)
            <==> payload == [0x30, SEMICOLON] + title || payload == [0x32, SEMICOLON] + title
  {
  }

  /** Position `n` completes an operating system command of at most 4096 bytes: 0;title or 2;title. */
  ghost predicate TitleAt(stream: seq<Byte>, i: nat, n: nat, title: seq<Byte>) {
    && Completes(stream, i, n)
    && |Body(stream, i, n)| <= 4096
    && (Body(stream, i, n) == [0x30, SEMICOLON] + title || Body(stream, i, n) == [0x32, SEMICOLON] + title)
  }

  ghost predicate SetsTitle(stream: seq<Byte>, n: nat, title: seq<Byte>) {
    exists i: nat :: TitleAt(stream, i, n, title)
  }

  /** Where a command completes, the parser has its payload if it fits, and has let it go if not. */
  lemma CompletedRun(stream: seq<Byte>, i: nat, n: nat)
    requires Completes(stream, i, n)
    ensures Step(At(stream, n), stream[n]).ops ==
            if |Body(stream, i, n)| <= MAXIMUM_SEQUENCE_BYTES then ExecuteOsc(Body(stream, i, n)) else []
  {
    hide Run, Step, ExecuteOsc, IsBody;
    var body := Body(stream, i, n);
    var end := i + |body|;
    StartIsEmpty(stream, i);
    AtLater(stream, i, end);
    assert stream[i..end] == body;
    BodyRun(At(stream, i), body);
    assert [] + body == body;
    TerminatorSteps(At(stream, end), stream[n]);
    if stream[n] == BACKSLASH {
      AtNext(stream, end);
    }
  }

  lemma TerminatorSteps(p: Parser, b: Byte)
    requires p.state == Osc || p.state == String
    requires b == BEL || b == ST || b == BACKSLASH
    ensures var escaped := Step(p, ESC).parser;
            (if b == BACKSLASH then Step(escaped, b).ops else Step(p, b).ops) ==
            (if p.state == Osc then ExecuteOsc(p.payload) else [])
  {
    hide ExecuteOsc;
  }

  lemma OnlyOscSetsTitles(p: Parser, b: Byte, title: seq<Byte>)
    requires SetTitle(title) in Step(p, b).ops
    ensures TitleOf(p.payload) == Some(title) && Step(p, b).ops == [SetTitle(title)]
    ensures (p.state == Osc && (b == BEL || b == ST)) || (p.state == OscEscape && b == BACKSLASH)
  {
    hide Dispatch, Prints, Utf8.Step, Utf8.Flush;
    DispatchSetsNone(p.parameters, p.privateMode, b, title);
    PrintsSetNone(Utf8.Flush(p.decoder), title);
    PrintsSetNone(Utf8.Step(p.decoder, b).emitted, title);
  }

  lemma PrintsSetNone(cs: seq<CodePoint>, title: seq<Byte>)
    ensures SetTitle(title) !in Prints(cs)
  {
  }

  lemma DispatchSetsNone(buffer: seq<Byte>, privateMode: bool, final: Byte, title: seq<Byte>)
    ensures SetTitle(title) !in Dispatch(buffer, privateMode, final)
  {
    hide ParseParameters, Count, EraseMode;
  }

  /**
    A byte sets the title if and only if it completes an operating system command whose raw payload
    is at most 4096 bytes and reads 0;title or 2;title.
   */
  lemma TitleSetExactly(stream: seq<Byte>, n: nat, title: seq<Byte>)
    requires n < |stream|
    ensures SetTitle(title) in Step(At(stream, n), stream[n]).ops <==> SetsTitle(stream, n, title)
  {
    hide Step, Run, IsBody;
    var p := At(stream, n);
    if SetTitle(title) in Step(p, stream[n]).ops {
      OnlyOscSetsTitles(p, stream[n], title);
      PayloadIsRaw(stream, n);
      var i: nat :| Collected(stream, i, n);
      CollectedPayload(stream, i, n);
      TitlePayloads(p.payload, title);
      assert TitleAt(stream, i, n, title);
    }
    if SetsTitle(stream, n, title) {
      var i: nat :| TitleAt(stream, i, n, title);
      CompletedRun(stream, i, n);
      TitlePayloads(Body(stream, i, n), title);
    }
  }

  lemma CollectedPayload(stream: seq<Byte>, i: nat, n: nat)
    requires Collected(stream, i, n)
    ensures if At(stream, n).state != OscEscape then stream[i..n] == At(stream, n).payload
            else i < n && stream[n - 1] == ESC && stream[i..n - 1] == At(stream, n).payload
  {
    hide OscStart, IsBody, At;
    var payload := At(stream, n).payload;
    assert payload + [] == payload;
    if At(stream, n).state == OscEscape {
      assert stream[n - 1] == stream[i..n][n - 1 - i];
      assert stream[i..n - 1] == stream[i..n][..n - 1 - i];
      assert (payload + [ESC])[..|payload|] == payload;
    }
  }

  /** A payload over 4096 bytes does nothing when it completes. */
  lemma OversizedDoesNothing(stream: seq<Byte>, i: nat, n: nat)
    requires Completes(stream, i, n) && |Body(stream, i, n)| > MAXIMUM_SEQUENCE_BYTES
    ensures Step(At(stream, n), stream[n]).ops == []
  {
    CompletedRun(stream, i, n);
  }

  // ---- The title after a whole stream ----

  ghost predicate SetsSomeTitle(stream: seq<Byte>, n: nat) {
    exists title: seq<Byte> :: SetsTitle(stream, n, title)
  }

  ghost function TitleSet(stream: seq<Byte>, n: nat): (title: seq<Byte>)
    requires SetsSomeTitle(stream, n)
    ensures SetsTitle(stream, n, title)
  {
    var title: seq<Byte> :| SetsTitle(stream, n, title);
    title
  }

  /** The title of the last completed command among the first `n` bytes, or else `before`. */
  ghost function LastTitle(stream: seq<Byte>, n: nat, before: seq<Byte>): seq<Byte>
    requires n <= |stream|
  {
    if n == 0 then before
    else if SetsSomeTitle(stream, n - 1) then
      var title := TitleSet(stream, n - 1);
      title[..Min(|title|, 512)]
    else LastTitle(stream, n - 1, before)
  }

  lemma {:induction false} OthersKeepTitle(t: Terminal.Terminal, ops: seq<Op>)
    requires Terminal.WellFormed(t) && forall op :: op in ops ==> !op.SetTitle?
    ensures Terminal.ApplyAll(t, ops).title == t.title
    decreases |ops|
  {
    hide Terminal.Apply, Terminal.WellFormed;
    if ops != [] {
      OtherKeepsTitle(t, ops[0]);
      OthersKeepTitle(Terminal.Apply(t, ops[0]), ops[1..]);
    }
  }

  lemma OtherKeepsTitle(t: Terminal.Terminal, op: Op)
    requires Terminal.WellFormed(t) && !op.SetTitle?
    ensures Terminal.Apply(t, op).title == t.title
  {
    hide Terminal.PrintCodePoint, Terminal.Control, Terminal.Rendition, Terminal.EraseScreen, Terminal.EraseRow;
    match op {
      case Print(c) => Terminal.PrintFrame(t, c);
      case ExecuteControl(control) => Terminal.ControlFrame(t, control);
      case _ =>
    }
  }

  /** After any byte stream, the title is that of the last completed command, cut to 512 bytes. */
  lemma {:induction false} TitleAfterStream(t: Terminal.Terminal, stream: seq<Byte>, n: nat)
    requires Terminal.WellFormed(t) && n <= |stream|
    ensures Terminal.ApplyAll(t, Run(INITIAL, stream[..n]).ops).title == LastTitle(stream, n, t.title)
    decreases n
  {
    hide Run, Step, Terminal.ApplyAll, Terminal.WellFormed, SetsTitle;
    if n == 0 {
      NothingRead(t, stream);
    } else {
      TitleAfterStream(t, stream, n - 1);
      TitleStep(t, stream, n - 1);
    }
  }

  lemma NothingRead(t: Terminal.Terminal, stream: seq<Byte>)
    requires Terminal.WellFormed(t)
    ensures Terminal.ApplyAll(t, Run(INITIAL, stream[..0]).ops) == t
  {
    assert stream[..0] == [];
    Terminal.ApplyNone(t);
  }

  lemma TitleStep(t: Terminal.Terminal, stream: seq<Byte>, n: nat)
    requires Terminal.WellFormed(t) && n < |stream|
    requires Terminal.ApplyAll(t, Run(INITIAL, stream[..n]).ops).title == LastTitle(stream, n, t.title)
    ensures Terminal.ApplyAll(t, Run(INITIAL, stream[..n + 1]).ops).title == LastTitle(stream, n + 1, t.title)
  {
    hide Run, Step, Terminal.ApplyAll, Terminal.WellFormed, SetsTitle;
    var before, step := Run(INITIAL, stream[..n]).ops, Step(At(stream, n), stream[n]).ops;
    AtNext(stream, n);
    Terminal.ApplyAllConcat(t, before, step);
    var t' := Terminal.ApplyAll(t, before);
    if exists title: seq<Byte> :: SetTitle(title) in step {
      var title: seq<Byte> :| SetTitle(title) in step;
      TitleSetExactly(stream, n, title);
      OnlyOscSetsTitles(At(stream, n), stream[n], title);
      OneTitle(t', title);
      forall other: seq<Byte> | SetsTitle(stream, n, other)
        ensures other == title
      {
        TitleSetExactly(stream, n, other);
        OnlyOscSetsTitles(At(stream, n), stream[n], other);
      }
    } else {
      forall title: seq<Byte>
        ensures !SetsTitle(stream, n, title)
      {
        TitleSetExactly(stream, n, title);
      }
      OthersKeepTitle(t', step);
    }
  }

  lemma OneTitle(t: Terminal.Terminal, title: seq<Byte>)
    requires Terminal.WellFormed(t)
    ensures Terminal.ApplyAll(t, [SetTitle(title)]).title == title[..Min(|title|, Terminal.MAXIMUM_TITLE_BYTES)]
  {
    hide Terminal.Apply, Terminal.ApplyAll, Terminal.WellFormed;
    Terminal.ApplyNoneOrOne(t);
    TitleApplied(t, title);
  }

  lemma TitleApplied(t: Terminal.Terminal, title: seq<Byte>)
    requires Terminal.WellFormed(t)
    ensures Terminal.Apply(t, SetTitle(title)) == t.(title := title[..Min(|title|, Terminal.MAXIMUM_TITLE_BYTES)])
  {
    hide Terminal.WellFormed;
  }
}
