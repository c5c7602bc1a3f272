/**
  What the decoder computes, stated against the encoding of section 3 of RFC 3629 and against a
  division of the whole input that looks ahead instead of keeping state.
 */
module Utf8Theorems {
  import opened Types
  import opened Sequences
  import opened Utf8Model

  // ---- The encoding ----

  /** Section 3 of RFC 3629. */
  function Encode(c: Scalar): (bytes: seq<Byte>)
    ensures 1 <= |bytes| <= 4 && !IsContinuation(bytes[0])
    ensures forall i :: 1 <= i < |bytes| ==> IsContinuation(bytes[i])
  {
    assert IsScalar(c);
    if c < 0x80 then [c]
    else if c < 0x800 then [0xC0 + c / 0x40, 0x80 + c % 0x40]
    else
      var high := c / 0x40;
      if c < 0x10000 then [0xE0 + high / 0x40, 0x80 + high % 0x40, 0x80 + c % 0x40]
      else [0xF0 + high / 0x40 / 0x40, 0x80 + high / 0x40 % 0x40, 0x80 + high % 0x40, 0x80 + c % 0x40]
  }

  function EncodeAll(cs: seq<Scalar>): seq<Byte> {
    if cs == [] then [] else Encode(cs[0]) + EncodeAll(cs[1..])
  }

  /** `segment` is the encoding of a scalar value. */
  ghost predicate IsEncoding(segment: seq<Byte>) {
    exists c: Scalar :: Encode(c) == segment
  }

  /** What one segment of the input must decode to. */
  ghost function Meaning(segment: seq<Byte>): Scalar {
    if IsEncoding(segment) then
      var c: Scalar :| Encode(c) == segment;
      c
    else REPLACEMENT_CHARACTER
  }

  lemma EncodeInjective(c: Scalar, d: Scalar)
    requires Encode(c) == Encode(d)
    ensures c == d
  {
    if 0x80 <= c {
      EncodedValue(c);
      EncodedValue(d);
    }
  }

  lemma MeaningOfEncoding(c: Scalar)
    ensures Meaning(Encode(c)) == c
  {
    assert IsEncoding(Encode(c));
    var d := Meaning(Encode(c));
    EncodeInjective(c, d);
  }

  // ---- The division into segments ----

  /** How many continuation bytes a first byte calls for. */
  function Need(lead: Byte): nat {
    if 0xC2 <= lead <= 0xDF then 1
    else if 0xE0 <= lead <= 0xEF then 2
    else if 0xF0 <= lead <= 0xF4 then 3
    else 0
  }

  /** How many bytes at the front of `bytes` are continuation bytes, counting no further than `limit`. */
  function ContinuationRun(bytes: seq<Byte>, limit: nat): (n: nat)
    ensures n <= limit && n <= |bytes|
    decreases limit
  {
    if limit == 0 || bytes == [] || !IsContinuation(bytes[0]) then 0
    else 1 + ContinuationRun(bytes[1..], limit - 1)
  }

  /** A first byte with as many of its continuation bytes as are there. */
  function SegmentLength(bytes: seq<Byte>): (n: nat)
    requires bytes != []
    ensures 1 <= n <= |bytes|
  {
    1 + ContinuationRun(bytes[1..], Need(bytes[0]))
  }

  /** The input ends before the sequence at its front does. */
  predicate Unfinished(bytes: seq<Byte>)
    requires bytes != []
  {
    SegmentLength(bytes) == |bytes| < 1 + Need(bytes[0])
  }

  function Segments(bytes: seq<Byte>): seq<seq<Byte>>
    decreases |bytes|
  {
    if bytes == [] || Unfinished(bytes) then []
    else [bytes[..SegmentLength(bytes)]] + Segments(bytes[SegmentLength(bytes)..])
  }

  function Tail(bytes: seq<Byte>): seq<Byte>
    decreases |bytes|
  {
    if bytes == [] || Unfinished(bytes) then bytes
    else Tail(bytes[SegmentLength(bytes)..])
  }

  ghost function Meanings(segments: seq<seq<Byte>>): seq<Scalar> {
    if segments == [] then [] else [Meaning(segments[0])] + Meanings(segments[1..])
  }

  // ---- Stepping through one segment ----

  function Accumulate(value: nat, bytes: seq<Byte>): nat
    decreases |bytes|
  {
    if bytes == [] then value else Accumulate(Join(value, bytes[0]), bytes[1..])
  }

  predicate AllContinuations(bytes: seq<Byte>) {
    forall i :: 0 <= i < |bytes| ==> IsContinuation(bytes[i])
  }

  lemma {:induction false} DecodeSome(d: Decoder, bytes: seq<Byte>)
    requires AllContinuations(bytes) && |bytes| < d.remaining
    ensures var all := DecodeAll(d, bytes);
            all.emitted == [] && all.decoder.remaining == d.remaining - |bytes|
    decreases |bytes|
  {
    if bytes != [] {
      DecodeSome(Step(d, bytes[0]).decoder, bytes[1..]);
    }
  }

  lemma {:induction false} DecodeRest(d: Decoder, bytes: seq<Byte>)
    requires AllContinuations(bytes) && |bytes| == d.remaining > 0
    ensures var value := Accumulate(d.accumulator, bytes);
            value < 0x1_0000_0000 && DecodeAll(d, bytes) == Decoded(IDLE, [Finish(value, d.minimum)])
    decreases |bytes|
  {
    var step := Step(d, bytes[0]);
    if d.remaining == 1 {
      assert Accumulate(d.accumulator, bytes) == Join(d.accumulator, bytes[0]);
      assert DecodeAll(IDLE, bytes[1..]) == Decoded(IDLE, []);
    } else {
      DecodeRest(step.decoder, bytes[1..]);
    }
  }

  /** Anything else where a continuation byte is due: a replacement character, then a fresh start. */
  lemma DecodeInterrupted(d: Decoder, bytes: seq<Byte>)
    requires d.remaining > 0 && bytes != [] && !IsContinuation(bytes[0])
    ensures var restart := DecodeAll(IDLE, bytes);
            DecodeAll(d, bytes) == Decoded(restart.decoder, [REPLACEMENT_CHARACTER] + restart.emitted)
  {
    hide LeadStep, Join, Finish;
    var lead := LeadStep(bytes[0]);
    var rest := DecodeAll(lead.decoder, bytes[1..]);
    assert [REPLACEMENT_CHARACTER] + lead.emitted + rest.emitted == [REPLACEMENT_CHARACTER] + (lead.emitted + rest.emitted);
  }

  lemma {:induction false} DecodeConcat(d: Decoder, a: seq<Byte>, b: seq<Byte>)
    ensures var first := DecodeAll(d, a);
            var second := DecodeAll(first.decoder, b);
            DecodeAll(d, a + b) == Decoded(second.decoder, first.emitted + second.emitted)
    decreases |a|
  {
    hide Step;
    if a == [] {
      assert a + b == b;
    } else {
      DecodeConcat(Step(d, a[0]).decoder, a[1..], b);
      assert (a + b)[1..] == a[1..] + b;
    }
  }

  /** The value that the bits of a full-length segment spell. */
  function FullValue(segment: seq<Byte>): (value: CodePoint)
    requires segment != [] && 1 <= Need(segment[0]) && |segment| == 1 + Need(segment[0])
  {
    var first := LeadStep(segment[0]).decoder.accumulator;
    var second := Join(first, segment[1]);
    if |segment| == 2 then second
    else if |segment| == 3 then Join(second, segment[2])
    else Join(Join(second, segment[2]), segment[3])
  }

  lemma AccumulateIsJoin(value: nat, bytes: seq<Byte>)
    requires 1 <= |bytes| <= 3
    ensures Accumulate(value, bytes) ==
            var second := Join(value, bytes[0]);
            if |bytes| == 1 then second
            else if |bytes| == 2 then Join(second, bytes[1])
            else Join(Join(second, bytes[1]), bytes[2])
    decreases |bytes|
  {
    if |bytes| == 1 {
      assert bytes[1..] == [];
    } else {
      AccumulateIsJoin(Join(value, bytes[0]), bytes[1..]);
    }
  }

  predicate FullLength(segment: seq<Byte>) {
    && segment != []
    && 1 <= Need(segment[0]) == |segment| - 1
    && AllContinuations(segment[1..])
  }

  /** A full-length segment decodes to its meaning. */
  lemma DecodeFullSegment(segment: seq<Byte>)
    requires FullLength(segment)
    ensures DecodeAll(IDLE, segment) == Decoded(IDLE, [Meaning(segment)])
  {
    var d := LeadStep(segment[0]).decoder;
    DecodeRest(d, segment[1..]);
    AccumulateIsJoin(d.accumulator, segment[1..]);
    var value := FullValue(segment);
    if IsEncoding(segment) {
      assert 0x80 <= Meaning(segment);
      EncodedValue(Meaning(segment));
    } else if IsScalar(value) && d.minimum <= value {
      EncodeOfFullValue(segment);
      assert false;
    }
  }

  lemma EncodedValue(c: Scalar)
    requires 0x80 <= c
    ensures FullLength(Encode(c)) && FullValue(Encode(c)) == c
    ensures LeadStep(Encode(c)[0]).decoder.minimum <= c
  {
    assert IsScalar(c);
    if c < 0x800 {
      EncodedPair(c);
    } else if c < 0x10000 {
      EncodedTriple(c);
    } else {
      EncodedQuadruple(c);
    }
  }

  lemma EncodedPair(c: Scalar)
    requires 0x80 <= c < 0x800
    ensures FullLength(Encode(c)) && FullValue(Encode(c)) == c
  {
    hide Join;
    JoinOfSplit(c);
    LeadOfBits(c / 0x40, 0xC0, 0x20);
  }

  lemma EncodedTriple(c: Scalar)
    requires 0x800 <= c < 0x10000
    ensures FullLength(Encode(c)) && FullValue(Encode(c)) == c
  {
    hide Join;
    JoinOfSplit(c);
    JoinOfSplit(c / 0x40);
    LeadOfBits(c / 0x40 / 0x40, 0xE0, 0x10);
  }

  lemma EncodedQuadruple(c: Scalar)
    requires 0x10000 <= c <= 0x10FFFF
    ensures FullLength(Encode(c)) && FullValue(Encode(c)) == c
  {
    hide Join;
    JoinOfSplit(c);
    JoinOfSplit(c / 0x40);
    JoinOfSplit(c / 0x40 / 0x40);
    LeadOfBits(c / 0x40 / 0x40 / 0x40, 0xF0, 0x08);
  }

  lemma EncodeOfFullValue(segment: seq<Byte>)
    requires FullLength(segment)
    requires IsScalar(FullValue(segment)) && LeadStep(segment[0]).decoder.minimum <= FullValue(segment)
    ensures Encode(FullValue(segment)) == segment
  {
    hide Join;
    var first := LeadStep(segment[0]).decoder.accumulator;
    var second := Join(first, segment[1]);
    assert segment[1] == segment[1..][0];
    SplitOfJoin(first, segment[1]);
    if |segment| == 2 {
      BitsOfLead(segment[0], 0xC0, 0x20);
    } else {
      assert segment[2] == segment[1..][1];
      SplitOfJoin(second, segment[2]);
      if |segment| == 3 {
        BitsOfLead(segment[0], 0xE0, 0x10);
      } else {
        assert segment[3] == segment[1..][2];
        SplitOfJoin(Join(second, segment[2]), segment[3]);
        BitsOfLead(segment[0], 0xF0, 0x08);
      }
    }
  }

  lemma JoinOfSplit(c: nat)
    ensures Join(c / 0x40, 0x80 + c % 0x40) == c
  {
  }

  lemma SplitOfJoin(value: nat, b: Byte)
    requires IsContinuation(b)
    ensures Join(value, b) / 0x40 == value && 0x80 + Join(value, b) % 0x40 == b
  {
  }

  lemma LeadOfBits(bits: nat, mark: nat, size: nat)
    requires (mark, size) == (0xC0, 0x20) || (mark, size) == (0xE0, 0x10) || (mark, size) == (0xF0, 0x08)
    requires bits < size
    ensures (mark + bits) % size == bits
  {
  }

  lemma BitsOfLead(lead: Byte, mark: nat, size: nat)
    requires (mark, size) == (0xC0, 0x20) || (mark, size) == (0xE0, 0x10) || (mark, size) == (0xF0, 0x08)
    requires mark <= lead < mark + size
    ensures mark + lead % size == lead
  {
  }

  /** A segment cut short, or a first byte that starts nothing, encodes no scalar value. */
  lemma BrokenSegment(segment: seq<Byte>)
    requires segment != [] && (|segment| < 1 + Need(segment[0]) || (|segment| == 1 && Need(segment[0]) == 0 && !(0 <= segment[0] < 0x80)))
    ensures Meaning(segment) == REPLACEMENT_CHARACTER
  {
    if IsEncoding(segment) {
      var c := Meaning(segment);
      assert IsScalar(c);
      if 0x80 <= c {
        EncodedValue(c);
      }
      assert false;
    }
  }

  // ---- Main results ----

  /** The run is made of continuation bytes, and nothing short of its limit could extend it. */
  lemma {:induction false} RunOfContinuations(bytes: seq<Byte>, limit: nat)
    ensures var n := ContinuationRun(bytes, limit);
            && AllContinuations(bytes[..n])
            && (n < |bytes| && n < limit ==> !IsContinuation(bytes[n]))
    decreases limit
  {
    if limit != 0 && bytes != [] && IsContinuation(bytes[0]) {
      var n := ContinuationRun(bytes, limit);
      RunOfContinuations(bytes[1..], limit - 1);
      assert bytes[..n] == [bytes[0]] + bytes[1..][..n - 1];
    }
  }

  lemma FirstSegment(bytes: seq<Byte>)
    requires bytes != [] && !Unfinished(bytes)
    ensures var n := SegmentLength(bytes);
            var after := DecodeAll(IDLE, bytes[n..]);
            DecodeAll(IDLE, bytes) == Decoded(after.decoder, [Meaning(bytes[..n])] + after.emitted)
  {
    hide Step, LeadStep, Need, Meaning, DecodeAll;
    var n := SegmentLength(bytes);
    var segment, rest := bytes[..n], bytes[n..];
    assert bytes == segment + rest;
    DecodeConcat(IDLE, segment, rest);
    RunOfContinuations(bytes[1..], Need(bytes[0]));
    assert segment[1..] == bytes[1..][..n - 1];
    if n == 1 + Need(bytes[0]) {
      DecodeWholeSegment(segment);
    } else {
      BrokenSegment(segment);
      DecodeShortSegment(segment);
      assert rest[0] == bytes[1..][n - 1];
      DecodeInterrupted(DecodeAll(IDLE, segment).decoder, rest);
    }
  }

  /** A segment cut short leaves the decoder waiting. */
  lemma DecodeShortSegment(segment: seq<Byte>)
    requires segment != [] && |segment| < 1 + Need(segment[0]) && AllContinuations(segment[1..])
    ensures DecodeAll(IDLE, segment).emitted == [] && DecodeAll(IDLE, segment).decoder.remaining > 0
  {
    DecodeSome(LeadStep(segment[0]).decoder, segment[1..]);
  }

  lemma DecodeWholeSegment(segment: seq<Byte>)
    requires segment != [] && |segment| == 1 + Need(segment[0]) && AllContinuations(segment[1..])
    ensures DecodeAll(IDLE, segment) == Decoded(IDLE, [Meaning(segment)])
  {
    if Need(segment[0]) > 0 {
      DecodeFullSegment(segment);
    } else {
      assert segment == [segment[0]];
      if 0 <= segment[0] < 0x80 {
        assert segment == Encode(segment[0]);
        MeaningOfEncoding(segment[0]);
      } else {
        BrokenSegment(segment);
      }
    }
  }

  lemma UnfinishedInput(bytes: seq<Byte>)
    requires bytes != [] && Unfinished(bytes)
    ensures DecodeAll(IDLE, bytes).emitted == [] && DecodeAll(IDLE, bytes).decoder.remaining > 0
  {
    RunOfContinuations(bytes[1..], Need(bytes[0]));
    assert bytes[1..][..|bytes| - 1] == bytes[1..];
    DecodeShortSegment(bytes);
  }

  /**
    The input splits, in order, into its segments and an unfinished tail; each segment yields one
    code point, the scalar value it encodes or else U+FFFD, and the decoder waits for more bytes
    exactly when there is a tail.
   */
  lemma {:induction false} Segmentation(bytes: seq<Byte>)
    ensures Flatten(Segments(bytes)) + Tail(bytes) == bytes
    ensures forall k :: 0 <= k < |Segments(bytes)| ==> Segments(bytes)[k] != []
    ensures DecodeAll(IDLE, bytes).emitted == Meanings(Segments(bytes))
    ensures DecodeAll(IDLE, bytes).decoder.remaining != 0 <==> Tail(bytes) != []
    decreases |bytes|
  {
    hide Step, SegmentLength;
    if bytes == [] {
    } else if Unfinished(bytes) {
      UnfinishedInput(bytes);
    } else {
      var n := SegmentLength(bytes);
      var rest := bytes[n..];
      FirstSegment(bytes);
      Segmentation(rest);
      assert Segments(bytes) == [bytes[..n]] + Segments(rest);
      FlattenPrepend(bytes[..n], Segments(rest), Tail(rest));
    }
  }

  lemma FlattenPrepend(first: seq<Byte>, rest: seq<seq<Byte>>, tail: seq<Byte>)
    ensures Flatten([first] + rest) + tail == first + (Flatten(rest) + tail)
    ensures Meanings([first] + rest) == [Meaning(first)] + Meanings(rest)
  {
    assert ([first] + rest)[1..] == rest;
  }

  /** Only scalar values are emitted, and never more of them than bytes were fed. */
  lemma {:induction false} EmissionBounds(d: Decoder, bytes: seq<Byte>)
    ensures var all := DecodeAll(d, bytes);
            (forall c :: c in all.emitted ==> IsScalar(c))
            && |all.emitted| + |Flush(all.decoder)| <= |bytes| + |Flush(d)|
    decreases |bytes|
  {
    if bytes != [] {
      var step := Step(d, bytes[0]);
      assert (forall c :: c in step.emitted ==> IsScalar(c)) && |step.emitted| + |Flush(step.decoder)| <= 1 + |Flush(d)|;
      hide Step;
      EmissionBounds(step.decoder, bytes[1..]);
    }
  }

  /** One encoded character, whatever the decoder was in the middle of. */
  lemma DecodeOneEncoded(d: Decoder, c: Scalar)
    ensures DecodeAll(d, Encode(c)) == Decoded(IDLE, Flush(d) + [c])
  {
    var e := Encode(c);
    assert DecodeAll(IDLE, e) == Decoded(IDLE, [c]) by {
      if |e| == 1 {
        assert IsScalar(c);
        assert DecodeAll(IDLE, e[1..]) == Decoded(IDLE, []);
      } else {
        EncodedValue(c);
        DecodeFullSegment(e);
        MeaningOfEncoding(c);
      }
    }
    if d.remaining > 0 {
      DecodeInterrupted(d, e);
    } else {
      assert Flush(d) + [c] == [c];
    }
  }

  lemma {:induction false} DecodeEncoded(cs: seq<Scalar>)
    ensures DecodeAll(IDLE, EncodeAll(cs)) == Decoded(IDLE, cs)
    decreases |cs|
  {
    if cs != [] {
      DecodeEncoded(cs[1..]);
      DecodeFromFirst(IDLE, cs);
      assert Flush(IDLE) + cs == cs;
    }
  }

  lemma DecodeFromFirst(d: Decoder, cs: seq<Scalar>)
    requires cs != []
    requires DecodeAll(IDLE, EncodeAll(cs[1..])) == Decoded(IDLE, cs[1..])
    ensures DecodeAll(d, EncodeAll(cs)) == Decoded(IDLE, Flush(d) + cs)
  {
    hide DecodeAll, Encode, Flush, IsScalar;
    DecodeOneEncoded(d, cs[0]);
    DecodeJoined(d, Encode(cs[0]), Flush(d) + [cs[0]], EncodeAll(cs[1..]), cs[1..]);
    HeadAndTail(Flush(d), cs);
  }

  lemma DecodeJoined(d: Decoder, a: seq<Byte>, x: seq<CodePoint>, b: seq<Byte>, y: seq<CodePoint>)
    requires DecodeAll(d, a) == Decoded(IDLE, x) && DecodeAll(IDLE, b) == Decoded(IDLE, y)
    ensures DecodeAll(d, a + b) == Decoded(IDLE, x + y)
  {
    DecodeConcat(d, a, b);
  }

  /** Round trip and resynchronisation: garbage in front never reaches into encoded text behind it. */
  lemma RoundTripAfterGarbage(garbage: seq<Byte>, cs: seq<Scalar>)
    ensures DecodeText(garbage + EncodeAll(cs)) == DecodeText(garbage) + cs
  {
    hide DecodeAll, Encode;
    var g := DecodeAll(IDLE, garbage);
    if cs == [] {
      assert garbage + EncodeAll(cs) == garbage;
    } else {
      DecodeConcat(IDLE, garbage, EncodeAll(cs));
      DecodeEncoded(cs[1..]);
      DecodeFromFirst(g.decoder, cs);
      assert g.emitted + (Flush(g.decoder) + cs) + [] == g.emitted + Flush(g.decoder) + cs;
    }
  }

  lemma RoundTrip(cs: seq<Scalar>)
    ensures DecodeText(EncodeAll(cs)) == cs
  {
    RoundTripAfterGarbage([], cs);
    assert [] + EncodeAll(cs) == EncodeAll(cs);
    assert DecodeText([]) == [];
  }
}
