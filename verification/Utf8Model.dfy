/**
  The UTF-8 decoder as a function on values: the state it keeps between bytes, one step per
  byte, and the flush at the end of a run of text.
 */
module Utf8Model {
  import opened Types

  /** The three fields of the decoder. `remaining` counts the continuation bytes still awaited. */
  datatype DecoderState = DecoderState(accumulator: CodePoint, minimum: CodePoint, remaining: nat)

  const IDLE := DecoderState(0, 0, 0)

  /** What every reachable state satisfies; it keeps the 32-bit shift of the accumulator exact. */
  predicate ValidState(d: DecoderState) {
    || d == IDLE
    || (d.remaining == 3 && 0 <= d.accumulator <= 0x7)
    || (d.remaining == 2 && 0 <= d.accumulator <= 0x1FF)
    || (d.remaining == 1 && 0 <= d.accumulator <= 0x7FFF)
  }

  type Decoder = d: DecoderState | ValidState(d) witness IDLE

  datatype Decoded = Decoded(decoder: Decoder, emitted: seq<CodePoint>)

  predicate IsContinuation(b: Byte) {
    0x80 <= b <= 0xBF
  }

  /** A first byte. Masking with 0x1F, 0x0F and 0x07 is written as a remainder. */
  function LeadStep(b: Byte): Decoded {
    if 0 <= b <= 0x7F then Decoded(IDLE, [b])
    else if 0xC2 <= b <= 0xDF then Decoded(DecoderState(b % 0x20, 0x80, 1), [])
    else if 0xE0 <= b <= 0xEF then Decoded(DecoderState(b % 0x10, 0x800, 2), [])
    else if 0xF0 <= b <= 0xF4 then Decoded(DecoderState(b % 0x08, 0x10000, 3), [])
    else Decoded(IDLE, [REPLACEMENT_CHARACTER])
  }

  predicate IsScalar(c: CodePoint) {
    0 <= c <= 0x10FFFF && !(0xD800 <= c <= 0xDFFF)
  }

  type Scalar = c: CodePoint | IsScalar(c)

  /** What a completed sequence with the given accumulated value stands for. */
  function Finish(value: CodePoint, minimum: CodePoint): CodePoint {
    if value < minimum || !IsScalar(value) then REPLACEMENT_CHARACTER else value
  }

  /** One continuation byte joins the accumulated value: shift by six bits, then or with the low six. */
  function Join(value: nat, b: Byte): nat {
    value * 0x40 + b % 0x40
  }

  /** The masks of the source, on machine octets, are the remainders and the range used here. */
  lemma MaskPairLead(b: bv8)
    ensures (b & 0x1F) as int == b as int % 0x20
  {
  }

  lemma MaskTripleLead(b: bv8)
    ensures (b & 0x0F) as int == b as int % 0x10
  {
  }

  lemma MaskQuadrupleLead(b: bv8)
    ensures (b & 0x07) as int == b as int % 0x08
  {
  }

  lemma MaskContinuation(b: bv8)
    ensures b & 0xC0 == 0x80 <==> IsContinuation(b as int)
  {
  }

  /** Shifting six bits into a 32-bit word, no larger than a valid state allows, is `Join`. */
  lemma ShiftIsJoin(accumulator: bv32, b: bv8)
    requires accumulator as int <= 0x7FFF
    ensures ((accumulator << 6) | (b & 0x3F) as bv32) as int == Join(accumulator as int, b as int)
  {
  }

  function Step(d: Decoder, b: Byte): Decoded {
    if d.remaining == 0 then
      LeadStep(b)
    else if !IsContinuation(b) then
      var next := LeadStep(b);
      Decoded(next.decoder, [REPLACEMENT_CHARACTER] + next.emitted)
    else
      var value := Join(d.accumulator, b);
      if d.remaining == 1 then Decoded(IDLE, [Finish(value, d.minimum)])
      else Decoded(DecoderState(value, d.minimum, d.remaining - 1), [])
  }

  /** Ends the text: an unfinished sequence becomes one replacement character. */
  function Flush(d: Decoder): seq<CodePoint> {
    if d.remaining != 0 then [REPLACEMENT_CHARACTER] else []
  }

  function DecodeAll(d: Decoder, bytes: seq<Byte>): Decoded
    decreases |bytes|
  {
    if bytes == [] then Decoded(d, [])
    else
      var first := Step(d, bytes[0]);
      var rest := DecodeAll(first.decoder, bytes[1..]);
      Decoded(rest.decoder, first.emitted + rest.emitted)
  }

  /** The complete decoding of a byte string: everything emitted, and the final flush. */
  function DecodeText(bytes: seq<Byte>): seq<CodePoint> {
    var d := DecodeAll(IDLE, bytes);
    d.emitted + Flush(d.decoder)
  }
}
