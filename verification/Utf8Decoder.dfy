/** The incremental UTF-8 decoder. What it hands to its consumer is returned, in order. */
module Utf8DecoderClass {
  import opened Types
  import Model = Utf8Model

  class Utf8Decoder {
    var accumulator: CodePoint
    var minimumValue: CodePoint
    var remaining: nat

    ghost predicate Valid()
      reads this
    {
      Model.ValidState(Model.DecoderState(accumulator, minimumValue, remaining))
    }

    ghost function Value(): Model.Decoder
      requires Valid()
      reads this
    {
      Model.DecoderState(accumulator, minimumValue, remaining)
    }

    constructor ()
      ensures Valid() && Value() == Model.IDLE
    {
      accumulator, minimumValue, remaining := 0, 0, 0;
    }

    method Feed(byte: Byte) returns (emitted: seq<CodePoint>)
      requires Valid() && IsByte(byte)
      modifies this
      ensures Valid()
      ensures Model.Decoded(Value(), emitted) == Model.Step(old(Value()), byte)
    {
      emitted := Process(byte);
    }

    method Flush() returns (emitted: seq<CodePoint>)
      requires Valid()
      modifies this
      ensures Valid() && Value() == Model.IDLE
      ensures emitted == Model.Flush(old(Value()))
    {
      emitted := [];
      if remaining != 0 {
        emitted := [REPLACEMENT_CHARACTER];
      }
      Clear();
    }

    /** The `reset` of the source. */
    method Clear()
      modifies this
      ensures Valid() && Value() == Model.IDLE
    {
      accumulator, minimumValue, remaining := 0, 0, 0;
    }

    /** Masks and shifts are written as justified by the mask lemmas and `ShiftIsJoin` of Utf8Model. */
    method Process(byte: Byte) returns (emitted: seq<CodePoint>)
      requires Valid() && IsByte(byte)
      modifies this
      ensures Valid()
      ensures Model.Decoded(Value(), emitted) == Model.Step(old(Value()), byte)
      decreases remaining
    {
      if remaining == 0 {
        if byte <= 0x7F {
          return [byte];
        }
        if 0xC2 <= byte <= 0xDF {
          accumulator, minimumValue, remaining := byte % 0x20, 0x80, 1;
          return [];
        }
        if 0xE0 <= byte <= 0xEF {
          accumulator, minimumValue, remaining := byte % 0x10, 0x800, 2;
          return [];
        }
        if 0xF0 <= byte <= 0xF4 {
          accumulator, minimumValue, remaining := byte % 0x08, 0x10000, 3;
          return [];
        }
        return [REPLACEMENT_CHARACTER];
      }

      if !Model.IsContinuation(byte) {
        Clear();
        var again := Process(byte);
        return [REPLACEMENT_CHARACTER] + again;
      }

      accumulator := Model.Join(accumulator, byte);
      remaining := remaining - 1;
      if remaining != 0 {
        return [];
      }
      var decoded := accumulator;
      var isSurrogate := 0xD800 <= decoded <= 0xDFFF;
      if decoded < minimumValue || decoded > 0x10FFFF || isSurrogate {
        emitted := [REPLACEMENT_CHARACTER];
      } else {
        emitted := [decoded];
      }
      Clear();
    }
  }
}
