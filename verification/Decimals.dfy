/** Decimal printing of parameters, and that the parser reads it back. */
module Decimals {
  import opened Types
  import opened Sequences
  import opened Parameters

  function Decimal(n: nat): seq<Byte> {
    if n < 10 then [0x30 + n] else Decimal(n / 10) + [0x30 + n % 10]
  }

  lemma {:induction false} DecimalRoundTrip(n: nat)
    ensures Decimal(n) != [] && AllDigits(Decimal(n)) && DigitsValue(Decimal(n)) == n
    decreases n
  {
    var text := Decimal(n);
    if n < 10 {
      assert text[..0] == [];
    } else {
      DecimalRoundTrip(n / 10);
      assert text[..|text| - 1] == Decimal(n / 10) && text[|text| - 1] == 0x30 + n % 10;
    }
  }

  // ---- What a field reads as ----

  function Zeros(k: nat): seq<Byte> {
    seq(k, _ => 0x30)
  }

  lemma {:induction false} PaddedValue(k: nat, n: nat)
    ensures var text := Zeros(k) + Decimal(n); AllDigits(text) && DigitsValue(text) == n
    decreases n
  {
    var text := Zeros(k) + Decimal(n);
    DecimalRoundTrip(n);
    if n < 10 {
      ZerosValue(k);
      assert text[..|text| - 1] == Zeros(k);
    } else {
      PaddedValue(k, n / 10);
      assert text[..|text| - 1] == Zeros(k) + Decimal(n / 10);
    }
  }

  lemma {:induction false} ZerosValue(k: nat)
    ensures AllDigits(Zeros(k)) && DigitsValue(Zeros(k)) == 0
    decreases k
  {
    if k > 0 {
      ZerosValue(k - 1);
      assert Zeros(k)[..k - 1] == Zeros(k - 1);
    }
  }

  /** Digits are the decimal form of their value, padded with zeros on the left. */
  lemma {:induction false} DigitsArePadded(text: seq<Byte>) returns (k: nat)
    requires text != [] && AllDigits(text)
    ensures text == Zeros(k) + Decimal(DigitsValue(text))
    decreases |text|
  {
    var front, last := text[..|text| - 1], text[|text| - 1];
    assert text == front + [last] && IsDigit(last);
    if front == [] {
      k := 0;
      assert DigitsValue(front) == 0;
    } else {
      k := DigitsArePadded(front);
      var value := DigitsValue(front);
      if value == 0 {
        k := k + 1;
        assert front == Zeros(k);
      } else {
        AppendAssoc(Zeros(k), Decimal(value), [last]);
        assert (value * 10 + (last - 0x30)) / 10 == value;
      }
    }
  }

  /** A minus sign, if any, then zeros, then the decimal form of the absolute value. */
  predicate PaddedNumeral(field: seq<Byte>, v: int, k: nat) {
    || (v >= 0 && field == Zeros(k) + Decimal(v))
    || (v <= 0 && field == [0x2D] + (Zeros(k) + Decimal(-v)))
  }

  ghost predicate NumeralOf(field: seq<Byte>, v: int) {
    exists k: nat :: PaddedNumeral(field, v, k)
  }

  lemma NumeralIsRead(field: seq<Byte>, v: int)
    requires IsInt32(v) && NumeralOf(field, v)
    ensures FieldValue(field) == v
  {
    hide DigitsValue, Decimal, Zeros;
    var k: nat :| PaddedNumeral(field, v, k);
    var n := if v < 0 then -v else v;
    var digits := Zeros(k) + Decimal(n);
    DecimalRoundTrip(n);
    PaddedValue(k, n);
    if field == [0x2D] + digits {
      assert field[1..] == digits;
    } else {
      assert IsDigit(digits[0]);
    }
  }

  lemma ReadIsNumeral(field: seq<Byte>)
    requires FieldValue(field) != -1
    ensures NumeralOf(field, FieldValue(field))
  {
    hide DigitsValue, Decimal, Zeros;
    var negative := field[0] == 0x2D;
    var k := DigitsArePadded(if negative then field[1..] else field);
    assert negative ==> field == [0x2D] + field[1..];
    assert PaddedNumeral(field, FieldValue(field), k);
  }

  /**
    A field reads as the number it is a numeral of, leading zeros and a minus sign allowed; a field
    that is no numeral of a 32-bit integer, being empty, malformed or too large, reads as -1.
   */
  lemma FieldReadsExactly(field: seq<Byte>, v: int)
    ensures FieldValue(field) == v
            <==> IsInt32(v) && (NumeralOf(field, v)
                                || (v == -1 && forall w :: IsInt32(w) ==> !NumeralOf(field, w)))
  {
    hide FieldValue, NumeralOf;
    forall w | IsInt32(w) && NumeralOf(field, w)
      ensures FieldValue(field) == w
    {
      NumeralIsRead(field, w);
    }
    if FieldValue(field) != -1 {
      ReadIsNumeral(field);
    }
  }

  // ---- Writing parameters ----

  lemma {:induction false} DecimalLength(n: nat, bound: nat, digits: nat)
    requires n < bound && (digits == 1 ==> bound == 10) && 1 <= digits <= 10
    requires bound == [10, 100, 1000, 10000, 100000, 1000000, 10000000, 100000000, 1000000000, 10000000000][digits - 1]
    ensures |Decimal(n)| <= digits
    decreases digits
  {
    if n >= 10 {
      DecimalLength(n / 10, bound / 10, digits - 1);
    }
  }

  /** A parameter that can be written: an `int` that is not negative, or -1 for an empty field. */
  predicate Writable(v: int) {
    -1 <= v < 0x8000_0000
  }

  predicate AllWritable(ps: seq<int>) {
    forall i :: 0 <= i < |ps| ==> Writable(ps[i])
  }

  function WriteField(v: int): seq<Byte>
    requires Writable(v)
  {
    if v == -1 then [] else Decimal(v)
  }

  /** The parameters with semicolons in between. */
  function WriteParameters(ps: seq<int>): seq<Byte>
    requires AllWritable(ps)
  {
    if ps == [] then []
    else if |ps| == 1 then WriteField(ps[0])
    else WriteField(ps[0]) + ([SEMICOLON] + WriteParameters(ps[1..]))
  }

  lemma FieldRoundTrip(v: int)
    requires Writable(v)
    ensures AllDigits(WriteField(v)) && |WriteField(v)| <= 10 && FieldValue(WriteField(v)) == v
    ensures v != -1 ==> WriteField(v) != []
  {
    hide DigitsValue, Decimal;
    if v != -1 {
      DecimalRoundTrip(v);
      DecimalLength(v, 10000000000, 10);
      assert IsDigit(WriteField(v)[0]);
    }
  }

  /** Digits and semicolons only, and not many of them. */
  lemma {:induction false} WrittenBytes(ps: seq<int>)
    requires AllWritable(ps)
    ensures var text := WriteParameters(ps);
            && (forall i :: 0 <= i < |text| ==> IsDigit(text[i]) || text[i] == SEMICOLON)
            && |text| <= 11 * |ps|
    decreases |ps|
  {
    hide WriteField;
    if ps != [] {
      FieldRoundTrip(ps[0]);
      WrittenBytes(ps[1..]);
    }
  }

  lemma {:induction false} SplitWritten(ps: seq<int>, limit: nat)
    requires ps != [] && AllWritable(ps) && |ps| <= limit
    ensures FieldValues(Split(WriteParameters(ps)), limit) == ps
    decreases |ps|
  {
    hide Split, FieldValue, FieldValues, WriteField;
    var text, field := WriteParameters(ps), WriteField(ps[0]);
    FieldRoundTrip(ps[0]);
    assert forall i :: 0 <= i < |field| ==> text[i] == field[i] && IsDigit(field[i]);
    SplitAt(text, |field|);
    if |ps| == 1 {
      FieldValuesStep(field, [], limit);
      assert [field] + [] == [field];
      FieldValuesNone(limit - 1);
      assert [ps[0]] + [] == ps;
    } else {
      assert text[..|field|] == field && text[|field| + 1..] == WriteParameters(ps[1..]);
      FieldValuesStep(field, Split(WriteParameters(ps[1..])), limit);
      SplitWritten(ps[1..], limit - 1);
      assert [ps[0]] + ps[1..] == ps;
    }
  }

  lemma FieldValuesNone(limit: nat)
    ensures FieldValues([], limit) == []
  {
  }

  /** Behind a question mark every written list is read back. */
  lemma PrivateParametersRoundTrip(ps: seq<int>)
    requires ps != [] && AllWritable(ps) && |ps| <= 32
    ensures ParseParameters([QUESTION_MARK] + WriteParameters(ps)) == ps
  {
    hide Split, FieldValues, WriteParameters;
    assert ([QUESTION_MARK] + WriteParameters(ps))[1..] == WriteParameters(ps);
    SplitWritten(ps, MAXIMUM_PARAMETER_COUNT);
  }

  /** Without one, every written list but the lone empty field: that is written as nothing. */
  lemma ParametersRoundTrip(ps: seq<int>)
    requires AllWritable(ps) && |ps| <= 32
    ensures ParseParameters(WriteParameters(ps)) == ps <==> ps != [-1]
  {
    hide Split, FieldValues;
    WrittenBytes(ps);
    if ps != [] && ps != [-1] {
      NotWrittenEmpty(ps);
      SplitWritten(ps, MAXIMUM_PARAMETER_COUNT);
    }
  }

  lemma NotWrittenEmpty(ps: seq<int>)
    requires AllWritable(ps) && ps != [] && ps != [-1]
    ensures WriteParameters(ps) != []
  {
    if |ps| == 1 {
      assert ps == [ps[0]];
      FieldRoundTrip(ps[0]);
    }
  }
}
