/**
  The parameters of a control sequence: the buffered text, its division into fields, and the value
  of a field.
 */
module Parameters {
  import opened Types
  import opened Sequences

  const SEMICOLON: Byte := 0x3B
  const QUESTION_MARK: Byte := 0x3F
  const MAXIMUM_PARAMETER_COUNT: nat := 32

  /** The pieces of `text` between semicolons; there is always one more piece than semicolons. */
  function Split(text: seq<Byte>): (fields: seq<seq<Byte>>)
    ensures |fields| >= 1
  {
    if text == [] then [[]]
    else
      var rest := Split(text[1..]);
      if text[0] == SEMICOLON then [[]] + rest
      else [[text[0]] + rest[0]] + rest[1..]
  }

  function JoinFields(fields: seq<seq<Byte>>): seq<Byte> {
    if fields == [] then []
    else if |fields| == 1 then fields[0]
    else fields[0] + [SEMICOLON] + JoinFields(fields[1..])
  }

  lemma JoinGrown(b: Byte, fields: seq<seq<Byte>>)
    requires fields != []
    ensures JoinFields([[b] + fields[0]] + fields[1..]) == [b] + JoinFields(fields)
    ensures JoinFields([[]] + fields) == [SEMICOLON] + JoinFields(fields)
  {
    var grown, rest := [[b] + fields[0]] + fields[1..], JoinFields(fields[1..]);
    assert grown[1..] == fields[1..] && ([[]] + fields)[1..] == fields;
    assert [b] + fields[0] + [SEMICOLON] + rest == [b] + (fields[0] + [SEMICOLON] + rest);
    EmptyFirst([SEMICOLON]);
  }

  /** The fields, joined by semicolons, are the text again. */
  lemma {:induction false} SplitIsDivision(text: seq<Byte>)
    ensures JoinFields(Split(text)) == text
    decreases |text|
  {
    hide JoinFields;
    if text == [] {
      JoinOne([]);
    } else {
      SplitIsDivision(text[1..]);
      JoinGrown(text[0], Split(text[1..]));
      HeadAndTail([], text);
      EmptyFirst(text);
      EmptyFirst([text[0]]);
    }
  }

  lemma JoinOne(field: seq<Byte>)
    ensures JoinFields([field]) == field
  {
  }

  /** And no field holds a semicolon. */
  lemma {:induction false} FieldsHoldNoSemicolon(text: seq<Byte>, k: nat)
    requires k < |Split(text)|
    ensures SEMICOLON !in Split(text)[k]
    decreases |text|
  {
    if text != [] {
      var rest := Split(text[1..]);
      FieldsHoldNoSemicolon(text[1..], if text[0] == SEMICOLON && k > 0 then k - 1 else if k < |rest| then k else 0);
    }
  }

  predicate IsDigit(b: Byte) {
    0x30 <= b <= 0x39
  }

  predicate AllDigits(text: seq<Byte>) {
    forall i :: 0 <= i < |text| ==> IsDigit(text[i])
  }

  function DigitsValue(text: seq<Byte>): nat
    requires AllDigits(text)
  {
    if text == [] then 0
    else
      assert IsDigit(text[|text| - 1]);
      DigitsValue(text[..|text| - 1]) * 10 + (text[|text| - 1] - 0x30)
  }

  /** What `std::from_chars` reads from a whole field; -1 if it does not use all of it or overflows an `int`. */
  function FieldValue(field: seq<Byte>): (value: int)
    ensures IsInt32(value)
  {
    var negative := field != [] && field[0] == 0x2D;
    var digits := if negative then field[1..] else field;
    if digits == [] || !AllDigits(digits) then -1
    else
      var magnitude := DigitsValue(digits);
      var value: int := if negative then 0 - magnitude else magnitude;
      if -0x8000_0000 <= value < 0x8000_0000 then value else -1
  }

  /** The values of the first `limit` fields. */
  function FieldValues(fields: seq<seq<Byte>>, limit: nat): (values: seq<int>)
    ensures |values| == Min(|fields|, limit)
    decreases limit
  {
    if fields == [] || limit == 0 then []
    else [FieldValue(fields[0])] + FieldValues(fields[1..], limit - 1)
  }

  /** At most 32 values; a leading question mark is not part of the first field. */
  function ParseParameters(buffer: seq<Byte>): (values: seq<int>)
    ensures |values| <= MAXIMUM_PARAMETER_COUNT
  {
    if buffer == [] then []
    else
      FieldValues(Split(if buffer[0] == QUESTION_MARK then buffer[1..] else buffer), MAXIMUM_PARAMETER_COUNT)
  }

  function ParameterOrDefault(values: seq<int>, index: nat, default: int): int {
    if index >= |values| || values[index] < 0 then default else values[index]
  }

  /** `std::string::find` from `start` on; the length of the text if there is no such byte. */
  method Find(text: seq<Byte>, sought: Byte, start: nat) returns (index: nat)
    requires start <= |text|
    ensures start <= index <= |text|
    ensures index < |text| ==> text[index] == sought
    ensures forall i :: start <= i < index ==> text[i] != sought
  {
    index := start;
    while index < |text| && text[index] != sought
      invariant start <= index <= |text|
      invariant forall i :: start <= i < index ==> text[i] != sought
    {
      index := index + 1;
    }
  }

  /** The field up to the first semicolon, if there is one, and the split of the rest. */
  lemma {:induction false} SplitAt(text: seq<Byte>, end: nat)
    requires end <= |text| && (end < |text| ==> text[end] == SEMICOLON)
    requires forall i :: 0 <= i < end ==> text[i] != SEMICOLON
    ensures Split(text) == if end == |text| then [text] else [text[..end]] + Split(text[end + 1..])
    decreases end
  {
    if end > 0 {
      SplitAt(text[1..], end - 1);
      assert text[1..][..end - 1] == text[..end][1..];
      assert end < |text| ==> text[1..][end..] == text[end + 1..];
      assert [text[0]] + text[..end][1..] == text[..end];
      assert [text[0]] + text[1..] == text;
    }
  }

  /** The values still to come when the fields before `start` have been read. */
  function Pending(text: seq<Byte>, start: nat, limit: nat): seq<int> {
    if start <= |text| then FieldValues(Split(text[start..]), limit) else []
  }

  /** What the loop will have read in the end, having read `result` before `start`. */
  function Total(text: seq<Byte>, result: seq<int>, start: nat): seq<int>
    requires |result| <= MAXIMUM_PARAMETER_COUNT
  {
    result + Pending(text, start, MAXIMUM_PARAMETER_COUNT - |result|)
  }

  lemma FieldValuesStep(field: seq<Byte>, rest: seq<seq<Byte>>, limit: nat)
    requires limit > 0
    ensures FieldValues([field] + rest, limit) == [FieldValue(field)] + FieldValues(rest, limit - 1)
    ensures FieldValues([], limit - 1) == []
  {
    assert ([field] + rest)[1..] == rest;
  }

  lemma FieldsFrom(text: seq<Byte>, start: nat, end: nat)
    requires start <= end <= |text| && (end < |text| ==> text[end] == SEMICOLON)
    requires forall i :: start <= i < end ==> text[i] != SEMICOLON
    ensures Split(text[start..]) == [text[start..end]] + if end < |text| then Split(text[end + 1..]) else []
  {
    hide Split;
    var rest := text[start..];
    SplitAt(rest, end - start);
    assert rest[..end - start] == text[start..end];
    if end < |text| {
      assert rest[end - start + 1..] == text[end + 1..];
    } else {
      assert text[start..end] == rest;
    }
  }

  lemma NextField(text: seq<Byte>, result: seq<int>, start: nat, end: nat)
    requires start <= end <= |text| && (end < |text| ==> text[end] == SEMICOLON)
    requires forall i :: start <= i < end ==> text[i] != SEMICOLON
    requires |result| < MAXIMUM_PARAMETER_COUNT
    ensures Total(text, result, start) == Total(text, result + [FieldValue(text[start..end])], end + 1)
  {
    hide FieldValue, FieldValues, Split;
    var limit := MAXIMUM_PARAMETER_COUNT - |result|;
    FieldsFrom(text, start, end);
    FieldValuesStep(text[start..end], if end < |text| then Split(text[end + 1..]) else [], limit);
    AppendAssoc(result, [FieldValue(text[start..end])], Pending(text, end + 1, limit - 1));
  }

  /** The field that starts at `start`: its value, and where it ends. */
  method ReadField(text: seq<Byte>, start: nat) returns (value: int, end: nat)
    requires start <= |text|
    ensures start <= end <= |text| && value == FieldValue(text[start..end])
    ensures end < |text| ==> text[end] == SEMICOLON
    ensures forall i :: start <= i < end ==> text[i] != SEMICOLON
  {
    end := Find(text, SEMICOLON, start);
    value := -1;
    if end > start {
      value := FieldValue(text[start..end]);
    }
  }

  function FirstStart(text: seq<Byte>): (start: nat)
    ensures start <= |text|
  {
    if text != [] && text[0] == QUESTION_MARK then 1 else 0
  }

  lemma NoParameters()
    ensures ParseParameters([]) == []
  {
  }

  lemma TotalAtFirst(text: seq<Byte>)
    requires text != []
    ensures Total(text, [], FirstStart(text)) == ParseParameters(text)
  {
    hide Split, FieldValues;
    assert text[0..] == text;
  }

  lemma TotalAtLast(text: seq<Byte>, result: seq<int>, start: nat)
    requires |result| == MAXIMUM_PARAMETER_COUNT || (start > |text| && |result| < MAXIMUM_PARAMETER_COUNT)
    ensures Total(text, result, start) == result
  {
  }

  method ParseText(text: seq<Byte>) returns (result: seq<int>)
    ensures result == ParseParameters(text)
  {
    hide Total, FieldValue, ParseParameters;
    result := [];
    if text == [] {
      NoParameters();
      return;
    }
    var start := FirstStart(text);
    TotalAtFirst(text);
    while start <= |text| && |result| < MAXIMUM_PARAMETER_COUNT
      invariant |result| <= MAXIMUM_PARAMETER_COUNT && start <= |text| + 1
      invariant Total(text, result, start) == ParseParameters(text)
      decreases |text| + 1 - start
    {
      var value, end := ReadField(text, start);
      NextField(text, result, start, end);
      result := result + [value];
      start := end + 1;
      if end == |text| {
        break;
      }
    }
    TotalAtLast(text, result, start);
  }
}
