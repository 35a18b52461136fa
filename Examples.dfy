/**
 * The integer lines the unit test of writeIntCrLf expects, and the
 * write-then-flush sequence it performs on a default-sized stream.
 */
module Examples {
  import opened Bytes
  import opened Decimal
  import opened RecordingSink
  import opened RedisOutput

  lemma MaxIntDigits()
    ensures DecimalDigits(INT_MAX) == AsciiBytes("2147483647")
  {
    var d: seq<byte> := [50];
    assert DecimalDigits(2) == d;
    DigitsStep(21, d);
    d := d + [49];
    DigitsStep(214, d);
    d := d + [52];
    DigitsStep(2147, d);
    d := d + [55];
    DigitsStep(21474, d);
    d := d + [52];
    DigitsStep(214748, d);
    d := d + [56];
    DigitsStep(2147483, d);
    d := d + [51];
    DigitsStep(21474836, d);
    d := d + [54];
    DigitsStep(214748364, d);
    d := d + [52];
    DigitsStep(2147483647, d);
    d := d + [55];
    assert AsciiBytes("2147483647") == d;
  }

  // The five lines of the unit test, with the byte counts it checks.

  lemma LineOfZero()
    ensures IntLine(0) == AsciiBytes("0\r\n") && |IntLine(0)| == 3
  {
    assert IntLine(0) == [48, 13, 10];
  }

  lemma LineOfPositive()
    ensures IntLine(123) == AsciiBytes("123\r\n") && |IntLine(123)| == 5
  {
    assert DecimalDigits(123) == [49, 50, 51];
    assert IntLine(123) == [49, 50, 51, 13, 10];
  }

  lemma LineOfNegative()
    ensures IntLine(-321) == AsciiBytes("-321\r\n") && |IntLine(-321)| == 6
  {
    assert DecimalDigits(321) == [51, 50, 49];
    assert IntLine(-321) == [45, 51, 50, 49, 13, 10];
  }

  lemma LineOfMaxInt()
    ensures IntLine(INT_MAX) == AsciiBytes("2147483647\r\n") && |IntLine(INT_MAX)| == 12
  {
    MaxIntDigits();
    assert IntLine(INT_MAX) == AsciiBytes("2147483647") + CRLF;
  }

  lemma LineOfMinInt()
    ensures IntLine(INT_MIN) == AsciiBytes("-2147483648\r\n") && |IntLine(INT_MIN)| == 13
  {
    MinIntLine();
  }

  /**
   * writeIntCrLf then flush on a fresh stream of the default capacity: the
   * sink sees one write holding exactly the line, then one flush.
   */
  method WriteIntThenFlush(value: int32) returns (sink: Sink)
    ensures sink.log == [Call.Write(IntLine(value)), Call.Flush]
    ensures Sent(sink.log) == IntLine(value)
  {
    sink := new Sink();
    var s := RedisOutputStream.CreateDefault(sink);
    Int32MagnitudeDigits(Magnitude(value));
    IntLineParts(value);
    var line := IntLine(value);
    s.WriteIntCrLf(value);
    assert sink.log == [] && s.pending == line;
    s.Flush();
    assert PendingWrite(line) == [Call.Write(line)];
    assert sink.log == [Call.Write(line), Call.Flush];
    SentAppend([Call.Write(line)], [Call.Flush]);
    assert Sent([Call.Write(line)]) == [] + line;
  }
}
