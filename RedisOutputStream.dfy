/**
 * Jedis's RedisOutputStream: an unsynchronized buffered writer with a fast
 * path for "decimal integer followed by CRLF" lines.
 *
 * The logical output of a stream is what its sink has received followed by
 * what is still pending in the buffer, `Sent(out.log) + buf[..count]`; every
 * write extends it by exactly the bytes written, whatever flushes happen.
 */
module RedisOutput {
  import opened Bytes
  import opened Decimal
  import opened RecordingSink

  const DEFAULT_BUFFER_SIZE: int := 8192
  const CACHE_MAX: int := 100

  /** `SIZE_TABLE[k]` is the largest value with at most `k` digits, capped at the int range. */
  const SIZE_TABLE: seq<int> :=
    [0, 9, 99, 999, 9999, 99999, 999999, 9999999, 99999999, 999999999, INT_MAX]

  const DIGITS: seq<byte> := AsciiBytes("0123456789")

  /** The line for Integer.MIN_VALUE, whose magnitude is not an int. */
  const MIN_INT: seq<byte> := AsciiBytes("-2147483648\r\n")

  /** The pre-rendered lines of 0..CACHE_MAX that the static initializer builds (see BuildIntCache). */
  const INT_CACHE: seq<seq<byte>> := seq(CACHE_MAX + 1, k => IntLine(k))

  /** Appending the same bytes after two splittings of one output gives one output. */
  lemma ExtendOutput(sent0: seq<byte>, pending0: seq<byte>, sent1: seq<byte>, pending1: seq<byte>, data: seq<byte>)
    requires sent1 + pending1 == sent0 + pending0
    ensures sent1 + (pending1 + data) == sent0 + pending0 + data
  {
    assert sent1 + (pending1 + data) == (sent1 + pending1) + data;
  }

  lemma AppendThree(o: seq<byte>, a: seq<byte>, b: seq<byte>, c: seq<byte>)
    ensures o + a + b + c == o + (a + b + c)
  {
    assert o + a + b == o + (a + b);
  }

  datatype Result<T> = Success(value: T) | Failure(message: string)

  // ---------------------------------------------------------------------
  // The constant tables

  /** Entry `k` of the table is the largest `k`-digit value, `10^k - 1`, except that the last is capped at INT_MAX. */
  lemma SizeTableEntry(k: int)
    requires 0 <= k < |SIZE_TABLE|
    ensures k < 10 ==> SIZE_TABLE[k] == Pow10(k) - 1
    ensures k == 10 ==> SIZE_TABLE[k] == INT_MAX < Pow10(k)
  {
    if k == 0 {
      assert Pow10(0) == 1;
    } else if k == 1 {
      assert Pow10(1) == 10;
    } else if k == 2 {
      assert Pow10(2) == 100;
    } else if k == 3 {
      assert Pow10(3) == 1000;
    } else if k == 4 {
      assert Pow10(4) == 10000;
    } else if k == 5 {
      assert Pow10(5) == 100000;
    } else if k == 6 {
      assert Pow10(6) == 1000000;
    } else if k == 7 {
      assert Pow10(7) == 10000000;
    } else if k == 8 {
      assert Pow10(8) == 100000000;
    } else if k == 9 {
      assert Pow10(9) == 1000000000;
    } else if k == 10 {
      assert Pow10(10) == 10000000000;
    }
  }

  lemma DigitsTable(d: int)
    requires 0 <= d < 10
    ensures |DIGITS| == 10 && DIGITS[d] == DigitByte(d)
  {
    var s := "0123456789";
    assert s[d] as int == 48 + d by {
      if d == 0 {} else if d == 1 {} else if d == 2 {} else if d == 3 {} else if d == 4 {}
      else if d == 5 {} else if d == 6 {} else if d == 7 {} else if d == 8 {} else {}
    }
  }

  /** The hard-coded MIN_VALUE line is the rendering of -2^31 followed by CRLF. */
  lemma MinIntLine()
    ensures MIN_INT == IntLine(INT_MIN)
  {
    var d: seq<byte> := [50];
    assert DecimalDigits(2) == d;
    DigitsStep(21, d);
    d := d + [49];
    DigitsStep(214, d);
    d := d + [52];
    DigitsStep(2147, d);
    d := d + [55];
    DigitsStep(21474, d);
    d := d + [52];
    DigitsStep(214748, d);
    d := d + [56];
    DigitsStep(2147483, d);
    d := d + [51];
    DigitsStep(21474836, d);
    d := d + [54];
    DigitsStep(214748364, d);
    d := d + [52];
    DigitsStep(2147483648, d);
    d := d + [56];
    assert MIN_INT == [MINUS] + d + CRLF;
  }


  // ---------------------------------------------------------------------
  // Digit counting and digit rendering

  /** The sizeTable scan: the number of digits of `x`, and 0 for 0 (which the cache covers). */
  method StringSize(x: int) returns (size: nat)
    requires 0 <= x <= INT_MAX
    ensures size <= 10
    ensures size == if x == 0 then 0 else NumDigits(x)
  {
    SizeTableEntry(0);
    size := 0;
    while x > SIZE_TABLE[size]
      invariant size <= 10
      invariant forall k :: 0 <= k < size ==> x > SIZE_TABLE[k]
      decreases 10 - size
    {
      size := size + 1;
    }
    if x != 0 {
      SizeTableEntry(size - 1);
      SizeTableEntry(size);
      assert Pow10(size - 1) <= x < Pow10(size);
      NumDigitsFromBounds(x, size);
    }
  }

  /**
   * Writes the digits of `value` right to left into `a[end - size..end]`,
   * peeling them off with `% 10` and `/ 10`.
   */
  method PutDigits(a: array<byte>, end: int, value: int, size: int)
    requires 1 <= value && size == NumDigits(value) && size <= end <= a.Length
    modifies a
    ensures a[end - size..end] == DecimalDigits(value)
    ensures a[..end - size] == old(a[..end - size]) && a[end..] == old(a[end..])
  {
    ghost var ds := DecimalDigits(value);
    var v := value;
    var charPos := end;
    for i := 0 to size
      invariant charPos == end - i
      invariant v == Shift(value, i)
      invariant forall j :: 0 <= j < charPos ==> a[j] == old(a[j])
      invariant forall j :: end <= j < a.Length ==> a[j] == old(a[j])
      invariant forall j :: charPos <= j < end ==> a[j] == ds[j - (end - size)]
    {
      charPos := charPos - 1;
      DigitAt(value, i);
      DigitsTable(v % 10);
      a[charPos] := DIGITS[v % 10];
      v := v / 10;
    }
  }

  /** System.arraycopy from a caller's bytes into an array. */
  method ArrayCopy(src: seq<byte>, srcPos: int, dest: array<byte>, destPos: int, len: int)
    requires 0 <= srcPos && 0 <= destPos && 0 <= len
    requires srcPos + len <= |src| && destPos + len <= dest.Length
    modifies dest
    ensures dest[destPos..destPos + len] == src[srcPos..srcPos + len]
    ensures dest[..destPos] == old(dest[..destPos])
    ensures dest[destPos + len..] == old(dest[destPos + len..])
  {
    forall i | destPos <= i < destPos + len {
      dest[i] := src[srcPos + (i - destPos)];
    }
  }

  /** One iteration of the static initializer: a fresh array filled with the digits of `cached`, then CRLF. */
  method CacheEntry(cached: int) returns (entry: seq<byte>)
    requires 1 <= cached <= CACHE_MAX
    ensures entry == IntLine(cached)
  {
    var size := StringSize(cached);
    var row := new byte[size + 2];
    PutDigits(row, size, cached, size);
    row[row.Length - 2] := CR;
    row[row.Length - 1] := LF;
    assert row[..] == row[..size] + row[size..];
    entry := row[..];
  }

  /** The static initializer: entry 0 is a literal, the others are rendered in place. */
  method BuildIntCache() returns (cache: seq<seq<byte>>)
    ensures |cache| == CACHE_MAX + 1
    ensures forall k :: 0 <= k <= CACHE_MAX ==> cache[k] == DecimalDigits(k) + CRLF
    ensures cache == INT_CACHE
  {
    var table := new seq<byte>[CACHE_MAX + 1];
    table[0] := AsciiBytes("0\r\n");
    assert table[0] == IntLine(0);
    for cached := 1 to CACHE_MAX + 1
      invariant forall k :: 0 <= k < cached ==> table[k] == IntLine(k)
    {
      table[cached] := CacheEntry(cached);
    }
    cache := table[..];
  }

  // ---------------------------------------------------------------------
  // The stream

  /** The capacities for which `writeIntCrLf(value)` stays inside the buffer. */
  predicate CanWriteInt(capacity: int, value: int32) {
    (0 <= value <= CACHE_MAX) || value == INT_MIN ||
    (2 <= capacity && NumDigits(if value < 0 then -value else value) <= capacity)
  }

  class RedisOutputStream {
    const out: Sink
    const buf: array<byte>
    var count: nat

    /** The bytes written but not yet handed to the sink, `buf[..count]`. */
    ghost var pending: seq<byte>

    ghost predicate Valid()
      reads this, buf
    {
      0 < buf.Length && count <= buf.Length && pending == buf[..count]
    }

    /** Everything written so far: what the sink has received, then what is still buffered. */
    ghost function Output(): seq<byte>
      reads this, out
    {
      Sent(out.log) + pending
    }

    constructor (out: Sink, size: int)
      requires 0 < size
      ensures Valid() && fresh(buf)
      ensures this.out == out && buf.Length == size && count == 0 && pending == []
    {
      this.out := out;
      buf := new byte[size];
      count := 0;
      pending := [];
    }

    /** The two-argument Java constructor, with its rejection of a non-positive size. */
    static method Create(out: Sink, size: int) returns (r: Result<RedisOutputStream>)
      ensures r.Failure? <==> size <= 0
      ensures r.Success? ==>
        fresh(r.value) && fresh(r.value.buf) && r.value.Valid() && r.value.out == out &&
        r.value.buf.Length == size && r.value.count == 0 && r.value.pending == []
    {
      if size <= 0 {
        return Failure("Buffer size <= 0");
      }
      var s := new RedisOutputStream(out, size);
      return Success(s);
    }

    /** The one-argument Java constructor. */
    static method CreateDefault(out: Sink) returns (s: RedisOutputStream)
      ensures fresh(s) && fresh(s.buf) && s.Valid() && s.out == out
      ensures s.buf.Length == DEFAULT_BUFFER_SIZE && s.count == 0 && s.pending == []
    {
      s := new RedisOutputStream(out, DEFAULT_BUFFER_SIZE);
    }

    method EnsureBuffer(size: int)
      requires Valid()
      modifies this, out
      ensures Valid() && Output() == old(Output())
      ensures size >= old(buf.Length - count) ==>
        count == 0 && out.log == old(out.log) + PendingWrite(old(pending))
      ensures size < old(buf.Length - count) ==>
        count == old(count) && out.log == old(out.log)
      ensures count == 0 || count + size < buf.Length
      ensures OnlyWritesAppended(old(out.log), out.log)
    {
      if size >= buf.Length - count {
        FlushBuffer();
      }
    }

    method FlushBuffer()
      requires Valid()
      modifies this, out
      ensures Valid() && count == 0
      ensures out.log == old(out.log) + PendingWrite(old(pending))
      ensures old(count) > 0 ==> out.log == old(out.log) + [Call.Write(old(buf[..count]))]
      ensures old(count) == 0 ==> out.log == old(out.log)
      ensures Output() == old(Output())
      ensures OnlyWritesAppended(old(out.log), out.log)
    {
      FlushAppends(out.log, pending);
      if count > 0 {
        out.Write(buf[..], 0, count);
        count := 0;
        pending := [];
      }
    }

    method WriteByte(b: byte)
      requires Valid()
      modifies this, buf, out
      ensures Valid()
      ensures Output() == old(Output()) + [b]
      ensures 1 >= old(buf.Length - count) ==>
        out.log == old(out.log) + PendingWrite(old(pending)) && pending == [b]
      ensures 1 < old(buf.Length - count) ==>
        out.log == old(out.log) && pending == old(pending) + [b]
      ensures OnlyWritesAppended(old(out.log), out.log)
    {
      EnsureBuffer(1);
      ghost var before := pending;
      buf[count] := b;
      assert buf[..count + 1] == before + [b];
      count := count + 1;
      pending := before + [b];
      ExtendOutput(old(Sent(out.log)), old(pending), Sent(out.log), before, [b]);
    }

    method WriteBytes(b: seq<byte>)
      requires Valid()
      modifies this, buf, out
      ensures Valid()
      ensures Output() == old(Output()) + b
      ensures |b| >= buf.Length ==>
        count == 0 && out.log == old(out.log) + PendingWrite(old(pending)) + [Call.Write(b)]
      ensures |b| < buf.Length && |b| >= old(buf.Length - count) ==>
        out.log == old(out.log) + PendingWrite(old(pending)) && pending == b
      ensures |b| < old(buf.Length - count) ==>
        out.log == old(out.log) && pending == old(pending) + b
      ensures OnlyWritesAppended(old(out.log), out.log)
    {
      Write(b, 0, |b|);
      assert b[0..|b|] == b;
    }

    method Write(b: seq<byte>, off: int, len: int)
      requires Valid()
      requires 0 <= off && 0 <= len && off + len <= |b|
      modifies this, buf, out
      ensures Valid()
      ensures Output() == old(Output()) + b[off..off + len]
      ensures len >= buf.Length ==>
        count == 0 &&
        out.log == old(out.log) + PendingWrite(old(pending)) + [Call.Write(b[off..off + len])]
      ensures len < buf.Length && len >= old(buf.Length - count) ==>
        out.log == old(out.log) + PendingWrite(old(pending)) && pending == b[off..off + len]
      ensures len < old(buf.Length - count) ==>
        out.log == old(out.log) && pending == old(pending) + b[off..off + len]
      ensures OnlyWritesAppended(old(out.log), out.log)
    {
      if len >= buf.Length {
        FlushBuffer();
        ghost var log := out.log;
        WriteAppends(log, b[off..off + len]);
        out.Write(b, off, len);
        OnlyWritesAppendedTransitive(old(out.log), log, out.log);
        ExtendOutput(old(Sent(out.log)), old(pending), Sent(log), [], b[off..off + len]);
      } else {
        EnsureBuffer(len);
        ghost var before := pending;
        ArrayCopy(b, off, buf, count, len);
        assert buf[..count + len] == before + b[off..off + len] by {
          assert buf[..count + len] == buf[..count] + buf[count..count + len];
        }
        count := count + len;
        pending := before + b[off..off + len];
        ExtendOutput(old(Sent(out.log)), old(pending), Sent(out.log), before, b[off..off + len]);
      }
    }

    method WriteCrLf()
      requires Valid() && 2 <= buf.Length
      modifies this, buf, out
      ensures Valid()
      ensures Output() == old(Output()) + CRLF
      ensures 2 >= old(buf.Length - count) ==>
        out.log == old(out.log) + PendingWrite(old(pending)) && pending == CRLF
      ensures 2 < old(buf.Length - count) ==>
        out.log == old(out.log) && pending == old(pending) + CRLF
      ensures OnlyWritesAppended(old(out.log), out.log)
    {
      EnsureBuffer(2);
      ghost var before := pending;
      buf[count] := CR;
      count := count + 1;
      buf[count] := LF;
      count := count + 1;
      assert buf[..count] == before + CRLF;
      pending := before + CRLF;
      ExtendOutput(old(Sent(out.log)), old(pending), Sent(out.log), before, CRLF);
    }

    method WriteCachedIntCrLf(value: int32) returns (done: bool)
      requires Valid()
      modifies this, buf, out
      ensures Valid()
      ensures done <==> 0 <= value <= CACHE_MAX || value == INT_MIN
      ensures done ==> Output() == old(Output()) + IntLine(value)
      ensures done ==> OnlyWritesAppended(old(out.log), out.log)
      ensures done && |IntLine(value)| >= buf.Length ==>
        count == 0 &&
        out.log == old(out.log) + PendingWrite(old(pending)) + [Call.Write(IntLine(value))]
      ensures done && |IntLine(value)| < buf.Length && |IntLine(value)| >= old(buf.Length - count) ==>
        out.log == old(out.log) + PendingWrite(old(pending)) && pending == IntLine(value)
      ensures done && old(count) + |IntLine(value)| < buf.Length ==>
        out.log == old(out.log) && pending == old(pending) + IntLine(value)
      ensures !done ==> unchanged(this, out)
    {
      if 0 <= value <= CACHE_MAX {
        WriteBytes(INT_CACHE[value]);
        return true;
      } else if value == INT_MIN {
        MinIntLine();
        WriteBytes(MIN_INT);
        return true;
      }
      return false;
    }

    method WriteIntCrLf(value: int32)
      requires Valid() && CanWriteInt(buf.Length, value)
      modifies this, buf, out
      ensures Valid()
      ensures Output() == old(Output()) + IntLine(value)
      ensures OnlyWritesAppended(old(out.log), out.log)
      ensures old(count) + |IntLine(value)| < buf.Length ==>
        out.log == old(out.log) && pending == old(pending) + IntLine(value)
    {
      var cached := WriteCachedIntCrLf(value);
      if !cached {
        WriteComputedIntCrLf(value);
      }
    }

    /** The rest of writeIntCrLf, for the values the cache does not cover: sign, digits, CRLF. */
    method WriteComputedIntCrLf(value: int32)
      requires Valid() && CanWriteInt(buf.Length, value)
      requires !(0 <= value <= CACHE_MAX) && value != INT_MIN
      modifies this, buf, out
      ensures Valid()
      ensures Output() == old(Output()) + IntLine(value)
      ensures OnlyWritesAppended(old(out.log), out.log)
      ensures old(count) + |IntLine(value)| < buf.Length ==>
        out.log == old(out.log) && pending == old(pending) + IntLine(value)
    {
      ghost var log0, pending0, out0 := out.log, pending, Output();
      var v := value;
      if v < 0 {
        WriteByte(MINUS);
        v := -v;
      }
      ghost var log1, pending1, out1 := out.log, pending, Output();
      assert out1 == out0 + Sign(value);
      WriteDigits(v);
      ghost var log2, pending2 := out.log, pending;
      WriteCrLf();
      IntLineParts(value);
      AppendThree(out0, Sign(value), DecimalDigits(v), CRLF);
      OnlyWritesAppendedTransitive(log0, log1, log2);
      OnlyWritesAppendedTransitive(log0, log2, out.log);
      if |pending0| + |IntLine(value)| < buf.Length {
        assert log1 == log0 && pending1 == pending0 + Sign(value);
        assert log2 == log1 && pending2 == pending1 + DecimalDigits(v);
        assert out.log == log2 && pending == pending2 + CRLF;
        AppendThree(pending0, Sign(value), DecimalDigits(v), CRLF);
      }
    }

    /** The general path of writeIntCrLf after the sign: the digit count, room for it, then the digits in place. */
    method WriteDigits(v: int)
      requires Valid() && 1 <= v <= INT_MAX && NumDigits(v) <= buf.Length
      modifies this, buf, out
      ensures Valid()
      ensures Output() == old(Output()) + DecimalDigits(v)
      ensures OnlyWritesAppended(old(out.log), out.log)
      ensures NumDigits(v) >= old(buf.Length - count) ==>
        out.log == old(out.log) + PendingWrite(old(pending)) && pending == DecimalDigits(v)
      ensures NumDigits(v) < old(buf.Length - count) ==>
        out.log == old(out.log) && pending == old(pending) + DecimalDigits(v)
    {
      var size := StringSize(v);
      EnsureBuffer(size);
      ghost var before := pending;
      var charPos := count + size;
      PutDigits(buf, charPos, v, size);
      assert buf[..charPos] == before + DecimalDigits(v) by {
        assert buf[..charPos] == buf[..count] + buf[count..charPos];
      }
      count := charPos;
      pending := before + DecimalDigits(v);
      ExtendOutput(old(Sent(out.log)), old(pending), Sent(out.log), before, DecimalDigits(v));
    }

    method Flush()
      requires Valid()
      modifies this, out
      ensures Valid() && count == 0
      ensures out.log == old(out.log) + PendingWrite(old(pending)) + [Call.Flush]
      ensures old(count) == 0 ==> out.log == old(out.log) + [Call.Flush]
      ensures Output() == old(Output())
    {
      FlushBuffer();
      out.Flush();
    }
  }
}
