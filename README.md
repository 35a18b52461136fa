# RedisOutputStream, modelled in Dafny

Jedis's `redis.clients.util.RedisOutputStream` is the unsynchronized buffered
writer behind every Redis protocol frame Jedis sends. It has three parts:

- a fixed byte array `buf` with a fill cursor `count`. The stream flushes it to
  the wrapped `OutputStream` eagerly: `ensureBuffer(n)` flushes when
  `n >= buf.length - count`, and an oversized `write(b, off, len)` bypasses the
  buffer;
- `writeIntCrLf`, which renders a 32-bit `int` in decimal plus CRLF. It finds
  the digit count by scanning `sizeTable`, writes the digits right to left
  straight into `buf`, handles the sign, and special-cases `Integer.MIN_VALUE`
  with the constant `minInt`;
- a static cache of the lines for 0..100, built by the class's static
  initializer.

The model has four modules:

- `Bytes` holds Java's `byte` and `int` widths and the protocol's ASCII
  constants.
- `Decimal` is the reference the stream is checked against, stated
  independently of the stream's algorithm. It defines the decimal rendering of
  an integer (`DecimalDigits`, `Decimal`, `IntLine`), the digit count
  (`NumDigits`, characterised by powers of ten), and a parser `ParseDecimal`.
  It proves the round trip in both directions.
- `RecordingSink` models the wrapped `OutputStream` as a `Sink` class. The
  sink records every call made on it (`write(b, off, len)` with the bytes
  handed over, or `flush()`) in a ghost log. `Sent(log)` is the byte stream the
  sink received.
- `RedisOutput` models the static tables and the initializer loop, plus the
  class itself. The class keeps `buf` as an `array<byte>` updated in place,
  `count` as a field, and a ghost `pending == buf[..count]`. Every method is
  proved against the logical output `Output() == Sent(out.log) + pending`:
  each write extends it by exactly the bytes written, whatever flushes happen
  on the way. For every buffer operation, and for the cached integer lines, it
  also states exactly which sink calls are made. For a computed integer line it
  states that only non-empty writes are made, and none when the line fits the
  free space. No write ever sends the sink a flush or an empty write
  (`OnlyWritesAppended`).

`Examples` restates the unit test `RedisOutputStreamTest` as lemmas: the five
lines it expects, and the write-then-flush sequence it performs.

## Model

| member | source | states |
|---|---|---|
| RedisOutput.RedisOutputStream.constructor | src/main/java/redis/clients/util/RedisOutputStream.java:21-27 | the stream wraps the given sink with a fresh buffer of exactly `size` bytes and nothing pending |
| RedisOutput.RedisOutputStream.Create | src/main/java/redis/clients/util/RedisOutputStream.java:21-27 | construction fails exactly when `size <= 0` ("Buffer size <= 0"); otherwise it gives a fresh, empty stream of capacity `size` on the given sink |
| RedisOutput.RedisOutputStream.CreateDefault | src/main/java/redis/clients/util/RedisOutputStream.java:17-19 | the one-argument constructor gives an empty stream of capacity 8192 |
| RedisOutput.RedisOutputStream.EnsureBuffer | src/main/java/redis/clients/util/RedisOutputStream.java:29-33 | it flushes the pending bytes if and only if `size >= capacity - count`, so a request for exactly the free space still flushes; afterwards the buffer is empty or `count + size < capacity`; the logical output is unchanged |
| RedisOutput.RedisOutputStream.FlushBuffer | src/main/java/redis/clients/util/RedisOutputStream.java:35-40 | with `count > 0` it makes exactly one sink write, of `buf[0..count)`; with `count == 0` it makes no sink call; afterwards `count == 0` and the logical output is unchanged |
| RedisOutput.RedisOutputStream.WriteByte | src/main/java/redis/clients/util/RedisOutputStream.java:42-45 | the output grows by the one byte; when at most one byte is free, the pending bytes are flushed first, otherwise no sink call is made |
| RedisOutput.RedisOutputStream.WriteBytes | src/main/java/redis/clients/util/RedisOutputStream.java:47-49 | the whole array is written, with the same three cases as the ranged write |
| RedisOutput.RedisOutputStream.Write | src/main/java/redis/clients/util/RedisOutputStream.java:51-60 | the output grows by exactly `b[off..off+len)`; when `len >= capacity` it flushes the pending bytes and forwards the range as a single sink write, at most two calls, leaving the buffer empty; when the range fits the free space it makes no sink call and appends to the pending bytes; otherwise it flushes first and the range becomes the only pending bytes |
| RedisOutput.ArrayCopy | src/main/java/redis/clients/util/RedisOutputStream.java:57 | `System.arraycopy` copies the range to `dest[destPos..destPos+len)` and leaves the rest of `dest` untouched |
| RedisOutput.RedisOutputStream.WriteCrLf | src/main/java/redis/clients/util/RedisOutputStream.java:62-66 | the output grows by CR LF; when at most two bytes are free the pending bytes are flushed first, otherwise no sink call is made |
| RedisOutput.SizeTableEntry | src/main/java/redis/clients/util/RedisOutputStream.java:68-69 | `sizeTable[k]` is `10^k - 1`, the largest value with `k` digits, for `k < 10`; the last entry is `Integer.MAX_VALUE`, below `10^10` |
| RedisOutput.DigitsTable | src/main/java/redis/clients/util/RedisOutputStream.java:71 | `digits[d]` is the ASCII character of the digit `d` |
| RedisOutput.MinIntLine | src/main/java/redis/clients/util/RedisOutputStream.java:72-73 | the hard-coded `minInt` bytes are exactly the rendering of -2^31 followed by CRLF |
| RedisOutput.StringSize | src/main/java/redis/clients/util/RedisOutputStream.java:125-128 | the `sizeTable` scan stops at an index of at most 10, and that index is the digit count of a positive value (0 for the value 0) |
| RedisOutput.PutDigits | src/main/java/redis/clients/util/RedisOutputStream.java:130-136 | peeling digits with `% 10` and `/ 10` from `charPos` down leaves exactly the decimal digits of the value in `a[end-size..end)` and touches nothing else |
| RedisOutput.CacheEntry | src/main/java/redis/clients/util/RedisOutputStream.java:84-100 | one pass of the initializer loop produces the digits of `cached` followed by CRLF |
| RedisOutput.BuildIntCache | src/main/java/redis/clients/util/RedisOutputStream.java:81-101 | the static initializer yields 101 entries, entry `k` being the decimal digits of `k` (no leading zero) and CRLF, with entry 0 the literal "0\r\n"; the result equals the table `INT_CACHE` the stream reads |
| RedisOutput.RedisOutputStream.WriteCachedIntCrLf | src/main/java/redis/clients/util/RedisOutputStream.java:103-113 | it answers true exactly for 0..100 and `Integer.MIN_VALUE`, and then has written the value's line as one `write`. A line of at least the capacity flushes the pending bytes and goes to the sink as a single write. A line that fits the free space makes no sink call. Otherwise the pending bytes are flushed first and the line becomes the only pending bytes. When it answers false it changes nothing |
| RedisOutput.RedisOutputStream.WriteIntCrLf | src/main/java/redis/clients/util/RedisOutputStream.java:115-141 | for every 32-bit value the output grows by exactly its decimal rendering (a leading '-' when negative) followed by CRLF; the sink receives only non-empty writes and no flush; when the line fits the free space no sink call is made |
| RedisOutput.RedisOutputStream.WriteComputedIntCrLf | src/main/java/redis/clients/util/RedisOutputStream.java:120-140 | the uncached path (sign byte, digits in place, CRLF) appends exactly the value's line |
| RedisOutput.RedisOutputStream.WriteDigits | src/main/java/redis/clients/util/RedisOutputStream.java:125-138 | digit count, room for it, digits in place, `count += size`: the output grows by the digits of the magnitude; if they fit the free space no sink call is made, otherwise the old pending bytes are flushed first |
| RedisOutput.RedisOutputStream.Flush | src/main/java/redis/clients/util/RedisOutputStream.java:143-146 | the pending bytes are forwarded (no write when none are pending), then exactly one sink flush follows; the buffer ends empty and the logical output is unchanged |
| Decimal.DecimalDigits | src/main/java/redis/clients/util/RedisOutputStream.java:130-136 | the rendering of `n` has `NumDigits(n)` characters, all ASCII digits, and starts with '0' only for `n == 0` |
| Decimal.DigitAt | src/main/java/redis/clients/util/RedisOutputStream.java:134-135 | digit `i` from the right of the rendering of `n` is `(n / 10^i) % 10`, which is what the `i`-th iteration of the digit loop writes |
| Decimal.NumDigitsCharacterised | src/main/java/redis/clients/util/RedisOutputStream.java:68-69 | `n` has `k` digits if and only if `10^(k-1) <= n < 10^k` |
| Decimal.Int32MagnitudeDigits | src/main/java/redis/clients/util/RedisOutputStream.java:68-69 | every 32-bit magnitude, up to 2^31, has at most ten digits |
| Decimal.IntLineParts | src/main/java/redis/clients/util/RedisOutputStream.java:120-140 | a line is the sign, the digits of the magnitude and CRLF, and its length is the sum of theirs |
| Decimal.DecimalRoundTrip | src/main/java/redis/clients/util/RedisOutputStream.java:115-141 | parsing the rendering of any integer gives the integer back, and the rendering is canonical (no leading zero, no "-0") |
| Decimal.DecimalInjective | src/main/java/redis/clients/util/RedisOutputStream.java:115-141 | distinct integers get distinct renderings |
| Decimal.RenderParsed | src/main/java/redis/clients/util/RedisOutputStream.java:115-141 | every canonical decimal string is the rendering of the integer it denotes, the other direction of the round trip |
| RecordingSink.Sink.Write | src/main/java/redis/clients/util/RedisOutputStream.java:37 | the sink records one write call holding exactly the forwarded range `b[off..off+len)` |
| RecordingSink.Sink.Flush | src/main/java/redis/clients/util/RedisOutputStream.java:145 | the sink records one flush call and nothing else |
| Examples.LineOfZero | src/test/java/redis/clients/jedis/tests/utils/RedisOutputStreamTest.java:26 | 0 gives "0\r\n", 3 bytes |
| Examples.LineOfPositive | src/test/java/redis/clients/jedis/tests/utils/RedisOutputStreamTest.java:27 | 123 gives "123\r\n", 5 bytes |
| Examples.LineOfNegative | src/test/java/redis/clients/jedis/tests/utils/RedisOutputStreamTest.java:28 | -321 gives "-321\r\n", 6 bytes |
| Examples.LineOfMaxInt | src/test/java/redis/clients/jedis/tests/utils/RedisOutputStreamTest.java:29-30 | `Integer.MAX_VALUE` gives "2147483647\r\n", 12 bytes |
| Examples.LineOfMinInt | src/test/java/redis/clients/jedis/tests/utils/RedisOutputStreamTest.java:31-32 | `Integer.MIN_VALUE` gives "-2147483648\r\n", 13 bytes |
| Examples.WriteIntThenFlush | src/test/java/redis/clients/jedis/tests/utils/RedisOutputStreamTest.java:35-46 | `writeIntCrLf(v)` then `flush()` on a fresh 8192-byte stream makes exactly one sink write holding the line of `v`, then one sink flush, so the sink has received exactly that line |

## Left out

- `IOException`: sink calls never fail in the model, so exception propagation is not modelled, nor is the state a failed `out.write` leaves behind. In `flushBuffer` (RedisOutputStream.java:35-40) `count` is reset only after `out.write` returns, so after a failed write the pending bytes would still be buffered.
- `write(int)`, `close()` and mark/reset are inherited from `FilterOutputStream` and not overridden, so they are not modelled. `write(byte)` at line 42 is modelled; it is an overload.
- Thread safety: the class is unsynchronized by design and the model is sequential.
- The wrapped `OutputStream` is a recorder of the calls it receives. Whatever a real transport does with them is not modelled.
- `MockOutputStream` (RedisOutputStreamTest.java:48-69) copies bytes into its own array. `Sink` records the same bytes as a call log instead.
- Caller-supplied `byte[]` arguments are only read, so they are modelled as `seq<byte>`. A caller's array aliasing the stream's own `buf` is not modelled: `buf` is private to the stream.
- The static initializer runs once at class load in Java. Dafny has no static initializer, so the cache is the module constant `INT_CACHE`, and the method `BuildIntCache` runs the initializer's loops and is proved to compute that constant.
- RedisOutput.RedisOutputStream.Write: requires `0 <= off`, `0 <= len` and `off + len <= b.length`. On the buffered branch (line 57) Java's `System.arraycopy` throws `IndexOutOfBoundsException` for a bad range. The pass-through branch (lines 52-54) does not check the range itself: it first flushes the pending bytes, and any exception then comes from the wrapped `out.write`. Neither exception is modelled.
- RedisOutput.RedisOutputStream.WriteCrLf: requires a capacity of at least 2. With capacity 1, Java throws `ArrayIndexOutOfBoundsException` after flushing, and that exception is not modelled.
- RedisOutput.RedisOutputStream.WriteIntCrLf: requires `CanWriteInt(capacity, value)`. On the uncached path that means a capacity of at least 2 and at least the digit count. With a smaller capacity Java throws `ArrayIndexOutOfBoundsException` from the digit loop or from `writeCrLf`, and that exception is not modelled.
- RedisOutput.RedisOutputStream.constructor: requires `0 < size`. The `IllegalArgumentException` branch is modelled by `RedisOutput.RedisOutputStream.Create`, which returns a failure.
