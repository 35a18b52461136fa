/**
 * The underlying OutputStream the writer forwards to, reduced to what the
 * writer can observe of it: the calls it receives, in order.
 */
module RecordingSink {
  import opened Bytes

  /** One call made on the sink: `write(b, off, len)` with the bytes it handed over, or `flush()`. */
  datatype Call = Write(data: seq<byte>) | Flush

  /** The bytes the sink received, in the order it received them. */
  function Sent(log: seq<Call>): seq<byte> {
    if log == [] then []
    else Sent(log[..|log| - 1]) + (match log[|log| - 1] case Write(d) => d case Flush => [])
  }

  lemma {:induction false} SentAppend(a: seq<Call>, b: seq<Call>)
    ensures Sent(a + b) == Sent(a) + Sent(b)
  {
    if b == [] {
      assert a + b == a;
    } else {
      SentAppend(a, b[..|b| - 1]);
      assert (a + b)[..|a + b| - 1] == a + b[..|b| - 1];
      assert (a + b)[|a + b| - 1] == b[|b| - 1];
    }
  }

  /** Every call in `calls` hands over at least one byte; none is a flush. */
  ghost predicate NonEmptyWrites(calls: seq<Call>) {
    calls == [] || (calls[0].Write? && calls[0].data != [] && NonEmptyWrites(calls[1..]))
  }

  /** `after` is `before` followed only by non-empty writes. */
  ghost predicate OnlyWritesAppended(before: seq<Call>, after: seq<Call>) {
    |before| <= |after| && after[..|before|] == before && NonEmptyWrites(after[|before|..])
  }

  lemma {:induction false} NonEmptyWritesConcat(a: seq<Call>, b: seq<Call>)
    requires NonEmptyWrites(a) && NonEmptyWrites(b)
    ensures NonEmptyWrites(a + b)
  {
    if a == [] {
      assert a + b == b;
    } else {
      NonEmptyWritesConcat(a[1..], b);
      assert (a + b)[1..] == a[1..] + b;
    }
  }

  lemma OnlyWritesAppendedTransitive(a: seq<Call>, b: seq<Call>, c: seq<Call>)
    requires OnlyWritesAppended(a, b) && OnlyWritesAppended(b, c)
    ensures OnlyWritesAppended(a, c)
  {
    assert c[..|a|] == c[..|b|][..|a|];
    NonEmptyWritesConcat(b[|a|..], c[|b|..]);
    assert c[|a|..] == b[|a|..] + c[|b|..];
  }

  /** The calls a buffer flush makes: one write of the pending bytes, none if there are none. */
  function PendingWrite(pending: seq<byte>): seq<Call> {
    if pending == [] then [] else [Call.Write(pending)]
  }

  /** Flushing pending bytes hands exactly those bytes over, in non-empty writes only. */
  lemma FlushAppends(log: seq<Call>, pending: seq<byte>)
    ensures OnlyWritesAppended(log, log + PendingWrite(pending))
    ensures Sent(log + PendingWrite(pending)) == Sent(log) + pending
  {
    SentAppend(log, PendingWrite(pending));
    assert (log + PendingWrite(pending))[|log|..] == PendingWrite(pending);
    if pending == [] {
      assert log + [] == log;
    }
  }

  lemma WriteAppends(log: seq<Call>, data: seq<byte>)
    requires data != []
    ensures OnlyWritesAppended(log, log + [Call.Write(data)])
    ensures Sent(log + [Call.Write(data)]) == Sent(log) + data
  {
    FlushAppends(log, data);
  }

  /** A recorder standing for the stream the writer wraps (a socket in Jedis). */
  class Sink {
    ghost var log: seq<Call>

    constructor ()
      ensures log == []
    {
      log := [];
    }

    method Write(b: seq<byte>, off: int, len: int)
      requires 0 <= off && 0 <= len && off + len <= |b|
      modifies this
      ensures log == old(log) + [Call.Write(b[off..off + len])]
    {
      log := log + [Call.Write(b[off..off + len])];
    }

    method Flush()
      modifies this
      ensures log == old(log) + [Call.Flush]
    {
      log := log + [Call.Flush];
    }
  }
}
