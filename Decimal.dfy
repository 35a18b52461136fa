/**
 * The decimal ASCII rendering of integers that the stream emits, stated
 * independently of how the stream computes it, together with a reference
 * parser and the facts about digit counts the sizeTable scan relies on.
 */
module Decimal {
  import opened Bytes

  function Pow10(k: nat): (p: nat)
    ensures p >= 1
  {
    if k == 0 then 1 else 10 * Pow10(k - 1)
  }

  /** The number of decimal digits of `n` (the value 0 has one digit). */
  function NumDigits(n: nat): (k: nat)
    ensures k >= 1
  {
    if n < 10 then 1 else 1 + NumDigits(n / 10)
  }

  /** The decimal digits of `n`, most significant first, without leading zeros. */
  function DecimalDigits(n: nat): (s: seq<byte>)
    ensures |s| == NumDigits(n)
    ensures forall i :: 0 <= i < |s| ==> IsDigit(s[i])
    ensures s[0] == ZERO <==> n == 0
  {
    if n < 10 then [DigitByte(n)] else DecimalDigits(n / 10) + [DigitByte(n % 10)]
  }

  /** The decimal rendering of a signed integer: a '-' before the digits of its magnitude when negative. */
  function Decimal(v: int): seq<byte> {
    if v < 0 then [MINUS] + DecimalDigits(-v) else DecimalDigits(v)
  }

  /** One protocol integer line: the decimal rendering followed by CRLF. */
  function IntLine(v: int): seq<byte> {
    Decimal(v) + CRLF
  }

  /** The minus sign a negative value is rendered with, and nothing otherwise. */
  function Sign(v: int): seq<byte> {
    if v < 0 then [MINUS] else []
  }

  function Magnitude(v: int): nat {
    if v < 0 then -v else v
  }

  /** A line is its sign, the digits of its magnitude and CRLF. */
  lemma IntLineParts(v: int)
    ensures IntLine(v) == Sign(v) + DecimalDigits(Magnitude(v)) + CRLF
    ensures |IntLine(v)| == |Sign(v)| + NumDigits(Magnitude(v)) + 2
  {
    if v >= 0 {
      assert Sign(v) + DecimalDigits(v) == DecimalDigits(v);
    }
  }

  /** One step of the rendering: the digits of `n` extend those of `n / 10` by its last digit. */
  lemma DigitsStep(n: nat, d: seq<byte>)
    requires n >= 10 && DecimalDigits(n / 10) == d
    ensures DecimalDigits(n) == d + [DigitByte(n % 10)]
  {
  }

  // ---------------------------------------------------------------------
  // Digit counts

  lemma {:induction false} NumDigitsBounds(n: nat)
    requires n >= 1
    ensures Pow10(NumDigits(n) - 1) <= n < Pow10(NumDigits(n))
  {
    if n >= 10 {
      NumDigitsBounds(n / 10);
      var k := NumDigits(n / 10);
      assert Pow10(k) == 10 * Pow10(k - 1) <= 10 * (n / 10) <= n;
      assert n < 10 * (n / 10) + 10 <= 10 * Pow10(k) == Pow10(k + 1);
    }
  }

  lemma {:induction false} NumDigitsFromBounds(n: nat, k: nat)
    requires 1 <= k && Pow10(k - 1) <= n < Pow10(k)
    ensures NumDigits(n) == k
  {
    if k > 1 {
      assert n >= 10;
      assert Pow10(k - 2) <= n / 10 < Pow10(k - 1);
      NumDigitsFromBounds(n / 10, k - 1);
    }
  }

  /** `n` has exactly `k` digits if and only if `10^(k-1) <= n < 10^k`. */
  lemma NumDigitsCharacterised(n: nat, k: nat)
    requires n >= 1 && k >= 1
    ensures NumDigits(n) == k <==> Pow10(k - 1) <= n < Pow10(k)
  {
    if NumDigits(n) == k {
      NumDigitsBounds(n);
    }
    if Pow10(k - 1) <= n < Pow10(k) {
      NumDigitsFromBounds(n, k);
    }
  }

  /** Every magnitude of a 32-bit int, up to 2^31 for the minimum, has at most ten digits. */
  lemma Int32MagnitudeDigits(n: nat)
    requires n <= -INT_MIN
    ensures NumDigits(n) <= 10
  {
    assert Pow10(10) == 10_000_000_000;
    NumDigitsAtMost(n, 10);
  }

  lemma {:induction false} NumDigitsAtMost(n: nat, k: nat)
    requires 1 <= k && n < Pow10(k)
    ensures NumDigits(n) <= k
  {
    if n >= 10 {
      NumDigitsAtMost(n / 10, k - 1);
    }
  }

  /** `n` with its `i` lowest decimal digits dropped, by `i` divisions by ten. */
  function Shift(n: nat, i: nat): nat {
    if i == 0 then n else Shift(n, i - 1) / 10
  }

  lemma {:induction false} ShiftFirst(n: nat, i: nat)
    ensures Shift(n, i + 1) == Shift(n / 10, i)
  {
    if i > 0 {
      ShiftFirst(n, i - 1);
    }
  }

  /** Digit `i`, counted from the right, of the rendering of `n` is the last digit of `n` shifted `i` times. */
  lemma {:induction false} DigitAt(n: nat, i: nat)
    requires i < NumDigits(n)
    ensures DecimalDigits(n)[NumDigits(n) - 1 - i] == DigitByte(Shift(n, i) % 10)
  {
    if i > 0 {
      DigitAt(n / 10, i - 1);
      ShiftFirst(n, i - 1);
    }
  }

  // ---------------------------------------------------------------------
  // A reference parser and the round trip

  /** The value of a sequence of ASCII digits, most significant first. */
  function ParseDigits(s: seq<byte>): nat
    requires forall i :: 0 <= i < |s| ==> IsDigit(s[i])
  {
    if s == [] then 0 else 10 * ParseDigits(s[..|s| - 1]) + DigitValue(s[|s| - 1])
  }

  /** An optional '-' followed by at least one digit. */
  predicate IsDecimalSyntax(s: seq<byte>) {
    if |s| > 0 && s[0] == MINUS then
      |s| > 1 && forall i :: 1 <= i < |s| ==> IsDigit(s[i])
    else
      |s| > 0 && forall i :: 0 <= i < |s| ==> IsDigit(s[i])
  }

  /** Reads back a signed decimal integer. */
  function ParseDecimal(s: seq<byte>): int
    requires IsDecimalSyntax(s)
  {
    if s[0] == MINUS then -(ParseDigits(s[1..]) as int) else ParseDigits(s)
  }

  /** No leading zero, and no "-0". */
  predicate IsCanonical(s: seq<byte>) {
    IsDecimalSyntax(s) &&
    if s[0] == MINUS then s[1] != ZERO else (s[0] != ZERO || |s| == 1)
  }

  lemma {:induction false} ParseDecimalDigits(n: nat)
    ensures ParseDigits(DecimalDigits(n)) == n
  {
    var s := DecimalDigits(n);
    if n >= 10 {
      ParseDecimalDigits(n / 10);
      assert s[..|s| - 1] == DecimalDigits(n / 10);
    }
  }

  /** Parsing the rendering of any integer gives the integer back, and the rendering is canonical. */
  lemma DecimalRoundTrip(v: int)
    ensures IsCanonical(Decimal(v))
    ensures ParseDecimal(Decimal(v)) == v
  {
    var s := Decimal(v);
    if v < 0 {
      assert s[1..] == DecimalDigits(-v);
      ParseDecimalDigits(-v);
    } else {
      ParseDecimalDigits(v);
    }
  }

  /** Distinct integers have distinct renderings. */
  lemma DecimalInjective(a: int, b: int)
    requires Decimal(a) == Decimal(b)
    ensures a == b
  {
    DecimalRoundTrip(a);
    DecimalRoundTrip(b);
  }

  lemma {:induction false} ParseDigitsZero(s: seq<byte>)
    requires |s| > 0 && forall i :: 0 <= i < |s| ==> IsDigit(s[i])
    requires ParseDigits(s) == 0
    ensures s[0] == ZERO
  {
    if |s| > 1 {
      ParseDigitsZero(s[..|s| - 1]);
    } else {
      assert DigitByte(DigitValue(s[0])) == s[0];
    }
  }

  lemma {:induction false} RenderParsedDigits(s: seq<byte>)
    requires |s| > 0 && forall i :: 0 <= i < |s| ==> IsDigit(s[i])
    requires s[0] != ZERO || |s| == 1
    ensures DecimalDigits(ParseDigits(s)) == s
  {
    var p := s[..|s| - 1];
    if |p| > 0 {
      RenderParsedDigits(p);
      if ParseDigits(p) == 0 {
        ParseDigitsZero(p);
        assert false;
      }
      var n := ParseDigits(s);
      assert n / 10 == ParseDigits(p) && n % 10 == DigitValue(s[|s| - 1]);
      assert s == p + [s[|s| - 1]];
    }
  }

  /** Every canonical decimal string is the rendering of the integer it denotes. */
  lemma RenderParsed(s: seq<byte>)
    requires IsCanonical(s)
    ensures Decimal(ParseDecimal(s)) == s
  {
    if s[0] == MINUS {
      var t := s[1..];
      RenderParsedDigits(t);
      if ParseDigits(t) == 0 {
        ParseDigitsZero(t);
        assert false;
      }
      assert s == [MINUS] + t;
    } else {
      RenderParsedDigits(s);
    }
  }
}
