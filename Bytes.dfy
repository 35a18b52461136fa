/** Java's primitive widths and the ASCII bytes of the Redis protocol. */
module Bytes {

  /** A Java `byte`: a signed 8-bit value. */
  newtype byte = b: int | -128 <= b < 128

  const INT_MIN: int := -0x8000_0000
  const INT_MAX: int := 0x7fff_ffff

  /** A Java `int`: a signed 32-bit value. */
  type int32 = x: int | INT_MIN <= x <= INT_MAX

  const CR: byte := 13
  const LF: byte := 10
  const MINUS: byte := 45
  const ZERO: byte := 48

  /** The protocol's line delimiter, carriage return then line feed. */
  const CRLF: seq<byte> := [CR, LF]

  predicate IsAscii(s: string) {
    forall i :: 0 <= i < |s| ==> s[i] < 128 as char
  }

  /** The bytes of an ASCII string, one byte per character (a Java `'c'` byte literal). */
  function AsciiBytes(s: string): (r: seq<byte>)
    requires IsAscii(s)
    ensures |r| == |s|
    ensures forall i :: 0 <= i < |s| ==> r[i] as int == s[i] as int
  {
    seq(|s|, i requires 0 <= i < |s| => s[i] as int as byte)
  }

  predicate IsDigit(b: byte) {
    ZERO <= b <= ZERO + 9
  }

  /** The ASCII character of the decimal digit `d`. */
  function DigitByte(d: int): (b: byte)
    requires 0 <= d < 10
    ensures IsDigit(b)
  {
    (48 + d) as byte
  }

  /** The digit an ASCII digit character stands for. */
  function DigitValue(b: byte): (d: nat)
    requires IsDigit(b)
    ensures d < 10 && DigitByte(d) == b
  {
    (b - ZERO) as int
  }
}
