/**
 * strconv.ParseInt(s, 10, 64) and strconv.ParseUint(s, 10, 64) on byte
 * strings, with the decimal formatting that they invert.
 */
module Strconv {
  import opened Wrappers
  import opened GoTypes

  const MaxUint64: int := 0xFFFF_FFFF_FFFF_FFFF
  const MaxInt64: int := 0x7FFF_FFFF_FFFF_FFFF
  const MinInt64: int := -0x8000_0000_0000_0000

  predicate IsDigit(c: byte) {
    '0' as byte <= c <= '9' as byte
  }

  predicate AllDigits(s: seq<byte>) {
    forall i :: 0 <= i < |s| ==> IsDigit(s[i])
  }

  /** The number a string of decimal digits denotes, most significant digit first. */
  function DigitsValue(s: seq<byte>): nat
    requires AllDigits(s)
    decreases |s|
  {
    if s == [] then 0
    else DigitsValue(s[..|s| - 1]) * 10 + (s[|s| - 1] as int - '0' as int)
  }

  /** ParseUint with base 10 and 64 bits: one or more digits, no sign, at most 2^64 - 1. */
  function ParseUint64(s: seq<byte>): (r: Option<nat>)
    ensures r.Some? ==> r.value <= MaxUint64
  {
    if s == [] || !AllDigits(s) then None
    else if DigitsValue(s) > MaxUint64 then None
    else Some(DigitsValue(s))
  }

  /**
   * ParseInt with base 10 and 64 bits: an optional '+' or '-', then what
   * ParseUint accepts, within the int64 range.
   */
  function ParseInt64(s: seq<byte>): (r: Option<int>)
    ensures r.Some? ==> MinInt64 <= r.value <= MaxInt64
  {
    if s == [] then None
    else
      var neg := s[0] == '-' as byte;
      var digits := if s[0] == '+' as byte || neg then s[1..] else s;
      match ParseUint64(digits)
      case None => None
      case Some(u) =>
        if !neg && u >= 0x8000_0000_0000_0000 then None
        else if neg && u > 0x8000_0000_0000_0000 then None
        else Some(if neg then -(u as int) else u as int)
  }

  function DigitByte(d: nat): (c: byte)
    requires d < 10
    ensures IsDigit(c) && c as int - '0' as int == d
  {
    ('0' as int + d) as byte
  }

  /** strconv.FormatUint(n, 10): the shortest decimal rendering of n. */
  function FormatDecimal(n: nat): (s: seq<byte>)
    ensures s != [] && AllDigits(s)
    decreases n
  {
    if n < 10 then [DigitByte(n)] else FormatDecimal(n / 10) + [DigitByte(n % 10)]
  }

  /** strconv.FormatInt(n, 10). */
  function FormatInt(n: int): (s: seq<byte>)
    ensures s != []
  {
    if n < 0 then ['-' as byte] + FormatDecimal(-n) else FormatDecimal(n)
  }

  lemma {:induction false} FormatDecimalValue(n: nat)
    ensures DigitsValue(FormatDecimal(n)) == n
    decreases n
  {
    if n >= 10 {
      FormatDecimalValue(n / 10);
      var s := FormatDecimal(n);
      assert s[..|s| - 1] == FormatDecimal(n / 10);
    }
  }

  /** ParseUint inverts FormatUint on the whole uint64 range. */
  lemma ParseFormatUint(n: nat)
    requires n <= MaxUint64
    ensures ParseUint64(FormatDecimal(n)) == Some(n)
  {
    FormatDecimalValue(n);
  }

  /** ParseInt inverts FormatInt on the whole int64 range. */
  lemma ParseFormatInt(n: int)
    requires MinInt64 <= n <= MaxInt64
    ensures ParseInt64(FormatInt(n)) == Some(n)
  {
    var s := FormatInt(n);
    if n < 0 {
      FormatDecimalValue(-n);
      assert s[1..] == FormatDecimal(-n);
    } else {
      FormatDecimalValue(n);
      assert IsDigit(s[0]);
    }
  }

  /** Unlike ParseInt, ParseUint refuses any sign. */
  lemma ParseUintRejectsSign(s: seq<byte>)
    requires s != [] && (s[0] == '+' as byte || s[0] == '-' as byte)
    ensures ParseUint64(s) == None
  {
    assert !IsDigit(s[0]);
  }

  /** A leading '+' does not change what ParseInt reads. */
  lemma ParseIntPlus(s: seq<byte>)
    requires s != [] && IsDigit(s[0])
    ensures ParseInt64(['+' as byte] + s) == ParseInt64(s)
  {
    assert (['+' as byte] + s)[1..] == s;
  }

  /** One past the int64 maximum is out of range for ParseInt, though ParseUint accepts it. */
  lemma ParseIntRange()
    ensures ParseInt64(FormatDecimal(MaxInt64 + 1)) == None
    ensures ParseUint64(FormatDecimal(MaxInt64 + 1)) == Some(MaxInt64 + 1)
  {
    FormatDecimalValue(MaxInt64 + 1);
    assert IsDigit(FormatDecimal(MaxInt64 + 1)[0]);
  }
}
