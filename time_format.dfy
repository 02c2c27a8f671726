/**
 * time.Time.Format with the layout "2006-01-02 15:04:05": a four-digit
 * year, then month, day, hour, minute and second as two zero-padded digits
 * each, separated by '-', ' ' and ':'.
 */
module TimeFormat {
  import opened Wrappers
  import opened GoTypes
  import opened Strconv

  /** The layout "2006-01-02 15:04:05", byte by byte in ASCII. */
  const DefaultTimeFormat: seq<byte> :=
    [50, 48, 48, 54, 45, 48, 49, 45, 48, 50, 32, 49, 53, 58, 48, 52, 58, 48, 53]

  function Pow10(n: nat): (p: nat)
    ensures p >= 1
  {
    if n == 0 then 1 else 10 * Pow10(n - 1)
  }

  /** The last `width` decimal digits of n, with leading zeros. */
  function Pad(n: nat, width: nat): (s: seq<byte>)
    ensures |s| == width && AllDigits(s)
    decreases width
  {
    if width == 0 then [] else Pad(n / 10, width - 1) + [DigitByte(n % 10)]
  }

  /** A number that fits the width is what its padded digits denote. */
  lemma {:induction false} PadValue(n: nat, width: nat)
    requires n < Pow10(width)
    ensures DigitsValue(Pad(n, width)) == n
    decreases width
  {
    if width > 0 {
      PadValue(n / 10, width - 1);
      var s := Pad(n, width);
      assert s[..width - 1] == Pad(n / 10, width - 1);
    }
  }

  /** "2006-01-02": year, month and day. */
  function DatePart(t: Timestamp): (s: seq<byte>)
    requires ValidTimestamp(t)
    ensures |s| == 10
  {
    Pad(t.year, 4) + ['-' as byte] + Pad(t.month, 2) + ['-' as byte] + Pad(t.day, 2)
  }

  /** "15:04:05": hour, minute and second. */
  function ClockPart(t: Timestamp): (s: seq<byte>)
    requires ValidTimestamp(t)
    ensures |s| == 8
  {
    Pad(t.hour, 2) + [':' as byte] + Pad(t.minute, 2) + [':' as byte] + Pad(t.second, 2)
  }

  /** Format(DefaultTimeFormat) of a time whose calendar fields are t. */
  function Format(t: Timestamp): (s: seq<byte>)
    requires ValidTimestamp(t)
    ensures |s| == |DefaultTimeFormat|
  {
    DatePart(t) + [' ' as byte] + ClockPart(t)
  }

  /** Three zero-padded numbers of widths w1, 2 and 2 separated by sep. */
  function ParseTriple(s: seq<byte>, w1: nat, sep: byte): (r: Option<(nat, nat, nat)>)
  {
    if |s| == w1 + 6 && s[w1] == sep && s[w1 + 3] == sep
       && AllDigits(s[..w1]) && AllDigits(s[w1 + 1..w1 + 3]) && AllDigits(s[w1 + 4..])
    then Some((DigitsValue(s[..w1]), DigitsValue(s[w1 + 1..w1 + 3]), DigitsValue(s[w1 + 4..])))
    else None
  }

  /** Reading a string back with the same layout; the partner of Format. */
  function Parse(s: seq<byte>): (r: Option<Timestamp>)
  {
    if |s| != 19 || s[10] != ' ' as byte then None
    else
      match (ParseTriple(s[..10], 4, '-' as byte), ParseTriple(s[11..], 2, ':' as byte))
      case (Some((y, mo, d)), Some((h, mi, se))) =>
        var t := Timestamp(y, mo, d, h, mi, se);
        if ValidTimestamp(t) then Some(t) else None
      case _ => None
  }

  /** The three pieces of a separated triple are found again at their offsets. */
  lemma TriplePieces(p: seq<byte>, q: seq<byte>, r: seq<byte>, sep: byte)
    requires |q| == 2 && |r| == 2
    ensures var s := p + [sep] + q + [sep] + r;
      && |s| == |p| + 6 && s[|p|] == sep && s[|p| + 3] == sep
      && s[..|p|] == p && s[|p| + 1..|p| + 3] == q && s[|p| + 4..] == r
  {
    var s := p + [sep] + q + [sep] + r;
    var w := |p|;
    assert s[..w] == p;
    assert s[w + 1..w + 3] == q;
    assert s[w + 4..] == r;
  }

  lemma ParseTripleOf(a: nat, b: nat, c: nat, w1: nat, sep: byte)
    requires a < Pow10(w1) && b < 100 && c < 100
    ensures ParseTriple(Pad(a, w1) + [sep] + Pad(b, 2) + [sep] + Pad(c, 2), w1, sep) == Some((a, b, c))
  {
    assert Pow10(2) == 100;
    var p, q, r := Pad(a, w1), Pad(b, 2), Pad(c, 2);
    PadValue(a, w1);
    PadValue(b, 2);
    PadValue(c, 2);
    TriplePieces(p, q, r, sep);
  }

  /** Formatting loses nothing: the fields are recovered from the text. */
  lemma ParseFormat(t: Timestamp)
    requires ValidTimestamp(t)
    ensures Parse(Format(t)) == Some(t)
  {
    var s := Format(t);
    assert Pow10(4) == 10000;
    assert s[..10] == DatePart(t);
    assert s[11..] == ClockPart(t);
    ParseTripleOf(t.year, t.month, t.day, 4, '-' as byte);
    ParseTripleOf(t.hour, t.minute, t.second, 2, ':' as byte);
  }
}
