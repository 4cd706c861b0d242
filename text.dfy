/**
 * The two pieces of PHP formatting the core relies on: `sprintf('%d', n)` and
 * `DateTimeInterface::format('Y-m-d H:i:s')` of an integer Unix timestamp (UTC).
 */
module Text {

  type Time = int

  predicate IsDigit(c: char) {
    '0' <= c <= '9'
  }

  function DigitChar(d: nat): (c: char)
    requires d < 10
    ensures IsDigit(c)
  {
    (('0' as int) + d) as char
  }

  function DigitValue(c: char): nat
    requires IsDigit(c)
  {
    (c as int) - ('0' as int)
  }

  /** Decimal digits of a natural number, most significant first, no leading zeros. */
  function Digits(n: nat): (s: string)
    ensures |s| >= 1
    ensures forall i :: 0 <= i < |s| ==> IsDigit(s[i])
    decreases n
  {
    if n < 10 then [DigitChar(n)] else Digits(n / 10) + [DigitChar(n % 10)]
  }

  predicate AllDigits(s: string) {
    forall i :: 0 <= i < |s| ==> IsDigit(s[i])
  }

  function ParseDigits(s: string): nat
    requires AllDigits(s)
    decreases |s|
  {
    if s == [] then 0 else ParseDigits(s[..|s| - 1]) * 10 + DigitValue(s[|s| - 1])
  }

  /** `sprintf('%d', n)`. */
  function Decimal(n: int): string {
    if n < 0 then "-" + Digits(-n) else Digits(n)
  }

  /** Text that `%d` can produce: an optional minus sign followed by at least one digit. */
  predicate IsNumeral(s: string) {
    if |s| > 0 && s[0] == '-' then |s| > 1 && AllDigits(s[1..]) else |s| > 0 && AllDigits(s)
  }

  /** Reads a numeral back (the inverse of `Decimal`). */
  function ParseDecimal(s: string): int
    requires IsNumeral(s)
  {
    if s[0] == '-' then -(ParseDigits(s[1..]) as int) else ParseDigits(s)
  }

  lemma {:induction false} DigitsRoundTrip(n: nat)
    ensures ParseDigits(Digits(n)) == n
    decreases n
  {
    if n >= 10 {
      var s := Digits(n);
      assert s == Digits(n / 10) + [DigitChar(n % 10)];
      assert s[..|s| - 1] == Digits(n / 10);
      DigitsRoundTrip(n / 10);
    }
  }

  /** Every `%d` rendering is a numeral, and parsing it gives the number back. */
  lemma DecimalRoundTrip(n: int)
    ensures IsNumeral(Decimal(n))
    ensures ParseDecimal(Decimal(n)) == n
  {
    if n < 0 {
      assert Decimal(n)[1..] == Digits(-n);
      DigitsRoundTrip(-n);
    } else {
      DigitsRoundTrip(n);
    }
  }

  /** `%d` renders distinct numbers as distinct text. */
  lemma DecimalInjective(a: int, b: int)
    ensures Decimal(a) == Decimal(b) ==> a == b
  {
    DecimalRoundTrip(a);
    DecimalRoundTrip(b);
  }

  lemma DecimalShape(n: int)
    ensures |Decimal(n)| >= 1
    ensures IsDigit(Decimal(n)[0]) || Decimal(n)[0] == '-'
    ensures forall i :: 1 <= i < |Decimal(n)| ==> IsDigit(Decimal(n)[i])
  {
    if n < 0 {
      var d := Digits(-n);
      assert Decimal(n) == "-" + d;
      forall i | 1 <= i < |Decimal(n)| ensures IsDigit(Decimal(n)[i]) {
        assert Decimal(n)[i] == d[i - 1];
      }
    }
  }

  /**
   * A number rendered by `%d` and followed by text that starts with neither a digit nor
   * a minus sign can be read back unambiguously: both the number and the rest are determined.
   */
  lemma {:induction false} DecimalPrefixFree(a: int, b: int, x: string, y: string)
    requires |x| > 0 && !IsDigit(x[0]) && x[0] != '-'
    requires |y| > 0 && !IsDigit(y[0]) && y[0] != '-'
    ensures Decimal(a) + x == Decimal(b) + y ==> a == b && x == y
  {
    var da, db := Decimal(a), Decimal(b);
    if da + x == db + y {
      var s := da + x;
      DecimalShape(a);
      DecimalShape(b);
      assert s[|da|] == x[0] && s[|db|] == y[0];
      assert |da| == |db|;
      assert da == s[..|da|] == db;
      assert x == s[|da|..] == y;
      DecimalInjective(a, b);
    }
  }

  /** "SPU-<number><rest>", the shape of both entities' `__toString()`. */
  function SpuLabel(n: int, rest: string): string {
    "SPU-" + (Decimal(n) + rest)
  }

  /** The label starts with "SPU-" and ends with every suffix of its rest. */
  lemma SpuLabelShape(n: int, rest: string, tail: string)
    requires |rest| >= |tail| && rest[|rest| - |tail|..] == tail
    ensures var s := SpuLabel(n, rest);
      |s| > 4 && s[..4] == "SPU-" && |s| >= |tail| && s[|s| - |tail|..] == tail
  {
    var s := SpuLabel(n, rest);
    DecimalShape(n);
    assert s[..4] == "SPU-";
    assert s[|s| - |tail|..] == rest[|rest| - |tail|..];
  }

  /** When the rest starts with a space, the label names its number and its rest unambiguously. */
  lemma SpuLabelPrefixFree(a: int, b: int, x: string, y: string)
    requires |x| > 0 && x[0] == ' ' && |y| > 0 && y[0] == ' '
    ensures SpuLabel(a, x) == SpuLabel(b, y) ==> a == b && x == y
  {
    if SpuLabel(a, x) == SpuLabel(b, y) {
      PrefixCancel("SPU-", Decimal(a) + x, Decimal(b) + y);
      DecimalPrefixFree(a, b, x, y);
    }
  }

  /** A common prefix can be cancelled. */
  lemma PrefixCancel(p: string, u: string, v: string)
    requires p + u == p + v
    ensures u == v
  {
    assert u == (p + u)[|p|..];
    assert v == (p + v)[|p|..];
  }

  /** `n` as exactly `width` digits, zero-padded on the left (used for `Y`, `m`, `d`, `H`, `i`, `s`). */
  function Padded(n: nat, width: nat): string {
    var d := Digits(n);
    if |d| >= width then d else seq(width - |d|, _ => '0') + d
  }

  /** Days since 1970-01-01 to (year, month, day) in the proleptic Gregorian calendar. */
  function CivilFromDays(days: int): (int, nat, nat) {
    var z := days + 719468;
    var era := z / 146097;
    var doe := z - era * 146097;
    var yoe := (doe - doe / 1460 + doe / 36524 - doe / 146096) / 365;
    var doy := doe - (365 * yoe + yoe / 4 - yoe / 100);
    var mp := (5 * doy + 2) / 153;
    var day := doy - (153 * mp + 2) / 5 + 1;
    var month := if mp < 10 then mp + 3 else mp - 9;
    var year := yoe + era * 400 + (if month <= 2 then 1 else 0);
    (year, if month < 0 then 0 else month, if day < 0 then 0 else day)
  }

  /** `format('Y-m-d H:i:s')` of a Unix timestamp, in UTC. */
  function DateTimeText(t: Time): string {
    var (year, month, day) := CivilFromDays(t / 86400);
    var secs := t % 86400;
    var yearText := if year < 0 then "-" + Padded(-year, 4) else Padded(year, 4);
    yearText + "-" + Padded(month, 2) + "-" + Padded(day, 2) + " "
      + Padded(secs / 3600, 2) + ":" + Padded(secs % 3600 / 60, 2) + ":" + Padded(secs % 60, 2)
  }
}
