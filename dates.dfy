/** formatDate: a calendar day written as "DD/MM", day and month zero-padded
    to two digits. A day is given by what Date.getDate() and Date.getMonth()
    return; reading the clock is left to the caller. */
module Dates {

  /** getDate() is the day of the month (1 to 31), getMonth() the zero-based month (0 to 11). */
  datatype Day = Day(date: nat, monthIndex: nat)

  predicate ValidDay(d: Day) {
    1 <= d.date <= 31 && d.monthIndex <= 11
  }

  function DigitChar(digit: nat): char
    requires digit < 10
  {
    (48 + digit) as char
  }

  /** Number.prototype.toString() of a non-negative integer. */
  function Decimal(n: nat): string
    decreases n
  {
    if n < 10 then [DigitChar(n)] else Decimal(n / 10) + [DigitChar(n % 10)]
  }

  /** String.prototype.padStart(width, [fill]). */
  function PadStart(s: string, width: nat, fill: char): string
    decreases width - |s|
  {
    if |s| >= width then s else PadStart([fill] + s, width, fill)
  }

  function TwoDigits(n: nat): string {
    PadStart(Decimal(n), 2, '0')
  }

  /** A number below 100, padded to two characters, is its tens digit then its units digit. */
  lemma TwoDigitsOf(n: nat)
    requires n < 100
    ensures TwoDigits(n) == [DigitChar(n / 10), DigitChar(n % 10)]
  {
    if n < 10 {
      assert Decimal(n) == [DigitChar(n)];
      assert PadStart(Decimal(n), 2, '0') == PadStart(['0', DigitChar(n)], 2, '0');
    } else {
      assert Decimal(n / 10) == [DigitChar(n / 10)];
    }
  }

  /** The day as "DD/MM": five characters, the slash in the middle, day and
      month (one-based) as two zero-padded decimal digits each. */
  function FormatDate(d: Day): (r: string)
    requires ValidDay(d)
    ensures |r| == 5 && r[2] == '/'
    ensures r[..2] == [DigitChar(d.date / 10), DigitChar(d.date % 10)]
    ensures r[3..] == [DigitChar((d.monthIndex + 1) / 10), DigitChar((d.monthIndex + 1) % 10)]
  {
    TwoDigitsOf(d.date);
    TwoDigitsOf(d.monthIndex + 1);
    TwoDigits(d.date) + "/" + TwoDigits(d.monthIndex + 1)
  }

  function DigitValue(c: char): int {
    c as int - 48
  }

  /** Reads a "DD/MM" string back into a day: the inverse of FormatDate. */
  function ParseDate(s: string): Day
    requires |s| == 5
  {
    var dd := 10 * DigitValue(s[0]) + DigitValue(s[1]);
    var mm := 10 * DigitValue(s[3]) + DigitValue(s[4]);
    Day(if dd < 0 then 0 else dd, if mm < 1 then 0 else mm - 1)
  }

  /** Formatting loses nothing: the string reads back as the same day, so two different days never share a label. */
  lemma FormatDateRoundTrip(d: Day)
    requires ValidDay(d)
    ensures ParseDate(FormatDate(d)) == d
  {
    var r := FormatDate(d);
    assert r[0] == DigitChar(d.date / 10) && r[1] == DigitChar(d.date % 10);
    assert r[3] == DigitChar((d.monthIndex + 1) / 10) && r[4] == DigitChar((d.monthIndex + 1) % 10);
  }
}
