// Wall-clock readings and the two Go time layouts the core uses:
// "2006-01-02 15:04:05" (resource publish times) and "2006-01-02"
// (birth dates). The clock itself is never read here: callers pass `now`.
module Clock {
  import opened Results
  import opened Text

  /** A calendar date and time of day (`time.Time` in one fixed zone). */
  datatype DateTime = DateTime(year: int, month: int, day: int, hour: int, minute: int, second: int)

  predicate IsLeapYear(y: int) {
    y % 4 == 0 && (y % 100 != 0 || y % 400 == 0)
  }

  /** The number of days in month `m` of year `y`. */
  function DaysIn(y: int, m: int): (r: int)
    requires 1 <= m <= 12
    ensures 28 <= r <= 31
    ensures r == 29 <==> m == 2 && IsLeapYear(y)
  {
    if m == 2 then (if IsLeapYear(y) then 29 else 28)
    else if m == 4 || m == 6 || m == 9 || m == 11 then 30
    else 31
  }

  /** A day that exists in the proleptic Gregorian calendar, with a
      four-digit year. */
  predicate ValidDate(y: int, m: int, d: int) {
    0 <= y <= 9999 && 1 <= m <= 12 && 1 <= d <= DaysIn(y, m)
  }

  predicate Valid(t: DateTime) {
    && ValidDate(t.year, t.month, t.day)
    && 0 <= t.hour < 24 && 0 <= t.minute < 60 && 0 <= t.second < 60
  }

  /** `a.Before(b)`: field by field, most significant first. */
  predicate Before(a: DateTime, b: DateTime) {
    if a.year != b.year then a.year < b.year
    else if a.month != b.month then a.month < b.month
    else if a.day != b.day then a.day < b.day
    else if a.hour != b.hour then a.hour < b.hour
    else if a.minute != b.minute then a.minute < b.minute
    else a.second < b.second
  }

  /** `a.After(b)`. */
  predicate After(a: DateTime, b: DateTime) {
    Before(b, a)
  }

  /** Two readings are either in order or equal, never both ways. */
  lemma BeforeTotal(a: DateTime, b: DateTime)
    ensures Before(a, b) || Before(b, a) || a == b
    ensures !(Before(a, b) && Before(b, a))
    ensures !Before(a, a)
  {
  }

  lemma BeforeTransitive(a: DateTime, b: DateTime, c: DateTime)
    requires Before(a, b) && Before(b, c)
    ensures Before(a, c)
  {
  }

  // ---------------------------------------------------------------------
  // Fixed-width decimal fields.

  function DigitChar(d: int): char
    requires 0 <= d < 10
  {
    ('0' as int + d) as char
  }

  function DigitValue(c: char): int
    requires IsDigit(c)
  {
    c as int - '0' as int
  }

  function Pow10(w: nat): (r: nat)
    ensures r >= 1
  {
    if w == 0 then 1 else 10 * Pow10(w - 1)
  }

  /** `n` written with exactly `w` digits, zero padded. */
  function Pad(n: nat, w: nat): (r: string)
    requires n < Pow10(w)
    ensures |r| == w
    ensures forall i :: 0 <= i < |r| ==> IsDigit(r[i])
  {
    if w == 0 then [] else Pad(n / 10, w - 1) + [DigitChar(n % 10)]
  }

  /** The value of a string of decimal digits. */
  function Number(s: string): (r: nat)
    requires forall i :: 0 <= i < |s| ==> IsDigit(s[i])
    ensures r < Pow10(|s|)
  {
    if s == [] then 0 else 10 * Number(s[..|s| - 1]) + DigitValue(s[|s| - 1])
  }

  /** Reading back a padded number gives the number. */
  lemma {:induction false} NumberOfPad(n: nat, w: nat)
    requires n < Pow10(w)
    ensures Number(Pad(n, w)) == n
  {
    if w > 0 {
      var p := Pad(n, w);
      assert p[..|p| - 1] == Pad(n / 10, w - 1);
      NumberOfPad(n / 10, w - 1);
    }
  }

  /** Padding the value of a digit string to its own width gives it back. */
  lemma {:induction false} PadOfNumber(s: string)
    requires forall i :: 0 <= i < |s| ==> IsDigit(s[i])
    ensures Pad(Number(s), |s|) == s
  {
    if s != [] {
      var init := s[..|s| - 1];
      PadOfNumber(init);
      var n := Number(s);
      assert n / 10 == Number(init) && n % 10 == DigitValue(s[|s| - 1]);
      assert s == init + [s[|s| - 1]];
    }
  }

  // ---------------------------------------------------------------------
  // The two layouts.

  /** `t.Format("2006-01-02 15:04:05")`. */
  function Format(t: DateTime): (r: string)
    requires Valid(t)
    ensures |r| == 19
  {
    Pad(t.year, 4) + "-" + Pad(t.month, 2) + "-" + Pad(t.day, 2) + " " +
    Pad(t.hour, 2) + ":" + Pad(t.minute, 2) + ":" + Pad(t.second, 2)
  }

  predicate AllDigits(s: string, lo: nat, hi: nat)
    requires lo <= hi <= |s|
  {
    forall i :: lo <= i < hi ==> IsDigit(s[i])
  }

  /** `time.Parse("2006-01-02 15:04:05", s)` on the strict 19-character
      form that `Format` writes. */
  function Parse(s: string): (r: Option<DateTime>)
    ensures r.Some? ==> Valid(r.value)
  {
    if |s| == 19 && s[4] == '-' && s[7] == '-' && s[10] == ' ' && s[13] == ':' && s[16] == ':'
       && AllDigits(s, 0, 4) && AllDigits(s, 5, 7) && AllDigits(s, 8, 10)
       && AllDigits(s, 11, 13) && AllDigits(s, 14, 16) && AllDigits(s, 17, 19)
    then
      var t := DateTime(Number(s[0..4]), Number(s[5..7]), Number(s[8..10]),
                        Number(s[11..13]), Number(s[14..16]), Number(s[17..19]));
      if Valid(t) then Some(t) else None
    else None
  }

  /** The layout "2006-01-02 15:04:05" reads back what it writes. */
  lemma ParseFormat(t: DateTime)
    requires Valid(t)
    ensures Parse(Format(t)) == Some(t)
  {
    FormatFields(t);
    NumberOfPad(t.year, 4);
    NumberOfPad(t.month, 2);
    NumberOfPad(t.day, 2);
    NumberOfPad(t.hour, 2);
    NumberOfPad(t.minute, 2);
    NumberOfPad(t.second, 2);
  }

  /** Where each field and separator sits in a formatted instant. */
  lemma FormatFields(t: DateTime)
    requires Valid(t)
    ensures var s := Format(t);
      && s[4] == '-' && s[7] == '-' && s[10] == ' ' && s[13] == ':' && s[16] == ':'
      && s[0..4] == Pad(t.year, 4) && s[5..7] == Pad(t.month, 2) && s[8..10] == Pad(t.day, 2)
      && s[11..13] == Pad(t.hour, 2) && s[14..16] == Pad(t.minute, 2) && s[17..19] == Pad(t.second, 2)
      && AllDigits(s, 0, 4) && AllDigits(s, 5, 7) && AllDigits(s, 8, 10)
      && AllDigits(s, 11, 13) && AllDigits(s, 14, 16) && AllDigits(s, 17, 19)
  {
    var s := Format(t);
    assert s[0..4] == Pad(t.year, 4);
    assert s[5..7] == Pad(t.month, 2);
    assert s[8..10] == Pad(t.day, 2);
    assert s[11..13] == Pad(t.hour, 2);
    assert s[14..16] == Pad(t.minute, 2);
    assert s[17..19] == Pad(t.second, 2);
  }

  /** `t.Format("2006-01-02")`. */
  function FormatDate(t: DateTime): (r: string)
    requires Valid(t)
    ensures |r| == 10
  {
    Pad(t.year, 4) + "-" + Pad(t.month, 2) + "-" + Pad(t.day, 2)
  }

  /** `time.Parse("2006-01-02", s)`: midnight of that day, when it exists. */
  function ParseDate(s: string): (r: Option<DateTime>)
    ensures r.Some? ==> Valid(r.value) && r.value.hour == 0 && r.value.minute == 0 && r.value.second == 0
  {
    if |s| == 10 && s[4] == '-' && s[7] == '-'
       && AllDigits(s, 0, 4) && AllDigits(s, 5, 7) && AllDigits(s, 8, 10)
    then
      var y, m, d := Number(s[0..4]), Number(s[5..7]), Number(s[8..10]);
      if ValidDate(y, m, d) then Some(DateTime(y, m, d, 0, 0, 0)) else None
    else None
  }

  /** A date that parses is exactly the formatting of its value, so the
      layout "2006-01-02" accepts one spelling per day. */
  lemma FormatParseDate(s: string)
    requires ParseDate(s).Some?
    ensures FormatDate(ParseDate(s).value) == s
  {
    PadOfNumber(s[0..4]);
    PadOfNumber(s[5..7]);
    PadOfNumber(s[8..10]);
    assert s == s[0..4] + "-" + s[5..7] + "-" + s[8..10];
  }

  /** Every valid day at midnight survives formatting and parsing. */
  lemma ParseFormatDate(t: DateTime)
    requires Valid(t) && t.hour == 0 && t.minute == 0 && t.second == 0
    ensures ParseDate(FormatDate(t)) == Some(t)
  {
    var s := FormatDate(t);
    assert s[0..4] == Pad(t.year, 4);
    assert s[5..7] == Pad(t.month, 2);
    assert s[8..10] == Pad(t.day, 2);
    NumberOfPad(t.year, 4);
    NumberOfPad(t.month, 2);
    NumberOfPad(t.day, 2);
  }
}
