/**
 * The parts of Go's time package the service relies on, for UTC times: an
 * instant is a calendar date plus the nanoseconds elapsed since midnight.
 * Covers Before, AddDate with a month offset (which normalises the month
 * and lets a day that does not exist in the target month run on into the
 * next one), and Parse and Format with the layout time.DateOnly
 * ("2006-01-02").
 */
module Dates {
  import opened Wrappers
  import opened Text

  datatype Date = Date(year: int, month: int, day: int)

  /** A UTC time: a date and the nanoseconds since that day's midnight. */
  datatype Instant = Instant(date: Date, nanos: int)

  const NanosPerDay: nat := 86_400_000_000_000

  predicate IsLeap(year: int)
  {
    year % 4 == 0 && (year % 100 != 0 || year % 400 == 0)
  }

  function DaysIn(month: int, year: int): (n: int)
    requires 1 <= month <= 12
    ensures 28 <= n <= 31
  {
    if month == 2 then (if IsLeap(year) then 29 else 28)
    else if month == 4 || month == 6 || month == 9 || month == 11 then 30
    else 31
  }

  predicate ValidDate(d: Date)
  {
    1 <= d.month <= 12 && 1 <= d.day <= DaysIn(d.month, d.year)
  }

  predicate ValidInstant(t: Instant)
  {
    ValidDate(t.date) && 0 <= t.nanos < NanosPerDay
  }

  /** Midnight UTC at the start of a date: what time.Parse returns for a date-only layout. */
  function Midnight(d: Date): (t: Instant)
    ensures ValidDate(d) ==> ValidInstant(t)
  {
    Instant(d, 0)
  }

  // ------------------------------------------------------------------ order

  predicate DateLess(a: Date, b: Date)
  {
    a.year < b.year
    || (a.year == b.year && a.month < b.month)
    || (a.year == b.year && a.month == b.month && a.day < b.day)
  }

  /** Time.Before: a is strictly earlier than b, so never the same instant nor on a later date. */
  predicate Before(a: Instant, b: Instant)
    ensures Before(a, b) ==> a != b && !DateLess(b.date, a.date)
  {
    DateLess(a.date, b.date) || (a.date == b.date && a.nanos < b.nanos)
  }

  /** Before is a strict total order. */
  lemma BeforeStrictTotal(a: Instant, b: Instant, c: Instant)
    ensures !Before(a, a)
    ensures Before(a, b) && Before(b, c) ==> Before(a, c)
    ensures a == b || Before(a, b) || Before(b, a)
    ensures !(Before(a, b) && Before(b, a))
  {
  }

  /** Months counted from January of year 0, so that consecutive months differ by one. */
  function MonthIndex(year: int, month: int): int
  {
    year * 12 + (month - 1)
  }

  /** A date in an earlier month is an earlier date. */
  lemma EarlierMonth(a: Date, b: Date)
    requires 1 <= a.month <= 12 && 1 <= b.month <= 12
    requires MonthIndex(a.year, a.month) < MonthIndex(b.year, b.month)
    ensures DateLess(a, b)
  {
  }

  // ---------------------------------------------------------------- AddDate

  /**
   * time.Date's normalisation of a day past the end of its month: the
   * surplus days run on into the following months.
   */
  function RollForward(year: int, month: int, day: int): (d: Date)
    requires 1 <= month <= 12 && day >= 1
    ensures ValidDate(d)
    decreases day
  {
    if day <= DaysIn(month, year) then Date(year, month, day)
    else if month == 12 then RollForward(year + 1, 1, day - 31)
    else RollForward(year, month + 1, day - DaysIn(month, year))
  }

  /**
   * t.AddDate(0, months, 0) on the date part: the month is shifted and
   * normalised into 1..12 (carrying whole years, rounding down), the day is
   * kept, and a day the target month does not have runs on into the next
   * month rather than being clamped.
   */
  function AddMonths(d: Date, months: int): (r: Date)
    requires ValidDate(d)
    ensures ValidDate(r)
  {
    var total := (d.month - 1) + months;
    RollForward(d.year + total / 12, total % 12 + 1, d.day)
  }

  /** The month AddMonths lands in before any run-on: `months` further along the calendar. */
  lemma TargetMonth(d: Date, months: int)
    requires ValidDate(d)
    ensures var total := (d.month - 1) + months;
            MonthIndex(d.year + total / 12, total % 12 + 1) == MonthIndex(d.year, d.month) + months
  {
    var total := (d.month - 1) + months;
    assert total == 12 * (total / 12) + total % 12;
  }

  /**
   * AddMonths lands `months` months along with the same day when the target
   * month has that day; otherwise it lands in the month after, on the day
   * by which the original day overshoots the target month's length.
   */
  lemma AddMonthsDay(d: Date, months: int)
    requires ValidDate(d)
    ensures var total := (d.month - 1) + months;
            var y, m := d.year + total / 12, total % 12 + 1;
            var r := AddMonths(d, months);
            if d.day <= DaysIn(m, y) then
              MonthIndex(r.year, r.month) == MonthIndex(d.year, d.month) + months && r.day == d.day
            else
              MonthIndex(r.year, r.month) == MonthIndex(d.year, d.month) + months + 1
              && r.day == d.day - DaysIn(m, y)
  {
    TargetMonth(d, months);
    var total := (d.month - 1) + months;
    var y, m := d.year + total / 12, total % 12 + 1;
    if d.day > DaysIn(m, y) {
      assert m != 12;
      var rest := d.day - DaysIn(m, y);
      assert rest <= 3 <= DaysIn(m + 1, y);
      assert RollForward(y, m, d.day) == RollForward(y, m + 1, rest);
      assert RollForward(y, m + 1, rest) == Date(y, m + 1, rest);
    }
  }

  /** getSixMonthBeforePurchaseDate: t.AddDate(0, -6, 0), keeping the time of day. */
  function SixMonthsBefore(t: Instant): (r: Instant)
    requires ValidDate(t.date)
    ensures ValidInstant(t) ==> ValidInstant(r)
    ensures r.nanos == t.nanos
  {
    Instant(AddMonths(t.date, -6), t.nanos)
  }

  /** Six months back is strictly earlier, even when the day runs on into the next month. */
  lemma SixMonthsBeforeIsEarlier(t: Instant)
    requires ValidDate(t.date)
    ensures Before(SixMonthsBefore(t), t)
  {
    var r := AddMonths(t.date, -6);
    AddMonthsDay(t.date, -6);
    EarlierMonth(r, t.date);
  }

  // ------------------------------------------------- Parse / Format DateOnly

  /**
   * Format(time.DateOnly): year padded to four digits, month and day to two.
   * A valid date of a four-digit year is ten characters with '-' at 4 and 7.
   */
  function FormatDateOnly(d: Date): (s: string)
    ensures ValidDate(d) && 0 <= d.year <= 9999 ==> |s| == 10 && s[4] == '-' && s[7] == '-'
  {
    if ValidDate(d) && 0 <= d.year <= 9999 then
      PadIntFits(d.year, 4);
      PadIntFits(d.month, 2);
      PadIntFits(d.day, 2);
      PadInt(d.year, 4) + "-" + PadInt(d.month, 2) + "-" + PadInt(d.day, 2)
    else PadInt(d.year, 4) + "-" + PadInt(d.month, 2) + "-" + PadInt(d.day, 2)
  }

  /** A padded number is digits with at most a leading '-'. */
  lemma PadIntChars(x: int, width: nat)
    ensures forall i | 0 <= i < |PadInt(x, width)| :: IsDigit(PadInt(x, width)[i]) || PadInt(x, width)[i] == '-'
  {
    var digits := NatToDigits(if x < 0 then -x else x);
    if |digits| < width {
      AllDigitsConcat(Zeros(width - |digits|), digits);
    }
  }

  /** A formatted date is made of digits and '-' only. */
  lemma FormatDateOnlyChars(d: Date)
    ensures forall i | 0 <= i < |FormatDateOnly(d)| :: IsDigit(FormatDateOnly(d)[i]) || FormatDateOnly(d)[i] == '-'
  {
    PadIntChars(d.year, 4);
    PadIntChars(d.month, 2);
    PadIntChars(d.day, 2);
  }

  /**
   * time.Parse(time.DateOnly, s): exactly four year digits, '-', two month
   * digits, '-', two day digits and nothing more; the month must be 1..12
   * and the day must exist in that month. The result is midnight UTC.
   */
  function ParseDateOnly(s: string): (r: Option<Instant>)
    ensures r.Some? ==> r.value.nanos == 0 && ValidInstant(r.value)
  {
    if |s| == 10 && AllDigits(s[..4]) && s[4] == '-' && AllDigits(s[5..7]) && s[7] == '-'
       && AllDigits(s[8..10])
    then
      var d := Date(DigitsValue(s[..4]), DigitsValue(s[5..7]), DigitsValue(s[8..10]));
      if ValidDate(d) then Some(Midnight(d)) else None
    else None
  }

  lemma LastDigit(x: int, p: int, y: int, q: int)
    requires 0 <= p < 10 && 0 <= q < 10 && 10 * x + p == 10 * y + q
    ensures p == q && x == y
  {
  }

  /** Two digit strings of the same length with the same value are the same string. */
  lemma {:induction false} DigitsValueInjective(a: string, b: string)
    requires |a| == |b| && AllDigits(a) && AllDigits(b) && DigitsValue(a) == DigitsValue(b)
    ensures a == b
  {
    if a != [] {
      var n := |a| - 1;
      var x, y := DigitsValue(a[..n]), DigitsValue(b[..n]);
      var p, q := DigitVal(a[n]), DigitVal(b[n]);
      assert 10 * x + p == 10 * y + q;
      LastDigit(x, p, y, q);
      DigitsValueInjective(a[..n], b[..n]);
      assert a == a[..n] + [a[n]] && b == b[..n] + [b[n]];
    }
  }

  lemma DigitsOfPadded(x: nat, width: nat, s: string)
    requires 0 < width && x < Pow10(width)
    requires |s| == width && AllDigits(s) && DigitsValue(s) == x
    ensures PadInt(x, width) == s
  {
    PadIntFits(x, width);
    DigitsValueInjective(PadInt(x, width), s);
  }

  /** Where the year, month and day sit in a date-only text. */
  lemma DateOnlyFields(y: string, m: string, d: string)
    requires |y| == 4 && |m| == 2 && |d| == 2
    ensures var s := y + "-" + m + "-" + d;
            |s| == 10 && s[..4] == y && s[4] == '-' && s[5..7] == m && s[7] == '-' && s[8..10] == d
  {
  }

  /** Formatting a date from year 0 to 9999 and parsing the text back gives midnight on that date. */
  lemma ParseFormat(d: Date)
    requires ValidDate(d) && 0 <= d.year <= 9999
    ensures ParseDateOnly(FormatDateOnly(d)) == Some(Midnight(d))
  {
    PadIntFits(d.year, 4);
    PadIntFits(d.month, 2);
    PadIntFits(d.day, 2);
    DateOnlyFields(PadInt(d.year, 4), PadInt(d.month, 2), PadInt(d.day, 2));
  }

  /** Every text time.Parse accepts is exactly the formatted form of what it parsed. */
  lemma FormatParse(s: string)
    requires ParseDateOnly(s).Some?
    ensures var d := ParseDateOnly(s).value.date;
            0 <= d.year <= 9999 && FormatDateOnly(d) == s
  {
    var d := ParseDateOnly(s).value.date;
    DigitsOfPadded(d.year, 4, s[..4]);
    DigitsOfPadded(d.month, 2, s[5..7]);
    DigitsOfPadded(d.day, 2, s[8..10]);
    assert s == s[..4] + "-" + s[5..7] + "-" + s[8..10];
  }

  /**
   * Six months back from 2023-06-30 is 2022-12-30 and from 2023-02-28 is
   * 2022-08-28; a day February lacks runs on into March (2023-08-31 gives
   * 2023-03-03, and in a leap year 2024-08-31 gives 2024-03-02).
   */
  lemma SixMonthsBeforeExamples()
    ensures AddMonths(Date(2023, 6, 30), -6) == Date(2022, 12, 30)
    ensures AddMonths(Date(2023, 2, 28), -6) == Date(2022, 8, 28)
    ensures AddMonths(Date(2023, 8, 31), -6) == Date(2023, 3, 3)
    ensures AddMonths(Date(2024, 8, 31), -6) == Date(2024, 3, 2)
  {
    assert RollForward(2023, 2, 31) == RollForward(2023, 3, 3);
    assert RollForward(2024, 2, 31) == RollForward(2024, 3, 2);
  }
}
