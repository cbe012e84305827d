/** Calendar dates as pandas `Timestamp`s at midnight, with the month arithmetic
    of `pd.DateOffset(months=n)` and the `"%Y-%m"` rendering. */
module Dates {
  import Text

  datatype Date = Date(year: int, month: int, day: int)

  predicate IsLeap(y: int) {
    (y % 4 == 0 && y % 100 != 0) || y % 400 == 0
  }

  function DaysInMonth(y: int, m: int): (n: int)
    requires 1 <= m <= 12
    ensures 28 <= n <= 31
  {
    if m == 2 then (if IsLeap(y) then 29 else 28)
    else if m == 4 || m == 6 || m == 9 || m == 11 then 30
    else 31
  }

  predicate Valid(d: Date) {
    1 <= d.month <= 12 && 1 <= d.day <= DaysInMonth(d.year, d.month)
  }

  /** The month a date falls in, counted from January of year 0. */
  function MonthIndex(d: Date): int {
    d.year * 12 + d.month - 1
  }

  /** Chronological position of a valid date: months weigh more than any day. */
  function Stamp(d: Date): int {
    MonthIndex(d) * 31 + d.day - 1
  }

  predicate Before(a: Date, b: Date) {
    Stamp(a) < Stamp(b)
  }

  function Min(a: int, b: int): int { if a <= b then a else b }

  /** `d + pd.DateOffset(months=n)`: move n calendar months, keeping the day of
      the month unless the target month is shorter, in which case its last day. */
  function AddMonths(d: Date, n: int): (r: Date)
    requires Valid(d)
    ensures Valid(r)
    ensures MonthIndex(r) == MonthIndex(d) + n
    ensures r.day == Min(d.day, DaysInMonth(r.year, r.month))
  {
    var k := MonthIndex(d) + n;
    var y, m := k / 12, k % 12 + 1;
    Date(y, m, Min(d.day, DaysInMonth(y, m)))
  }

  /** The first day of the month a date falls in (`.dt.to_period("M").dt.to_timestamp()`). */
  function FirstOfMonth(d: Date): (r: Date)
    requires Valid(d)
    ensures Valid(r) && r.day == 1 && MonthIndex(r) == MonthIndex(d)
  {
    Date(d.year, d.month, 1)
  }

  lemma SameMonthIndex(a: Date, b: Date)
    requires Valid(a) && Valid(b) && MonthIndex(a) == MonthIndex(b)
    ensures a.year == b.year && a.month == b.month
  {
    var dy := a.year - b.year;
    assert dy * 12 == b.month - a.month;
    assert -1 < dy < 1;
  }

  /** On valid dates the stamp is injective ... */
  lemma StampInjective(a: Date, b: Date)
    requires Valid(a) && Valid(b) && Stamp(a) == Stamp(b)
    ensures a == b
  {
    var dm := MonthIndex(a) - MonthIndex(b);
    assert dm * 31 == b.day - a.day;
    assert -1 < dm < 1;
    SameMonthIndex(a, b);
  }

  /** ... and orders dates first by month, then by day. */
  lemma StampOrdersMonths(a: Date, b: Date)
    requires Valid(a) && Valid(b) && MonthIndex(a) < MonthIndex(b)
    ensures Before(a, b)
  {
    assert Stamp(a) < MonthIndex(a) * 31 + 31 <= MonthIndex(b) * 31 <= Stamp(b);
  }

  /** Moving forward by at least one month gives a strictly later date. */
  lemma AddMonthsLater(d: Date, n: int)
    requires Valid(d) && n >= 1
    ensures Before(d, AddMonths(d, n))
  {
    StampOrdersMonths(d, AddMonths(d, n));
  }

  /** Going forward n months and back n months returns to the same date whenever
      no clamping happens, in particular for every first-of-month period. */
  lemma AddMonthsRoundTrip(d: Date, n: int)
    requires Valid(d) && d.day <= 28
    ensures AddMonths(AddMonths(d, n), -n) == d
  {
    var e := AddMonths(AddMonths(d, n), -n);
    SameMonthIndex(e, d);
  }

  /** Clamping makes the round trip lossy at the end of a month. */
  lemma AddMonthsClampsAtMonthEnd()
    ensures AddMonths(Date(2023, 1, 31), 1) == Date(2023, 2, 28)
    ensures AddMonths(AddMonths(Date(2023, 1, 31), 1), -1) == Date(2023, 1, 28)
  {
    assert MonthIndex(Date(2023, 1, 31)) + 1 == 2023 * 12 + 1;
    assert (2023 * 12 + 1) / 12 == 2023 && (2023 * 12 + 1) % 12 == 1;
    assert (2023 * 12) / 12 == 2023 && (2023 * 12) % 12 == 0;
  }

  /** `strftime("%Y-%m")` for years 1000..9999. */
  function YearMonthText(d: Date): (s: string)
    requires Valid(d) && 1000 <= d.year <= 9999
    ensures |s| == 7 && s[4] == '-'
  {
    Text.NatToStringLength4(d.year);
    Text.NatToString(d.year) + "-" + Text.TwoDigits(d.month)
  }

  /** Distinct months render differently. */
  lemma YearMonthTextInjective(a: Date, b: Date)
    requires Valid(a) && 1000 <= a.year <= 9999 && Valid(b) && 1000 <= b.year <= 9999
    requires YearMonthText(a) == YearMonthText(b)
    ensures a.year == b.year && a.month == b.month
  {
    var s, t := YearMonthText(a), YearMonthText(b);
    assert s[..4] == Text.NatToString(a.year) && t[..4] == Text.NatToString(b.year);
    assert s[5..] == Text.TwoDigits(a.month) && t[5..] == Text.TwoDigits(b.month);
    Text.DigitsValueOfNat(a.year);
    Text.DigitsValueOfNat(b.year);
    Text.TwoDigitsInjective(a.month, b.month);
  }
}
