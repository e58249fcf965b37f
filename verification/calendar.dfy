/** Naive date-times as Python's `datetime` represents them (proleptic
    Gregorian calendar, years 1 to 9999, one-second resolution) and the
    integer-second arithmetic behind subtracting two of them. */
module Calendar {

  datatype DateTime = DateTime(year: int, month: int, day: int, hour: int, minute: int, second: int)

  const MinYear := 1
  const MaxYear := 9999
  const SecondsPerDay := 86400
  const SecondsPerHour := 3600

  predicate IsLeapYear(y: int) {
    y % 4 == 0 && (y % 100 != 0 || y % 400 == 0)
  }

  function DaysInMonth(y: int, m: int): (n: int)
    requires 1 <= m <= 12
    ensures 28 <= n <= 31
  {
    if m == 2 && IsLeapYear(y) then 29 else [31, 28, 31, 30, 31, 30, 31, 31, 30, 31, 30, 31][m - 1]
  }

  predicate ValidDate(y: int, m: int, d: int) {
    MinYear <= y <= MaxYear && 1 <= m <= 12 && 1 <= d <= DaysInMonth(y, m)
  }

  /** The values the `datetime` constructor accepts. */
  predicate Valid(dt: DateTime) {
    && ValidDate(dt.year, dt.month, dt.day)
    && 0 <= dt.hour < 24
    && 0 <= dt.minute < 60
    && 0 <= dt.second < 60
  }

  type Timestamp = dt: DateTime | Valid(dt) witness DateTime(1, 1, 1, 0, 0, 0)

  /** Days in the years before `y`, counted from 0001-01-01. */
  function DaysBeforeYear(y: int): int
    requires y >= MinYear
  {
    var p := y - 1;
    p * 365 + p / 4 - p / 100 + p / 400
  }

  function DaysBeforeMonth(y: int, m: int): int
    requires 1 <= m <= 12
  {
    [0, 31, 59, 90, 120, 151, 181, 212, 243, 273, 304, 334][m - 1]
      + (if m > 2 && IsLeapYear(y) then 1 else 0)
  }

  /** Day number of a date, 0001-01-01 being day 1. */
  function Ordinal(y: int, m: int, d: int): int
    requires ValidDate(y, m, d)
  {
    DaysBeforeYear(y) + DaysBeforeMonth(y, m) + d
  }

  function SecondOfDay(t: Timestamp): int {
    t.hour * SecondsPerHour + t.minute * 60 + t.second
  }

  /** Seconds since 0001-01-01 00:00:00; the difference of two of these is what
      `(a - b).total_seconds()` yields for whole-second date-times. */
  function ToSeconds(t: Timestamp): int {
    Ordinal(t.year, t.month, t.day) * SecondsPerDay + SecondOfDay(t)
  }

  /** Chronological order, as `datetime` compares: field by field. */
  predicate Before(a: DateTime, b: DateTime) {
    || a.year < b.year
    || (a.year == b.year && a.month < b.month)
    || (a.year == b.year && a.month == b.month && a.day < b.day)
    || (a.year == b.year && a.month == b.month && a.day == b.day && a.hour < b.hour)
    || (a.year == b.year && a.month == b.month && a.day == b.day && a.hour == b.hour && a.minute < b.minute)
    || (a.year == b.year && a.month == b.month && a.day == b.day && a.hour == b.hour && a.minute == b.minute
        && a.second < b.second)
  }

  lemma YearLength(y: int)
    requires y >= MinYear
    ensures DaysBeforeYear(y + 1) == DaysBeforeYear(y) + 365 + (if IsLeapYear(y) then 1 else 0)
  {
    StepOver4(y);
    StepOver100(y);
    StepOver400(y);
    DivisorChain(y);
  }

  /** Counting multiples of 4 (and of 100, and of 400) up to `y` instead of
      `y - 1` adds one exactly when `y` is such a multiple. */
  lemma StepOver4(y: int)
    ensures y / 4 == (y - 1) / 4 + (if y % 4 == 0 then 1 else 0)
  {
  }

  lemma StepOver100(y: int)
    ensures y / 100 == (y - 1) / 100 + (if y % 100 == 0 then 1 else 0)
  {
  }

  lemma StepOver400(y: int)
    ensures y / 400 == (y - 1) / 400 + (if y % 400 == 0 then 1 else 0)
  {
  }

  lemma DivisorChain(y: int)
    ensures y % 400 == 0 ==> y % 100 == 0
    ensures y % 100 == 0 ==> y % 4 == 0
  {
    if y % 400 == 0 {
      Multiple400(y / 400);
    }
    if y % 100 == 0 {
      Multiple100(y / 100);
    }
  }

  lemma Multiple400(k: int)
    ensures (400 * k) % 100 == 0
  {
    assert 400 * k == 100 * (4 * k);
  }

  lemma Multiple100(k: int)
    ensures (100 * k) % 4 == 0
  {
    assert 100 * k == 4 * (25 * k);
  }

  lemma {:induction false} DaysBeforeYearGrows(y: int, z: int)
    requires MinYear <= y < z
    ensures DaysBeforeYear(y) + 365 <= DaysBeforeYear(z)
    decreases z - y
  {
    YearLength(y);
    if y + 1 < z {
      DaysBeforeYearGrows(y + 1, z);
    }
  }

  lemma MonthLength(y: int, m: int)
    requires 1 <= m < 12
    ensures DaysBeforeMonth(y, m + 1) == DaysBeforeMonth(y, m) + DaysInMonth(y, m)
  {
  }

  lemma {:induction false} DaysBeforeMonthGrows(y: int, m: int, n: int)
    requires 1 <= m < n <= 12
    ensures DaysBeforeMonth(y, m) + DaysInMonth(y, m) <= DaysBeforeMonth(y, n)
    decreases n - m
  {
    MonthLength(y, m);
    if m + 1 < n {
      DaysBeforeMonthGrows(y, m + 1, n);
    }
  }

  /** A date's day number stays within its year. */
  lemma OrdinalWithinYear(y: int, m: int, d: int)
    requires ValidDate(y, m, d)
    ensures DaysBeforeYear(y) < Ordinal(y, m, d) <= DaysBeforeYear(y + 1)
  {
    YearLength(y);
    if m < 12 {
      DaysBeforeMonthGrows(y, m, 12);
    }
  }

  /** Day numbers follow the calendar order of dates. */
  lemma OrdinalMonotonic(a: Timestamp, b: Timestamp)
    requires Before(a, b)
    requires (a.year, a.month, a.day) != (b.year, b.month, b.day)
    ensures Ordinal(a.year, a.month, a.day) < Ordinal(b.year, b.month, b.day)
  {
    if a.year < b.year {
      OrdinalWithinYear(a.year, a.month, a.day);
      OrdinalWithinYear(b.year, b.month, b.day);
      if a.year + 1 < b.year {
        DaysBeforeYearGrows(a.year + 1, b.year);
      }
    } else if a.month < b.month {
      DaysBeforeMonthGrows(a.year, a.month, b.month);
    }
  }

  /** Converting to seconds preserves chronological order. */
  lemma ToSecondsMonotonic(a: Timestamp, b: Timestamp)
    requires Before(a, b)
    ensures ToSeconds(a) < ToSeconds(b)
  {
    var oa, ob := Ordinal(a.year, a.month, a.day), Ordinal(b.year, b.month, b.day);
    if (a.year, a.month, a.day) != (b.year, b.month, b.day) {
      OrdinalMonotonic(a, b);
      assert ob * SecondsPerDay >= (oa + 1) * SecondsPerDay;
    }
  }

  /** Two valid date-times are equal exactly when they are the same number of
      seconds from the epoch, so `datetime` equality and a zero difference agree. */
  lemma ToSecondsInjective(a: Timestamp, b: Timestamp)
    ensures ToSeconds(a) == ToSeconds(b) <==> a == b
  {
    if a != b {
      if Before(a, b) {
        ToSecondsMonotonic(a, b);
      } else {
        assert Before(b, a);
        ToSecondsMonotonic(b, a);
      }
    }
  }
}
