/**
 * The proleptic Gregorian calendar: the leap-year rule and month lengths of
 * datedelta.py, and the part of Python's `datetime.date` that datedelta relies on
 * (a year/month/day value, day ordinals, adding a number of days).
 */
module Gregorian {
  import opened Wrappers

  /** The year range of `datetime.date` (MINYEAR and MAXYEAR). */
  const MIN_YEAR := 1
  const MAX_YEAR := 9999

  /** The ordinal of 9999-12-31: `date + timedelta` fails beyond it. */
  const MAX_ORDINAL := 3652059

  /**
   * `calendar.isleap`, written out as datedelta.py inlines it. Python's `%` floors and
   * Dafny's is Euclidean; for the positive divisors used here the two agree.
   */
  predicate IsLeap(year: int) {
    year % 4 == 0 && (year % 100 != 0 || year % 400 == 0)
  }

  const DAYS_IN_MONTH: seq<int> := [31, 28, 31, 30, 31, 30, 31, 31, 30, 31, 30, 31]

  /** `_days_in_month`: the number of days of a month, exact for every integer year. */
  function DaysInMonth(year: int, month: int): (n: int)
    requires 1 <= month <= 12
    ensures 28 <= n <= 31
    ensures n == 29 <==> month == 2 && IsLeap(year)
    ensures n == 28 <==> month == 2 && !IsLeap(year)
    ensures n == 30 <==> month == 4 || month == 6 || month == 9 || month == 11
    ensures month == 12 ==> n == 31
  {
    if month == 2 && IsLeap(year) then 29 else DAYS_IN_MONTH[month - 1]
  }

  function DaysInYear(year: int): int {
    if IsLeap(year) then 366 else 365
  }

  /** A day of the proleptic Gregorian calendar, for any integer year. */
  datatype Date = Date(year: int, month: int, day: int)

  /** The month exists and has that day. */
  predicate IsValid(d: Date) {
    1 <= d.month <= 12 && 1 <= d.day <= DaysInMonth(d.year, d.month)
  }

  predicate InRange(year: int) {
    MIN_YEAR <= year <= MAX_YEAR
  }

  /** A value that a `datetime.date` can hold. */
  predicate IsDate(d: Date) {
    IsValid(d) && InRange(d.year)
  }

  /** The days of all years before `year`, counted from 0001-01-01. */
  function DaysBeforeYear(year: int): int {
    var y := year - 1;
    365 * y + y / 4 - y / 100 + y / 400
  }

  const DAYS_BEFORE_MONTH: seq<int> := [0, 31, 59, 90, 120, 151, 181, 212, 243, 273, 304, 334]

  function DaysBeforeMonth(year: int, month: int): int
    requires 1 <= month <= 12
  {
    DAYS_BEFORE_MONTH[month - 1] + (if month > 2 && IsLeap(year) then 1 else 0)
  }

  /** `date.toordinal()`: 0001-01-01 is day 1. */
  function ToOrdinal(d: Date): int
    requires IsValid(d)
  {
    DaysBeforeYear(d.year) + DaysBeforeMonth(d.year, d.month) + d.day
  }

  lemma DaysBeforeNextYear(year: int)
    ensures DaysBeforeYear(year + 1) == DaysBeforeYear(year) + DaysInYear(year)
  {
    var y := year - 1;
    assert year / 4 - y / 4 == if year % 4 == 0 then 1 else 0;
    assert year / 100 - y / 100 == if year % 100 == 0 then 1 else 0;
    assert year / 400 - y / 400 == if year % 400 == 0 then 1 else 0;
  }

  lemma {:induction false} DaysBeforeYearMonotone(a: int, b: int)
    requires a <= b
    ensures DaysBeforeYear(a) <= DaysBeforeYear(b)
    decreases b - a
  {
    if a < b {
      DaysBeforeNextYear(a);
      DaysBeforeYearMonotone(a + 1, b);
    }
  }

  lemma DaysBeforeMonthStep(year: int, month: int)
    requires 1 <= month <= 12
    ensures month < 12 ==> DaysBeforeMonth(year, month + 1) == DaysBeforeMonth(year, month) + DaysInMonth(year, month)
    ensures month == 12 ==> DaysBeforeMonth(year, month) + DaysInMonth(year, month) == DaysInYear(year)
  {
  }

  lemma {:induction false} DaysBeforeMonthMonotone(year: int, m1: int, m2: int)
    requires 1 <= m1 < m2 <= 12
    ensures DaysBeforeMonth(year, m1) + DaysInMonth(year, m1) <= DaysBeforeMonth(year, m2)
    decreases m2 - m1
  {
    DaysBeforeMonthStep(year, m1);
    if m1 + 1 < m2 {
      DaysBeforeMonthMonotone(year, m1 + 1, m2);
    }
  }

  /** The ordinal of a date lies within the days of its own year. */
  lemma OrdinalBounds(d: Date)
    requires IsValid(d)
    ensures DaysBeforeYear(d.year) < ToOrdinal(d) <= DaysBeforeYear(d.year + 1)
  {
    DaysBeforeNextYear(d.year);
    if d.month < 12 {
      DaysBeforeMonthMonotone(d.year, d.month, 12);
    }
    DaysBeforeMonthStep(d.year, 12);
  }

  /** Different valid dates have different ordinals. */
  lemma OrdinalInjective(a: Date, b: Date)
    requires IsValid(a) && IsValid(b)
    requires ToOrdinal(a) == ToOrdinal(b)
    ensures a == b
  {
    OrdinalBounds(a);
    OrdinalBounds(b);
    if a.year < b.year {
      DaysBeforeYearMonotone(a.year + 1, b.year);
      assert false;
    } else if b.year < a.year {
      DaysBeforeYearMonotone(b.year + 1, a.year);
      assert false;
    }
    if a.month < b.month {
      DaysBeforeMonthMonotone(a.year, a.month, b.month);
      assert false;
    } else if b.month < a.month {
      DaysBeforeMonthMonotone(a.year, b.month, a.month);
      assert false;
    }
  }

  /** A date is one `datetime.date` can hold exactly when its ordinal is in 1..MAX_ORDINAL. */
  lemma OrdinalInRange(d: Date)
    requires IsValid(d)
    ensures InRange(d.year) <==> 1 <= ToOrdinal(d) <= MAX_ORDINAL
  {
    OrdinalBounds(d);
    assert DaysBeforeYear(MIN_YEAR) == 0;
    assert DaysBeforeYear(MAX_YEAR + 1) == MAX_ORDINAL;
    if d.year < MIN_YEAR {
      DaysBeforeYearMonotone(d.year + 1, MIN_YEAR);
    } else if d.year > MAX_YEAR {
      DaysBeforeYearMonotone(MAX_YEAR + 1, d.year);
    } else {
      DaysBeforeYearMonotone(MIN_YEAR, d.year);
      DaysBeforeYearMonotone(d.year + 1, MAX_YEAR + 1);
    }
  }

  /** Months counted from January of year 0: the month `(year, month)` is number `MonthIndex(year, month)`. */
  function MonthIndex(year: int, month: int): int {
    12 * year + (month - 1)
  }

  /** The month with a given number, normalised as Python's `divmod(t, 12)` does. */
  function MonthAt(t: int): (ym: (int, int))
    ensures 1 <= ym.1 <= 12
    ensures MonthIndex(ym.0, ym.1) == t
  {
    (t / 12, t % 12 + 1)
  }

  /** Numbering a month and looking the number up gives the month back. */
  lemma MonthAtIndex(year: int, month: int)
    requires 1 <= month <= 12
    ensures MonthAt(MonthIndex(year, month)) == (year, month)
  {
    var t := MonthIndex(year, month);
    assert t == 12 * year + (month - 1);
  }

  /** A date in an earlier month has a smaller ordinal. */
  lemma OrdinalMonthOrder(a: Date, b: Date)
    requires IsValid(a) && IsValid(b)
    requires MonthIndex(a.year, a.month) < MonthIndex(b.year, b.month)
    ensures ToOrdinal(a) < ToOrdinal(b)
  {
    OrdinalBounds(a);
    OrdinalBounds(b);
    if a.year < b.year {
      DaysBeforeYearMonotone(a.year + 1, b.year);
    } else {
      DaysBeforeMonthMonotone(a.year, a.month, b.month);
    }
  }

  /** The first day of the month after (year, month). */
  function NextMonthStart(year: int, month: int): (r: Date)
    requires 1 <= month <= 12
    ensures IsValid(r)
  {
    if month == 12 then Date(year + 1, 1, 1) else Date(year, month + 1, 1)
  }

  /** The last day of the month before (year, month). */
  function PreviousMonthEnd(year: int, month: int): (r: Date)
    requires 1 <= month <= 12
    ensures IsValid(r)
  {
    if month == 1 then Date(year - 1, 12, 31) else Date(year, month - 1, DaysInMonth(year, month - 1))
  }

  lemma NextMonthStartOrdinal(year: int, month: int)
    requires 1 <= month <= 12
    ensures ToOrdinal(NextMonthStart(year, month)) == ToOrdinal(Date(year, month, DaysInMonth(year, month))) + 1
  {
    DaysBeforeMonthStep(year, month);
    if month == 12 {
      DaysBeforeNextYear(year);
    }
  }

  lemma PreviousMonthEndOrdinal(year: int, month: int)
    requires 1 <= month <= 12
    ensures ToOrdinal(PreviousMonthEnd(year, month)) + 1 == ToOrdinal(Date(year, month, 1))
  {
    if month == 1 {
      DaysBeforeNextYear(year - 1);
      DaysBeforeMonthStep(year - 1, 12);
    } else {
      DaysBeforeMonthStep(year, month - 1);
    }
  }

  /** Calendar day arithmetic: `n` days after (or, for negative `n`, before) `d`, a month at a time. */
  function AddDays(d: Date, n: int): (r: Date)
    requires IsValid(d)
    ensures IsValid(r)
    decreases if n < 0 then -n else n
  {
    if n == 0 then d
    else if n > 0 then
      var last := DaysInMonth(d.year, d.month);
      if d.day + n <= last then Date(d.year, d.month, d.day + n)
      else AddDays(NextMonthStart(d.year, d.month), n - (last - d.day + 1))
    else if d.day + n >= 1 then Date(d.year, d.month, d.day + n)
    else AddDays(PreviousMonthEnd(d.year, d.month), n + d.day)
  }

  /** Adding `n` days moves the ordinal by exactly `n`. */
  lemma {:induction false} AddDaysOrdinal(d: Date, n: int)
    requires IsValid(d)
    ensures ToOrdinal(AddDays(d, n)) == ToOrdinal(d) + n
    decreases if n < 0 then -n else n
  {
    if n > 0 && d.day + n > DaysInMonth(d.year, d.month) {
      var last := DaysInMonth(d.year, d.month);
      NextMonthStartOrdinal(d.year, d.month);
      AddDaysOrdinal(NextMonthStart(d.year, d.month), n - (last - d.day + 1));
    } else if n < 0 && d.day + n < 1 {
      PreviousMonthEndOrdinal(d.year, d.month);
      AddDaysOrdinal(PreviousMonthEnd(d.year, d.month), n + d.day);
    }
  }

  /** Going `n` days forward and then `n` days back returns to the same date. */
  lemma AddDaysInverse(d: Date, n: int)
    requires IsValid(d)
    ensures AddDays(AddDays(d, n), -n) == d
  {
    AddDaysOrdinal(d, n);
    AddDaysOrdinal(AddDays(d, n), -n);
    OrdinalInjective(AddDays(AddDays(d, n), -n), d);
  }

  /** Day shifts compose by adding their counts. */
  lemma AddDaysAdditive(d: Date, a: int, b: int)
    requires IsValid(d)
    ensures AddDays(AddDays(d, a), b) == AddDays(d, a + b)
  {
    AddDaysOrdinal(d, a);
    AddDaysOrdinal(AddDays(d, a), b);
    AddDaysOrdinal(d, a + b);
    OrdinalInjective(AddDays(AddDays(d, a), b), AddDays(d, a + b));
  }

  /**
   * `d + timedelta(days=n)`: the date whose ordinal is `n` more than that of `d`, or
   * None where Python raises OverflowError because that ordinal is outside 1..MAX_ORDINAL.
   */
  function PlusDays(d: Date, n: int): (r: Option<Date>)
    requires IsValid(d)
    ensures r.Some? <==> 1 <= ToOrdinal(d) + n <= MAX_ORDINAL
    ensures r.Some? ==> IsDate(r.value) && ToOrdinal(r.value) == ToOrdinal(d) + n
  {
    var e := AddDays(d, n);
    AddDaysOrdinal(d, n);
    OrdinalInRange(e);
    if InRange(e.year) then Some(e) else None
  }
}
