/**
 * Adding an offset to a date and subtracting one from it (`datedelta.__radd__` and
 * `datedelta.__rsub__`): years first, then months, then days, with a missing day rolling
 * over to the first of the next month after each of the first two steps.
 */
module DateShift {
  import opened Wrappers
  import opened Gregorian
  import opened DateDelta
  import opened Decimal

  // ---------------------------------------------------------------------------
  // What `datetime` checks

  /** The largest day count a `timedelta` holds in either direction (`timedelta.max.days`). */
  const MAX_DELTA_DAYS := 999999999

  /**
   * The range of a C `int`, which the runtime converts a year passed to `date.replace`
   * and a `timedelta` day count to before it checks their ranges.
   */
  const C_INT_MIN := -0x8000_0000
  const C_INT_MAX := 0x7fff_ffff

  predicate FitsCInt(n: int) {
    C_INT_MIN <= n <= C_INT_MAX
  }

  /** The exceptions `datetime` raises while a date is moved by an offset. */
  datatype DateError =
    | CIntOverflow(value: int)      // OverflowError converting a year or day count to a C int
    | YearOutOfRange(year: int)     // ValueError from date.replace
    | DeltaOverflow(days: int)      // OverflowError from timedelta(days=...)
    | DateOverflow                  // OverflowError from date + timedelta

  function DateMessage(e: DateError): string {
    match e
    case CIntOverflow(_) => "Python int too large to convert to C int"
    case YearOutOfRange(year) => "year " + IntToString(year) + " is out of range"
    case DeltaOverflow(days) => "days=" + IntToString(days) + "; must have magnitude <= 999999999"
    case DateOverflow => "date value out of range"
  }

  // ---------------------------------------------------------------------------
  // Month shifts

  /**
   * `d` moved by `k` months. When the month reached has no such day, the result is the
   * first day of the month after it.
   */
  function ShiftMonths(d: Date, k: int): (r: Date)
    requires IsValid(d)
    ensures IsValid(r)
  {
    var target := MonthAt(MonthIndex(d.year, d.month) + k);
    var y, m := target.0, target.1;
    if d.day > DaysInMonth(y, m) then Date(y, m + 1, 1) else Date(y, m, d.day)
  }

  /**
   * Where a shift lands: in the target month on the same day when that day exists there;
   * otherwise (never in December, and only for days 29 to 31) on the day after the end of
   * the target month.
   */
  lemma ShiftMonthsLands(d: Date, k: int)
    requires IsValid(d)
    ensures var t := MonthIndex(d.year, d.month) + k;
            var target := MonthAt(t);
            var r := ShiftMonths(d, k);
            if d.day <= DaysInMonth(target.0, target.1) then
              MonthIndex(r.year, r.month) == t && r.day == d.day
            else
              target.1 < 12 && d.day > 28 && MonthIndex(r.year, r.month) == t + 1 && r.day == 1 &&
              ToOrdinal(r) == ToOrdinal(Date(target.0, target.1, DaysInMonth(target.0, target.1))) + 1
  {
    var target := MonthAt(MonthIndex(d.year, d.month) + k);
    if d.day > DaysInMonth(target.0, target.1) {
      NextMonthStartOrdinal(target.0, target.1);
    }
  }

  /** A shift by no months changes nothing. */
  lemma ShiftMonthsZero(d: Date)
    requires IsValid(d)
    ensures ShiftMonths(d, 0) == d
  {
    MonthAtIndex(d.year, d.month);
  }

  /**
   * The years step: a shift by whole years keeps month and day, except that February 29
   * becomes March 1 when the target year is not a leap year.
   */
  lemma ShiftYears(d: Date, n: int)
    requires IsValid(d)
    ensures ShiftMonths(d, 12 * n)
         == if d.month == 2 && d.day == 29 && !IsLeap(d.year + n) then Date(d.year + n, 3, 1)
            else Date(d.year + n, d.month, d.day)
  {
    assert MonthIndex(d.year, d.month) + 12 * n == MonthIndex(d.year + n, d.month);
    MonthAtIndex(d.year + n, d.month);
  }

  /** Numbering the month `x` months after January of `year`, as `divmod(month - 1, 12)` does. */
  lemma MonthAtOffset(year: int, x: int)
    ensures MonthAt(12 * year + x) == (year + x / 12, x % 12 + 1)
  {
    var q, r := x / 12, x % 12;
    assert 12 * year + x == 12 * (year + q) + r;
  }

  /** The years step as the source writes it is a shift by twelve months a year. */
  lemma YearsStep(d: Date, n: int)
    requires IsValid(d)
    ensures var year := d.year + n;
            ShiftMonths(d, 12 * n) ==
              if d.day > DaysInMonth(year, d.month) then Date(year, d.month + 1, 1) else Date(year, d.month, d.day)
  {
    assert MonthIndex(d.year, d.month) + 12 * n == MonthIndex(d.year + n, d.month);
    MonthAtIndex(d.year + n, d.month);
  }

  /** The months step as the source writes it, normalising with `divmod(month - 1, 12)`, is a month shift. */
  lemma MonthsStep(d: Date, k: int)
    requires IsValid(d)
    ensures var month := d.month + k;
            var year, month1 := d.year + (month - 1) / 12, (month - 1) % 12 + 1;
            ShiftMonths(d, k) ==
              if d.day > DaysInMonth(year, month1) then Date(year, month1 + 1, 1) else Date(year, month1, d.day)
  {
    MonthAtOffset(d.year, d.month - 1 + k);
  }

  /** A shift whose day exists in the target month is undone by the opposite shift. */
  lemma ShiftMonthsInverse(d: Date, k: int)
    requires IsValid(d)
    requires var target := MonthAt(MonthIndex(d.year, d.month) + k); d.day <= DaysInMonth(target.0, target.1)
    ensures ShiftMonths(ShiftMonths(d, k), -k) == d
  {
    var e := ShiftMonths(d, k);
    ShiftMonthsLands(d, k);
    MonthAtIndex(d.year, d.month);
  }

  /** A shift forward never lands earlier, nor one backward later, and neither stays put. */
  lemma ShiftMonthsOrder(d: Date, k: int)
    requires IsValid(d)
    ensures k > 0 ==> ToOrdinal(ShiftMonths(d, k)) > ToOrdinal(d)
    ensures k < 0 ==> ToOrdinal(ShiftMonths(d, k)) < ToOrdinal(d)
  {
    var r := ShiftMonths(d, k);
    ShiftMonthsLands(d, k);
    if k > 0 {
      OrdinalMonthOrder(d, r);
    } else if k < 0 {
      if MonthIndex(r.year, r.month) < MonthIndex(d.year, d.month) {
        OrdinalMonthOrder(r, d);
      } else {
        MonthAtIndex(r.year, r.month);
        MonthAtIndex(d.year, d.month);
        assert r.year == d.year && r.month == d.month && r.day < d.day;
      }
    }
  }

  // ---------------------------------------------------------------------------
  // Date plus offset, as a specification

  /** The date that `replace` receives: the years step (twelve months a year), then the months step. */
  function Shifted(d: Date, delta: Delta): (r: Date)
    requires IsValid(d)
    ensures IsValid(r)
  {
    ShiftMonths(ShiftMonths(d, 12 * delta.years), delta.months)
  }

  /**
   * `date.replace(year, month, day)` with a valid month and day: the year is first converted
   * to a C `int`, then held to 1..9999.
   */
  function Replace(d: Date): (r: Result<Date, DateError>)
    requires IsValid(d)
    ensures r.Ok? <==> InRange(d.year)
    ensures r.Ok? ==> r.value == d && IsDate(r.value)
    ensures r.Err? ==> (r.error == CIntOverflow(d.year) <==> !FitsCInt(d.year))
    ensures r.Err? ==> r.error == CIntOverflow(d.year) || r.error == YearOutOfRange(d.year)
  {
    if !FitsCInt(d.year) then Err(CIntOverflow(d.year))
    else if !InRange(d.year) then Err(YearOutOfRange(d.year))
    else Ok(d)
  }

  /**
   * `timedelta(days=n)`: the count is first converted to a C `int`, then held to
   * MAX_DELTA_DAYS either way.
   */
  function TimedeltaDays(n: int): (r: Result<int, DateError>)
    ensures r.Ok? <==> -MAX_DELTA_DAYS <= n <= MAX_DELTA_DAYS
    ensures r.Ok? ==> r.value == n
    ensures r.Err? ==> (r.error == CIntOverflow(n) <==> !FitsCInt(n))
    ensures r.Err? ==> r.error == CIntOverflow(n) || r.error == DeltaOverflow(n)
  {
    if !FitsCInt(n) then Err(CIntOverflow(n))
    else if n < -MAX_DELTA_DAYS || n > MAX_DELTA_DAYS then Err(DeltaOverflow(n))
    else Ok(n)
  }

  /**
   * The last steps of both operations: `replace` on the shifted date, the `timedelta` of
   * `days`, and its addition (or, with `subtract`, its subtraction).
   */
  function ReplaceThenDays(mid: Date, days: int, subtract: bool): (r: Result<Date, DateError>)
    requires IsValid(mid)
    ensures r.Ok? ==> IsDate(r.value) && ToOrdinal(r.value) == ToOrdinal(mid) + (if subtract then -days else days)
  {
    var date :- Replace(mid);
    var n :- TimedeltaDays(days);
    match PlusDays(date, if subtract then -n else n)
    case Some(e) => Ok(e)
    case None => Err(DateOverflow)
  }

  /** `date + delta`. */
  function Plus(d: Date, delta: Delta): (r: Result<Date, DateError>)
    requires IsValid(d)
    ensures r.Ok? ==> IsDate(r.value) && ToOrdinal(r.value) == ToOrdinal(Shifted(d, delta)) + delta.days
  {
    ReplaceThenDays(Shifted(d, delta), delta.days, false)
  }

  /** When `date + delta` succeeds, and which exception it raises otherwise. */
  lemma PlusOutcome(d: Date, delta: Delta)
    requires IsValid(d)
    ensures var mid := Shifted(d, delta);
            Plus(d, delta).Ok? <==> InRange(mid.year) && -MAX_DELTA_DAYS <= delta.days <= MAX_DELTA_DAYS &&
                                    1 <= ToOrdinal(mid) + delta.days <= MAX_ORDINAL
    ensures var mid := Shifted(d, delta);
            Plus(d, delta).Err? ==>
              Plus(d, delta).error == if !FitsCInt(mid.year) then CIntOverflow(mid.year)
                                      else if !InRange(mid.year) then YearOutOfRange(mid.year)
                                      else if !FitsCInt(delta.days) then CIntOverflow(delta.days)
                                      else if delta.days < -MAX_DELTA_DAYS || delta.days > MAX_DELTA_DAYS then DeltaOverflow(delta.days)
                                      else DateOverflow
  {
  }

  /**
   * `date - delta`: the negated years and months, then the offset's own `timedelta`
   * subtracted, since `__rsub__` builds `timedelta(days=delta.days)`.
   */
  function Minus(d: Date, delta: Delta): (r: Result<Date, DateError>)
    requires IsValid(d)
    ensures r.Ok? ==> IsDate(r.value) && ToOrdinal(r.value) == ToOrdinal(Shifted(d, Neg(delta))) - delta.days
  {
    ReplaceThenDays(Shifted(d, Neg(delta)), delta.days, true)
  }

  /**
   * Subtracting an offset succeeds exactly when adding its negation does, with the same date.
   * The two fail the same way, except that each `timedelta` reports its own day count: a
   * count beyond MAX_DELTA_DAYS is reported as `delta.days` by the one and as `-delta.days`
   * by the other, and -2**31 fits a C `int` while 2**31 does not.
   */
  lemma MinusIsPlusNeg(d: Date, delta: Delta)
    requires IsValid(d)
    ensures Minus(d, delta).Ok? <==> Plus(d, Neg(delta)).Ok?
    ensures Minus(d, delta).Ok? ==> Minus(d, delta) == Plus(d, Neg(delta))
    ensures Minus(d, delta).Err? && Minus(d, delta).error != Plus(d, Neg(delta)).error ==>
              TimedeltaDays(delta.days).Err? && TimedeltaDays(-delta.days).Err? &&
              Minus(d, delta).error == TimedeltaDays(delta.days).error &&
              Plus(d, Neg(delta)).error == TimedeltaDays(-delta.days).error
  {
    assert Neg(delta).days == -delta.days;
  }

  // ---------------------------------------------------------------------------
  // The two operations, step by step

  lemma PlusDaysZero(d: Date)
    requires IsDate(d)
    ensures PlusDays(d, 0) == Some(d)
  {
    OrdinalInRange(d);
    OrdinalInjective(PlusDays(d, 0).value, d);
  }

  /** The last steps in the shape of the source, with its `if self._days` guard. */
  lemma ReplaceThenDaysSteps(mid: Date, days: int, subtract: bool)
    requires IsValid(mid)
    ensures ReplaceThenDays(mid, days, subtract)
         == if !FitsCInt(mid.year) then Err(CIntOverflow(mid.year))
            else if !InRange(mid.year) then Err(YearOutOfRange(mid.year))
            else if days == 0 then Ok(mid)
            else if !FitsCInt(days) then Err(CIntOverflow(days))
            else if days < -MAX_DELTA_DAYS || days > MAX_DELTA_DAYS then Err(DeltaOverflow(days))
            else if PlusDays(mid, if subtract then -days else days).None? then Err(DateOverflow)
            else Ok(PlusDays(mid, if subtract then -days else days).value)
  {
    if InRange(mid.year) && days == 0 {
      PlusDaysZero(mid);
    }
  }

  /** The specification in the shape of the source's steps. */
  lemma PlusSteps(d: Date, delta: Delta, afterYears: Date, mid: Date)
    requires IsValid(d) && afterYears == ShiftMonths(d, 12 * delta.years)
    requires mid == ShiftMonths(afterYears, delta.months)
    ensures Plus(d, delta)
         == if !FitsCInt(mid.year) then Err(CIntOverflow(mid.year))
            else if !InRange(mid.year) then Err(YearOutOfRange(mid.year))
            else if delta.days == 0 then Ok(mid)
            else if !FitsCInt(delta.days) then Err(CIntOverflow(delta.days))
            else if delta.days < -MAX_DELTA_DAYS || delta.days > MAX_DELTA_DAYS then Err(DeltaOverflow(delta.days))
            else if PlusDays(mid, delta.days).None? then Err(DateOverflow)
            else Ok(PlusDays(mid, delta.days).value)
  {
    ReplaceThenDaysSteps(mid, delta.days, false);
  }

  /** The same for `date - delta`, which subtracts the days. */
  lemma MinusSteps(d: Date, delta: Delta, afterYears: Date, mid: Date)
    requires IsValid(d) && afterYears == ShiftMonths(d, 12 * -delta.years)
    requires mid == ShiftMonths(afterYears, -delta.months)
    ensures Minus(d, delta)
         == if !FitsCInt(mid.year) then Err(CIntOverflow(mid.year))
            else if !InRange(mid.year) then Err(YearOutOfRange(mid.year))
            else if delta.days == 0 then Ok(mid)
            else if !FitsCInt(delta.days) then Err(CIntOverflow(delta.days))
            else if delta.days < -MAX_DELTA_DAYS || delta.days > MAX_DELTA_DAYS then Err(DeltaOverflow(delta.days))
            else if PlusDays(mid, -delta.days).None? then Err(DateOverflow)
            else Ok(PlusDays(mid, -delta.days).value)
  {
    var neg := Neg(delta);
    assert 12 * neg.years == 12 * -delta.years && neg.months == -delta.months;
    assert ShiftMonths(d, 12 * neg.years) == afterYears;
    assert Shifted(d, neg) == ShiftMonths(afterYears, neg.months);
    ReplaceThenDaysSteps(mid, delta.days, true);
  }

  /**
   * The years step: move the year by `n`; when the day is missing in that month (February 29
   * of a common year), go to the first of the next month, which December never needs.
   */
  method AddYears(year: int, month: int, day: int, n: int) returns (year': int, month': int, day': int)
    requires IsValid(Date(year, month, day))
    ensures Date(year', month', day') == ShiftMonths(Date(year, month, day), 12 * n)
  {
    YearsStep(Date(year, month, day), n);
    year', month', day' := year + n, month, day;
    if day' > DaysInMonth(year', month') {
      assert month' < 12;
      month', day' := month' + 1, 1;
    }
  }

  /**
   * The months step: move the month by `k`, carry whole years out with floor `divmod`, and
   * when the day is missing in the month reached, go to the first of the next month,
   * which December never needs.
   */
  method AddMonths(year: int, month: int, day: int, k: int) returns (year': int, month': int, day': int)
    requires IsValid(Date(year, month, day))
    ensures Date(year', month', day') == ShiftMonths(Date(year, month, day), k)
  {
    MonthsStep(Date(year, month, day), k);
    year', month', day' := year, month + k, day;
    var dyear, month0 := (month' - 1) / 12, (month' - 1) % 12;
    year' := year' + dyear;
    month' := month0 + 1;
    if day' > DaysInMonth(year', month') {
      assert month' < 12;
      month', day' := month' + 1, 1;
    }
  }

  /**
   * The last two steps of both operations: `replace` (the month and day are valid by the
   * steps before it, and it checks the year), then, when there are days to move, the
   * `timedelta` of `days` added, or with `subtract` subtracted.
   */
  method ReplaceThenAddDays(year: int, month: int, day: int, days: int, subtract: bool)
    returns (r: Result<Date, DateError>)
    requires IsValid(Date(year, month, day))
    ensures r == ReplaceThenDays(Date(year, month, day), days, subtract)
  {
    ReplaceThenDaysSteps(Date(year, month, day), days, subtract);
    var result :- Replace(Date(year, month, day));
    if days != 0 {
      var n :- TimedeltaDays(days);
      var moved := PlusDays(result, if subtract then -n else n);
      if moved.None? {
        return Err(DateOverflow);
      }
      result := moved.value;
    }
    return Ok(result);
  }

  /** `__radd__`: `date + delta`. */
  method AddToDate(date: Date, delta: Delta) returns (r: Result<Date, DateError>)
    requires IsDate(date)
    ensures r == Plus(date, delta)
  {
    var year, month, day := date.year, date.month, date.day;
    assert date == Date(year, month, day);
    if delta.years != 0 {
      year, month, day := AddYears(year, month, day, delta.years);
    } else {
      ShiftMonthsZero(date);
    }
    ghost var afterYears := Date(year, month, day);
    if delta.months != 0 {
      year, month, day := AddMonths(year, month, day, delta.months);
    } else {
      ShiftMonthsZero(afterYears);
    }
    r := ReplaceThenAddDays(year, month, day, delta.days, false);
  }

  /** `__rsub__`: `date - delta`, the same steps with the years, months and days negated. */
  method SubtractFromDate(date: Date, delta: Delta) returns (r: Result<Date, DateError>)
    requires IsDate(date)
    ensures r == Minus(date, delta)
  {
    var year, month, day := date.year, date.month, date.day;
    assert date == Date(year, month, day);
    if delta.years != 0 {
      year, month, day := AddYears(year, month, day, -delta.years);
    } else {
      assert 12 * -delta.years == 0;
      ShiftMonthsZero(date);
    }
    ghost var afterYears := Date(year, month, day);
    assert afterYears == ShiftMonths(date, 12 * -delta.years);
    if delta.months != 0 {
      year, month, day := AddMonths(year, month, day, -delta.months);
    } else {
      assert -delta.months == 0;
      ShiftMonthsZero(afterYears);
    }
    var neg := Neg(delta);
    assert 12 * neg.years == 12 * -delta.years && neg.months == -delta.months;
    assert Shifted(date, neg) == Date(year, month, day);
    r := ReplaceThenAddDays(year, month, day, delta.days, true);
  }

  // ---------------------------------------------------------------------------
  // Properties of date arithmetic

  /** The zero offset leaves every date unchanged, added or subtracted. */
  lemma PlusZero(d: Date)
    requires IsDate(d)
    ensures Plus(d, ZERO) == Ok(d)
    ensures Minus(d, ZERO) == Ok(d)
  {
    ShiftMonthsZero(d);
    PlusDaysZero(d);
    assert Neg(ZERO) == ZERO;
  }

  /** An offset of days only is plain day arithmetic. */
  lemma PlusDaysOnly(d: Date, n: int)
    requires IsDate(d)
    ensures Plus(d, Delta(0, 0, n)).Ok? <==> 1 <= ToOrdinal(d) + n <= MAX_ORDINAL
    ensures Plus(d, Delta(0, 0, n)).Ok? ==> ToOrdinal(Plus(d, Delta(0, 0, n)).value) == ToOrdinal(d) + n
  {
    ShiftMonthsZero(d);
    OrdinalInRange(d);
  }

  /** Subtracting a days-only offset undoes adding it. */
  lemma DaysOnlyInverse(d: Date, n: int)
    requires IsDate(d)
    requires Plus(d, Delta(0, 0, n)).Ok?
    ensures Minus(Plus(d, Delta(0, 0, n)).value, Delta(0, 0, n)) == Ok(d)
  {
    var e := Plus(d, Delta(0, 0, n)).value;
    PlusDaysOnly(d, n);
    PlusOutcome(d, Delta(0, 0, n));
    assert Neg(Delta(0, 0, n)) == Delta(0, 0, -n);
    ShiftMonthsZero(e);
    PlusDaysAt(e, -n, d);
  }

  /** A year is twelve months. */
  lemma YearIsTwelveMonths(d: Date, n: int, days: int)
    requires IsValid(d)
    ensures Plus(d, Delta(n, 0, days)) == Plus(d, Delta(0, 12 * n, days))
  {
    ShiftMonthsZero(d);
    ShiftMonthsZero(ShiftMonths(d, 12 * n));
  }

  /**
   * Adding an offset whose fields are all non-negative never moves a date back, and moves
   * it forward unless the offset is zero; an offset with no positive field mirrors this.
   */
  lemma PlusOrder(d: Date, delta: Delta)
    requires IsValid(d)
    requires Plus(d, delta).Ok?
    ensures delta.years >= 0 && delta.months >= 0 && delta.days >= 0 ==>
              ToOrdinal(Plus(d, delta).value) >= ToOrdinal(d) &&
              (delta != ZERO ==> ToOrdinal(Plus(d, delta).value) > ToOrdinal(d))
    ensures delta.years <= 0 && delta.months <= 0 && delta.days <= 0 ==>
              ToOrdinal(Plus(d, delta).value) <= ToOrdinal(d) &&
              (delta != ZERO ==> ToOrdinal(Plus(d, delta).value) < ToOrdinal(d))
  {
    var y := ShiftMonths(d, 12 * delta.years);
    ShiftMonthsOrder(d, 12 * delta.years);
    ShiftMonthsOrder(y, delta.months);
    if delta.years == 0 {
      ShiftMonthsZero(d);
    }
    if delta.months == 0 {
      ShiftMonthsZero(y);
    }
  }

  // ---------------------------------------------------------------------------
  // Worked examples

  /** Day arithmetic on concrete dates, through the ordinal. */
  lemma PlusDaysAt(d: Date, n: int, e: Date)
    requires IsDate(d) && IsDate(e)
    requires ToOrdinal(e) == ToOrdinal(d) + n
    ensures PlusDays(d, n) == Some(e)
  {
    OrdinalInRange(e);
    OrdinalInjective(PlusDays(d, n).value, e);
  }

  /** February 29 plus a year is March 1. */
  lemma LeapDayPlusYear()
    ensures Plus(Date(2020, 2, 29), YEAR) == Ok(Date(2021, 3, 1))
  {
    ShiftYears(Date(2020, 2, 29), 1);
    ShiftMonthsZero(Date(2021, 3, 1));
    PlusSteps(Date(2020, 2, 29), YEAR, Date(2021, 3, 1), Date(2021, 3, 1));
  }

  /** February 29 plus twelve months is March 1 as well. */
  lemma LeapDayPlusTwelveMonths()
    ensures Plus(Date(2020, 2, 29), Delta(0, 12, 0)) == Ok(Date(2021, 3, 1))
  {
    ShiftMonthsZero(Date(2020, 2, 29));
    ShiftYears(Date(2020, 2, 29), 1);
    PlusSteps(Date(2020, 2, 29), Delta(0, 12, 0), Date(2020, 2, 29), Date(2021, 3, 1));
  }

  /** February 29 plus 365 days is February 28. */
  lemma LeapDayPlusDays()
    ensures Plus(Date(2020, 2, 29), Delta(0, 0, 365)) == Ok(Date(2021, 2, 28))
  {
    ShiftMonthsZero(Date(2020, 2, 29));
    PlusDaysAt(Date(2020, 2, 29), 365, Date(2021, 2, 28));
    PlusSteps(Date(2020, 2, 29), Delta(0, 0, 365), Date(2020, 2, 29), Date(2020, 2, 29));
  }

  /** A month shift that lands on a missing day rolls over: January 31 plus a month is March 1. */
  lemma MonthRollover()
    ensures Plus(Date(2021, 1, 31), MONTH) == Ok(Date(2021, 3, 1))
  {
    ShiftMonthsZero(Date(2021, 1, 31));
    assert MonthAt(MonthIndex(2021, 1) + 1) == (2021, 2);
    assert ShiftMonths(Date(2021, 1, 31), 1) == Date(2021, 3, 1);
    PlusSteps(Date(2021, 1, 31), MONTH, Date(2021, 1, 31), Date(2021, 3, 1));
  }

  /** Years first, then days: 2020-01-01 plus (1 year, -10 days) is 2020-12-22. */
  lemma YearThenDays()
    ensures Plus(Date(2020, 1, 1), Delta(1, 0, -10)) == Ok(Date(2020, 12, 22))
  {
    ShiftYears(Date(2020, 1, 1), 1);
    ShiftMonthsZero(Date(2021, 1, 1));
    PlusDaysAt(Date(2021, 1, 1), -10, Date(2020, 12, 22));
    PlusSteps(Date(2020, 1, 1), Delta(1, 0, -10), Date(2021, 1, 1), Date(2021, 1, 1));
  }

  /** Subtraction negates each step: 2021-12-31 minus (1 year, -10 days) is 2021-01-10. */
  lemma MinusYearThenDays()
    ensures Minus(Date(2021, 12, 31), Delta(1, 0, -10)) == Ok(Date(2021, 1, 10))
  {
    ShiftYears(Date(2021, 12, 31), -1);
    ShiftMonthsZero(Date(2020, 12, 31));
    PlusDaysAt(Date(2020, 12, 31), 10, Date(2021, 1, 10));
    MinusSteps(Date(2021, 12, 31), Delta(1, 0, -10), Date(2020, 12, 31), Date(2020, 12, 31));
  }

  /** Subtraction is not the inverse of addition: (2020-02-29 + 1 year) - 1 year is 2020-03-01. */
  lemma NotAnInverse()
    ensures Plus(Date(2020, 2, 29), YEAR) == Ok(Date(2021, 3, 1))
    ensures Minus(Date(2021, 3, 1), YEAR) == Ok(Date(2020, 3, 1))
  {
    LeapDayPlusYear();
    ShiftYears(Date(2021, 3, 1), -1);
    ShiftMonthsZero(Date(2020, 3, 1));
    MinusSteps(Date(2021, 3, 1), YEAR, Date(2020, 3, 1), Date(2020, 3, 1));
  }

  /** A year past 9999-12-31 is rejected by `replace`. */
  lemma YearOverflow()
    ensures Plus(Date(9999, 12, 31), YEAR) == Err(YearOutOfRange(10000))
  {
    ShiftYears(Date(9999, 12, 31), 1);
    ShiftMonthsZero(Date(10000, 12, 31));
  }

  /** A day past 9999-12-31 is rejected by the day addition. */
  lemma DayOverflowAtEnd()
    ensures Plus(Date(9999, 12, 31), DAY) == Err(DateOverflow)
  {
    ShiftMonthsZero(Date(9999, 12, 31));
    PlusSteps(Date(9999, 12, 31), DAY, Date(9999, 12, 31), Date(9999, 12, 31));
    assert ToOrdinal(Date(9999, 12, 31)) == MAX_ORDINAL;
    assert PlusDays(Date(9999, 12, 31), 1).None?;
  }

  lemma FirstDayUnshifted()
    ensures Shifted(Date(1, 1, 1), Delta(0, 0, -1)) == Date(1, 1, 1)
  {
    ShiftMonthsZero(Date(1, 1, 1));
  }

  /** 0001-01-01 is the first day `date` holds. */
  lemma NoDayBeforeFirst()
    ensures PlusDays(Date(1, 1, 1), -1) == None
  {
    assert ToOrdinal(Date(1, 1, 1)) == 1;
  }

  /** Adding minus one day to 0001-01-01 is rejected by the day addition. */
  lemma NegativeDayOverflowAtStart()
    ensures Plus(Date(1, 1, 1), Delta(0, 0, -1)) == Err(DateOverflow)
  {
    FirstDayUnshifted();
    NoDayBeforeFirst();
    PlusSteps(Date(1, 1, 1), Delta(0, 0, -1), Date(1, 1, 1), Date(1, 1, 1));
  }

  /** So is subtracting a day from it. */
  lemma DayOverflowAtStart()
    ensures Minus(Date(1, 1, 1), DAY) == Err(DateOverflow)
  {
    NegativeDayOverflowAtStart();
    assert Neg(DAY) == Delta(0, 0, -1);
  }

  /** A day count `timedelta` cannot hold is rejected before any day is added, in both directions. */
  lemma DeltaDaysOverflow()
    ensures Plus(Date(2020, 1, 1), Delta(0, 0, 1000000000)) == Err(DeltaOverflow(1000000000))
    ensures Minus(Date(2020, 1, 1), Delta(0, 0, 1000000000)) == Err(DeltaOverflow(1000000000))
  {
    ShiftMonthsZero(Date(2020, 1, 1));
  }

  /** A year beyond the C `int` range fails in the conversion inside `replace`. */
  lemma YearBeyondCInt()
    ensures Plus(Date(2020, 1, 1), Delta(years := 0x8000_0000)) == Err(CIntOverflow(0x8000_0000 + 2020))
  {
    ShiftYears(Date(2020, 1, 1), 0x8000_0000);
    ShiftMonthsZero(Date(0x8000_0000 + 2020, 1, 1));
  }

  /** So does a day count beyond it, in the conversion inside `timedelta`. */
  lemma DaysBeyondCInt()
    ensures Plus(Date(2020, 1, 1), Delta(days := 0x8000_0000)) == Err(CIntOverflow(0x8000_0000))
  {
    ShiftMonthsZero(Date(2020, 1, 1));
  }

  /**
   * The C `int` range is not symmetric: subtracting -2**31 days builds a `timedelta` of
   * -2**31 days, which converts and is then out of range, while adding 2**31 does not convert.
   */
  lemma DaysAtCIntMinimum()
    ensures Minus(Date(2020, 1, 1), Delta(days := -0x8000_0000)) == Err(DeltaOverflow(-0x8000_0000))
    ensures Plus(Date(2020, 1, 1), Neg(Delta(days := -0x8000_0000))) == Err(CIntOverflow(0x8000_0000))
  {
    ShiftMonthsZero(Date(2020, 1, 1));
    assert Neg(Delta(days := -0x8000_0000)) == Delta(days := 0x8000_0000);
  }

  /** The next power of ten's decimal text, for the messages below. */
  lemma PowerOfTenText(n: nat, text: string)
    requires n == 1 || (n >= 10 && n % 10 == 0)
    requires NatToString(n) == text
    ensures NatToString(n * 10) == text + "0"
  {
    assert (n * 10) / 10 == n && (n * 10) % 10 == 0;
  }

  /** The decimal texts of 10000 and 1000000000, built one power of ten at a time. */
  lemma PowersOfTenTexts()
    ensures IntToString(10000) == "10000"
    ensures IntToString(1000000000) == "1000000000"
  {
    PowerOfTenText(1, "1");
    PowerOfTenText(10, "10");
    PowerOfTenText(100, "100");
    PowerOfTenText(1000, "1000");
    assert IntToString(10000) == "10000";
    PowerOfTenText(10000, "10000");
    PowerOfTenText(100000, "100000");
    PowerOfTenText(1000000, "1000000");
    PowerOfTenText(10000000, "10000000");
    PowerOfTenText(100000000, "100000000");
  }

  /**
   * The messages of the errors the worked examples raise (`YearOverflow`,
   * `DayOverflowAtEnd`, `DeltaDaysOverflow`, `DaysBeyondCInt`), as `datetime` words them.
   */
  lemma ExampleMessages()
    ensures DateMessage(YearOutOfRange(10000)) == "year " + "10000" + " is out of range"
    ensures DateMessage(DateOverflow) == "date value out of range"
    ensures DateMessage(DeltaOverflow(1000000000)) == "days=" + "1000000000" + "; must have magnitude <= 999999999"
    ensures DateMessage(CIntOverflow(0x8000_0000)) == "Python int too large to convert to C int"
  {
    PowersOfTenTexts();
  }
}
