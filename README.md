# datedelta in Dafny

A model of the Python library `datedelta`. The library has one class, `datedelta`: an immutable
calendar offset made of a number of years, months and days. The class defines:

- construction, equality and hashing;
- offset arithmetic: `+` and `-` with a sign rule, and `*` by an integer, negation and unary plus;
- the two text renderings, `repr` and `str`;
- adding an offset to a `datetime.date` and subtracting one from it. These apply the years, then
  the months, then the days. After each of the first two steps, a day that does not exist in the
  month reached rolls over to the first of the next month.

The project has five modules, one file each:

- `wrappers.dfy` (`Wrappers`): `Option` and `Result`. A `Result` error stands for the Python
  exception the operation raises.
- `gregorian.dfy` (`Gregorian`):
  - the leap-year rule and `_days_in_month`;
  - the part of `datetime.date` the library relies on: a year/month/day value that is valid in
    the proleptic Gregorian calendar, its ordinal (`toordinal`, where 0001-01-01 is day 1), the
    year range 1..9999, and `date + timedelta(days=n)`;
  - month numbering as `divmod(month - 1, 12)` does it.
- `decimal.dfy` (`Decimal`): `str(n)` for an integer, and a reader for that text. The reader is
  proved to be its inverse, and to accept nothing but such texts.
- `datedelta.dfy` (`DateDelta`):
  - the offset datatype, its constructor over real numbers, equality, hashing and pickling state;
  - the offset arithmetic;
  - `repr` and `str`, each proved against a reader that recovers the offset from the text and
    accepts exactly the texts the rendering writes;
  - the library's rendering test cases as worked examples.
- `dateshift.dfy` (`DateShift`):
  - `__radd__` and `__rsub__` as methods that update local `year`, `month` and `day` variables
    step by step, as the source does;
  - each method proved equal to a specification function (`Plus`, `Minus`) that is defined
    through month shifts and day ordinals;
  - the checks of `date.replace` and `timedelta(days=...)`, including the conversion of the year
    and the day count to a C `int` that comes before their range checks, and the errors they
    raise (`DateError`, with their texts in `DateMessage`);
  - properties of that specification, and the library's test cases as worked examples.

Integers are unbounded, as Python's are, except for the runtime limits listed under "Left out".
Dafny's `/` and `%` are Euclidean. For the positive
divisors the source uses (4, 100, 400 and 12), they agree with Python's floor `//`, `%` and
`divmod`.

## Model

| member | source | states |
|---|---|---|
| Gregorian.DaysInMonth | datedelta.py:239-248 | Requires 1 <= month <= 12. The result is 28..31. It is 29 exactly for February of a leap year (divisible by 4, and not by 100 unless by 400), 28 exactly for February of any other year, 30 exactly for April, June, September and November, and always 31 for December |
| Gregorian.OrdinalInjective | datedelta.py:153-157 | Two valid dates with the same ordinal are the same date, so a date is fully determined by its day number |
| Gregorian.OrdinalInRange | datedelta.py:153-157 | A valid date has a year in 1..9999 (the range `replace` accepts) exactly when its ordinal is in 1..3652059 (the range `date + timedelta` accepts) |
| Gregorian.OrdinalMonthOrder | datedelta.py:138-151 | A date in an earlier month (by year and month) has a smaller ordinal than one in a later month |
| Gregorian.MonthAt | datedelta.py:143-145 | A month number t normalised as `divmod(t, 12)` gives a month in 1..12 whose number is t again |
| Gregorian.MonthAtIndex | datedelta.py:143-145 | Normalising the number of a valid (year, month) gives back that year and month |
| Gregorian.NextMonthStartOrdinal | datedelta.py:133-137 | The first of the next month, with December followed by January of the next year, is the day after the last day of the month |
| Gregorian.AddDaysOrdinal | datedelta.py:157 | Moving a valid date by n days adds exactly n to its ordinal, for positive and negative n |
| Gregorian.AddDaysInverse | datedelta.py:157 | Moving by n days and then by -n days returns to the starting date |
| Gregorian.AddDaysAdditive | datedelta.py:157 | Moving by a days and then by b days is moving by a + b days |
| Gregorian.PlusDays | datedelta.py:157 | `date + timedelta(days=n)` succeeds exactly when the new ordinal is in 1..3652059, and then gives the valid in-range date with that ordinal |
| Decimal.ParseIntPrefixRoundTrip | datedelta.py:41-55 | Reading the decimal text of any integer (as `format` writes it), followed by anything that is not a digit, gives back that integer and the rest of the text |
| Decimal.IntToStringInjective | datedelta.py:41-55 | Different integers have different decimal texts |
| Decimal.NatToString | datedelta.py:41-55 | The text of a natural number is one or more digits, with no leading zero except in "0" itself |
| Decimal.ParseIntPrefixExact | datedelta.py:41-55 | The reader accepts only integer texts as `format` writes them (no leading zeros, no "-0"): whatever it reads is the text of the number it returns, followed by something that does not start with a digit |
| DateDelta.Make | datedelta.py:8-22 | The constructor succeeds exactly when all three arguments are whole numbers, and then holds their values. Otherwise it raises "<field> must be an integer value" for the first of years, months, days that is not whole |
| DateDelta.MakeErrorText | datedelta.py:13-18 | When the constructor fails, its message is "<field> must be an integer value" for the first of years, months, days that is not a whole number |
| DateDelta.Message | datedelta.py:14-18 | No contract of its own: the five `ValueError` texts the class raises. `MakeErrorText` and `SignErrorTexts` tie each error to its text |
| DateDelta.MakeDefaults | datedelta.py:8 | The arguments are keyword-only and default to 0: `datedelta()` is the zero offset, and the constants `YEAR`, `MONTH`, `WEEK` and `DAY` are the offsets the constructor builds from one keyword; `days=0.5` raises "days must be an integer value" |
| DateDelta.Truncate | datedelta.py:9-11 | Python's `int()` truncates toward zero: for x >= 0 it gives the whole number n >= 0 with n <= x < n + 1, and for x < 0 the whole number n <= 0 with n - 1 < x <= n |
| DateDelta.TruncateExact | datedelta.py:9-18 | `int(x) == x` holds exactly when x is a whole number |
| DateDelta.Equal | datedelta.py:58-64 | Two offsets are equal exactly when all three fields are pairwise equal |
| DateDelta.NotEqual | datedelta.py:66-72 | `!=`, written out field by field, is exactly the negation of `==` |
| DateDelta.HashKeyExact | datedelta.py:74-75 | The tuple that is hashed is the same for two offsets exactly when they are equal, so equal offsets hash alike |
| DateDelta.State | datedelta.py:219-220 | No contract of its own: the saved state is the tuple (years, months, days), the same tuple `__hash__` hashes (datedelta.py:75). Specified by `PickleRoundTrip` and `HashKeyExact` |
| DateDelta.SetState | datedelta.py:222-223 | No contract of its own: the restored offset has the three fields of the tuple. Specified by `PickleRoundTrip` |
| DateDelta.PickleRoundTrip | datedelta.py:219-223 | Restoring the state that pickling saves gives the offset back, and the state of a restored offset is the tuple it was restored from |
| DateDelta.Add | datedelta.py:77-92 | Adding two offsets succeeds exactly when no field pair has opposite signs (each product is >= 0), and then gives the fieldwise sum. Otherwise it raises "cannot add datedeltas with opposite signs" |
| DateDelta.Sub | datedelta.py:94-109 | Subtracting succeeds exactly when no field pair has the same sign (each product is <= 0), and then gives the fieldwise difference. Otherwise it raises "cannot subtract datedeltas with same signs" |
| DateDelta.SignErrorTexts | datedelta.py:90 | When `+` fails its message is "cannot add datedeltas with opposite signs", and when `-` fails (datedelta.py:107) it is "cannot subtract datedeltas with same signs" |
| DateDelta.ProductSign | datedelta.py:79-83 | The product guards of `+` and `-` mean: x*y >= 0 exactly when x and y do not have opposite signs, and x*y <= 0 exactly when they do not have the same sign |
| DateDelta.AddCommutes | datedelta.py:77-92 | Adding offsets is commutative, including which pairs are rejected |
| DateDelta.AddSubZero | datedelta.py:77-109 | The zero offset is neutral for `+` on both sides and for `-` on the right; zero minus an offset is its negation |
| DateDelta.SubIsAddNeg | datedelta.py:77-109 | a - b is defined exactly when a + (-b) is, and then has the same value |
| DateDelta.SubSelf | datedelta.py:94-109 | An offset can be subtracted from itself only when it is zero |
| DateDelta.Neg | datedelta.py:207-212 | No contract of its own: every field negated. Specified by `NegInvolutive`, `MulIdentities` (negation is multiplying by -1), `AddSubZero` (zero minus an offset) and `SubIsAddNeg` |
| DateDelta.NegInvolutive | datedelta.py:207-212 | Negating twice gives the offset back |
| DateDelta.Pos | datedelta.py:214-215 | Unary plus gives an offset equal to its operand |
| DateDelta.Mul | datedelta.py:111-119 | `__mul__`, which is also `__rmul__` (datedelta.py:205): the product is the zero offset exactly when the offset is zero or the factor is 0. `MulIdentities`, `MulComposes` and `MulAddDistributes` state the rest |
| DateDelta.MulIdentities | datedelta.py:111-119 | Multiplying by 0 gives the zero offset, by 1 the offset itself, and by -1 its negation |
| DateDelta.MulAddDistributes | datedelta.py:77-119 | Multiples of one offset by two factors of equal sign can always be added, and their sum is the multiple by the sum of the factors |
| DateDelta.MulComposes | datedelta.py:111-119 | Multiplying by j and then by k is multiplying by j*k |
| DateDelta.Repr | datedelta.py:38-46 | No contract of its own. Specified by `ReprRoundTrip`, `ParseReprExact` and `RenderingsInjective`, and by the worked examples |
| DateDelta.ReprRoundTrip | datedelta.py:38-46 | For every offset whose fields the interpreter will format (see "Left out"): `repr` lists the non-zero fields as `years=`, `months=`, `days=` in that order, separated by ", ", inside `datedelta.datedelta(...)`. Reading that text back gives the offset, so `repr` is evaluable and loses nothing. The reader rejects a zero field written out, and `ParseReprExact` shows it accepts no other text |
| DateDelta.ParseKeywordSound | datedelta.py:39-45 | Whatever one keyword reader reads is exactly the argument `__repr__` writes for that field, with its ", " lead, and a field it finds absent reads as 0 |
| DateDelta.ArgsExact | datedelta.py:39-46 | Whatever the argument reader accepts is the argument list `__repr__` writes for the offset it returns |
| DateDelta.ParseReprExact | datedelta.py:38-46 | The repr reader reads a text as an offset exactly when the text is that offset's `repr`, so it is a faithful inverse and accepts nothing else |
| DateDelta.ArgsRoundTrip | datedelta.py:39-46 | Reading back the joined keyword arguments (for every combination of zero fields, including none present) gives the three fields |
| DateDelta.JoinThree | datedelta.py:39-56 | Joining up to three optional parts with ", " puts the separator before each present part except the first |
| DateDelta.Str | datedelta.py:48-56 | No contract of its own. Specified by `StrRoundTrip`, `ParseStrExact`, `StrZeroDays` and `RenderingsInjective`, and by the worked examples |
| DateDelta.Plural | datedelta.py:251-252 | `_s`: the suffix is empty exactly when the value is 1 or -1, and is "s" otherwise |
| DateDelta.StrRoundTrip | datedelta.py:48-56 | For every offset whose fields the interpreter will format (see "Left out"): `str` writes "<v> <unit>" for each non-zero field in the order year, month, day, with an "s" exactly when the absolute value is not 1, joined by ", ", and "0 days" for the zero offset. Reading that text back gives the offset. The reader requires the suffix the number calls for and rejects a zero field written out, and `ParseStrExact` shows it accepts no other text |
| DateDelta.ParseUnitSound | datedelta.py:50-55 | Whatever one field reader reads is exactly the part `__str__` writes for that field, with its ", " lead and the plural suffix its number calls for, and a field it finds absent reads as 0 |
| DateDelta.PartsExact | datedelta.py:49-56 | Whatever the parts reader accepts is the joined parts of a non-zero offset, the one it returns |
| DateDelta.ParseStrExact | datedelta.py:48-56 | The str reader reads a text as an offset exactly when the text is that offset's `str`, so it accepts nothing else: not a wrong plural, not a zero field, not a leading zero |
| DateDelta.ZeroDaysIsNoParts | datedelta.py:56 | "0 days" is not the joined parts of any offset, because the parts reader rejects a zero field written out |
| DateDelta.PartsRoundTrip | datedelta.py:49-56 | Reading back the joined parts of a non-zero offset gives the offset |
| DateDelta.StrZeroDays | datedelta.py:56 | `str` gives "0 days" exactly for the zero offset |
| DateDelta.RenderingsInjective | datedelta.py:38-56 | Two offsets have the same `repr`, or the same `str`, exactly when they are equal |
| DateDelta.RenderZero | test_datedelta.py:107 | The zero offset renders as `datedelta.datedelta()` and as "0 days" |
| DateDelta.StrOneYear | test_datedelta.py:109 | One year renders as "1 year", in the singular |
| DateDelta.StrMinusOneYear | test_datedelta.py:121 | Minus one year renders as "-1 year", also in the singular |
| DateDelta.StrYearsAndDays | test_datedelta.py:166 | Two years and six days render as "2 years, 6 days": plurals, and the zero months left out |
| DateDelta.ReprYearsAndDays | test_datedelta.py:166 | The same offset has the repr `datedelta.datedelta(years=2, days=6)` |
| DateDelta.StrMixed | test_datedelta.py:211 | (-1 year, 1 month, 10 days) renders as "-1 year, 1 month, 10 days": each field takes its own suffix |
| DateDelta.ParseStrWantsPlural | datedelta.py:251-252 | The str reader rejects "2 year", which `_s` never writes |
| DateDelta.ParseReprRejectsZeroField | datedelta.py:40-41 | The repr reader rejects `datedelta.datedelta(years=0)`, which `__repr__` never writes |
| DateShift.ShiftMonths | datedelta.py:129-151 | A month shift of a valid date always gives a valid date |
| DateShift.ShiftMonthsLands | datedelta.py:133-151 | A shift lands on the same day of the target month when that day exists there. Otherwise the target is never December, the day is 29..31, and the result is the first of the next month, the day after the end of the target month |
| DateShift.ShiftMonthsZero | datedelta.py:130-140 | Shifting by no months changes nothing, which is why the source may skip a zero step |
| DateShift.ShiftYears | datedelta.py:129-137 | The years step keeps month and day, except that February 29 becomes March 1 exactly when the target year is not a leap year |
| DateShift.YearsStep | datedelta.py:130-137 | The years step as the source writes it (add to the year, then roll a missing day over) is a shift by twelve months a year |
| DateShift.MonthsStep | datedelta.py:140-151 | The months step as the source writes it (add to the month, normalise with `divmod(month - 1, 12)`, then roll a missing day over) is a month shift |
| DateShift.ShiftMonthsInverse | datedelta.py:138-151 | A month shift whose day exists in the target month is undone by the opposite shift |
| DateShift.ShiftMonthsOrder | datedelta.py:138-151 | A shift by a positive number of months always moves the date later, and by a negative number always earlier |
| DateShift.Shifted | datedelta.py:129-153 | The date handed to `replace` after the years and months steps is always a valid date, so `replace` can only fail on the year |
| DateShift.Replace | datedelta.py:153 | `replace` with the stepped month and day succeeds exactly when the year is in 1..9999, and then gives that date. A year outside the C `int` range raises the conversion's `OverflowError`; any other bad year raises "year N is out of range" |
| DateShift.TimedeltaDays | datedelta.py:157 | `timedelta(days=n)` succeeds exactly when abs(n) <= 999999999, and then holds n. A count outside the C `int` range raises the conversion's `OverflowError`; any other bad count raises "days=N; must have magnitude <= 999999999" |
| DateShift.ReplaceThenDays | datedelta.py:153-159 | When the last steps succeed, the result is a date in range whose ordinal is the shifted date's plus the days, or minus them when subtracting |
| DateShift.Plus | datedelta.py:121-161 | When `date + delta` succeeds, the result is a date in range whose ordinal is that of the shifted date plus the offset's days |
| DateShift.PlusOutcome | datedelta.py:153-159 | `date + delta` succeeds exactly when the shifted year is in 1..9999, the day count fits a `timedelta`, and the final ordinal is in range. Otherwise it raises, in that order of checks: the C `int` conversion of the year, the `replace` year error, the C `int` conversion of the day count, the `timedelta` overflow, then "date value out of range" |
| DateShift.Minus | datedelta.py:163-203 | When `date - delta` succeeds, the result is a date in range whose ordinal is that of the date shifted by the negated years and months, minus the offset's days |
| DateShift.MinusIsPlusNeg | datedelta.py:163-203 | `date - delta` succeeds exactly when `date + (-delta)` does, with the same date. When their errors differ, both come from building the `timedelta`, and each is the error for its own day count (`delta.days` and `-delta.days`) |
| DateShift.ReplaceThenDaysSteps | datedelta.py:153-159 | The last steps in the shape of the source: the `replace` checks, then nothing more when there are no days (the `if self._days` guard), else the `timedelta` checks and the day addition |
| DateShift.PlusSteps | datedelta.py:153-159 | The specification of `date + delta`, stated in the shape of the source's last steps, including the `if self._days` guard that skips the day addition |
| DateShift.MinusSteps | datedelta.py:195-201 | The same for subtraction, which subtracts the days |
| DateShift.ReplaceThenAddDays | datedelta.py:153-159 | The last steps on local variables: `replace`, then, only when there are days, the `timedelta` added or subtracted. It returns exactly `ReplaceThenDays` |
| DateShift.AddYears | datedelta.py:129-137 | The in-place years step on (year, month, day) gives the year shift of the date. That its rollover never starts from December, as the source's comment claims, is stated by `ShiftMonthsLands` |
| DateShift.AddMonths | datedelta.py:139-151 | The in-place months step, with floor `divmod` normalisation, gives the month shift of the date. That its rollover never starts from December is stated by `ShiftMonthsLands` |
| DateShift.AddToDate | datedelta.py:121-161 | `__radd__`, step by step on local variables, returns exactly `Plus(date, delta)`: the value, or the exception raised |
| DateShift.SubtractFromDate | datedelta.py:163-203 | `__rsub__`, step by step on local variables, returns exactly `Minus(date, delta)` |
| DateShift.PlusZero | datedelta.py:121-203 | Adding or subtracting the zero offset leaves every date unchanged |
| DateShift.PlusDaysOnly | datedelta.py:155-157 | An offset of days only is plain day arithmetic: it succeeds exactly when the new ordinal is in range, and moves the ordinal by exactly that many days |
| DateShift.DaysOnlyInverse | datedelta.py:155-199 | Subtracting a days-only offset undoes adding it |
| DateShift.YearIsTwelveMonths | datedelta.py:129-151 | An offset of n years gives the same result as one of 12*n months, with the same days |
| DateShift.PlusOrder | datedelta.py:121-161 | An offset with no negative field never moves a date earlier, and moves it later unless it is zero; an offset with no positive field mirrors this |
| DateShift.LeapDayPlusYear | test_datedelta.py:407 | 2020-02-29 plus one year is 2021-03-01 |
| DateShift.LeapDayPlusTwelveMonths | test_datedelta.py:411 | 2020-02-29 plus twelve months is 2021-03-01 |
| DateShift.LeapDayPlusDays | test_datedelta.py:415 | 2020-02-29 plus 365 days is 2021-02-28 |
| DateShift.MonthRollover | datedelta.py:147-151 | 2021-01-31 plus one month is 2021-03-01 |
| DateShift.YearThenDays | test_datedelta.py:418 | 2020-01-01 plus (1 year, -10 days) is 2020-12-22 |
| DateShift.MinusYearThenDays | test_datedelta.py:466 | 2021-12-31 minus (1 year, -10 days) is 2021-01-10 |
| DateShift.NotAnInverse | test_datedelta.py:407-453 | 2020-02-29 plus a year is 2021-03-01, and 2021-03-01 minus a year is 2020-03-01, so subtraction does not undo addition |
| DateShift.YearOverflow | datedelta.py:153 | 9999-12-31 plus a year raises the `replace` error for year 10000 |
| DateShift.DayOverflowAtEnd | datedelta.py:156-157 | 9999-12-31 plus a day raises "date value out of range" |
| DateShift.NegativeDayOverflowAtStart | datedelta.py:156-157 | 0001-01-01 plus minus one day raises "date value out of range" |
| DateShift.DayOverflowAtStart | datedelta.py:198-199 | 0001-01-01 minus a day raises "date value out of range" |
| DateShift.DeltaDaysOverflow | datedelta.py:157-199 | A day count of 1000000000 raises the `timedelta` overflow before any day is added, both when adding and when subtracting |
| DateShift.YearBeyondCInt | datedelta.py:153 | 2020-01-01 plus 2**31 years fails in the C `int` conversion of the year inside `replace` |
| DateShift.DaysBeyondCInt | datedelta.py:157 | 2020-01-01 plus 2**31 days fails in the C `int` conversion of the day count inside `timedelta` |
| DateShift.DaysAtCIntMinimum | datedelta.py:199 | Subtracting -2**31 days raises the `timedelta` magnitude error, while adding 2**31 days fails in the C `int` conversion |
| DateShift.DateMessage | datedelta.py:153-157 | No contract of its own: CPython's texts for the errors `replace`, `timedelta` and `date + timedelta` raise. `ExampleMessages` states them for the errors of the worked examples |
| DateShift.ExampleMessages | datedelta.py:153-157 | The errors the overflow examples raise read "year 10000 is out of range", "date value out of range", "days=1000000000; must have magnitude <= 999999999" and "Python int too large to convert to C int" |

## Left out

- Operator dispatch: returning `NotImplemented`, the `TypeError` for other operand types, and
  `isinstance` checks. Every operation takes typed arguments, so a wrong operand type cannot occur.
- `datetime.datetime` operands, which the source also accepts as dates. Only `datetime.date` is
  modelled: a year, month and day, with no time of day.
- `__rmul__`: in the source it is `__mul__` itself, so `k * delta` and `delta * k` are both
  `Mul(delta, k)`.
- Make: the constructor is modelled over real numbers, not Python floats. Rounding, infinities,
  NaN and the `TypeError` for non-numbers are not modelled. The datatype constructor `Delta` is
  the constructor on integers.
- HashKeyExact: stated about the tuple that is hashed. The hash value itself comes from the
  Python runtime and is not modelled.
- The `years`, `months` and `days` properties are the datatype's fields. Because the datatype is
  immutable, assigning to or deleting them cannot be expressed.
- AddToDate: requires a date that `datetime.date` can hold (`IsDate`), as every Python date is.
  `Plus` itself is defined for any valid calendar date.
- The library's tests with `weeks=` are not modelled: the constructor has no `weeks` argument, so
  those tests do not match the code. `WEEK` is seven days, as the code defines it.
- The readers `ParseRepr` and `ParseStr` are not part of the source. They exist only to state
  the renderings' round trips; evaluating a `repr` as Python code is not modelled beyond them.
- The `OverflowError` and `ValueError` messages of `timedelta`, `date + timedelta` and `replace`
  come from the runtime. `DateMessage` gives CPython's texts for the range checks.
- Replace: the text of the `OverflowError` for a year outside the C `int` range depends on the
  CPython version ("Python int too large to convert to C int", or "signed integer is greater
  than maximum"). `DateMessage` gives the first for every `CIntOverflow`. Which error is raised is
  modelled exactly.
- Repr, Str: the interpreter refuses to turn an integer of more than 4300 digits into text (its
  `sys.int_max_str_digits` limit, from CPython 3.11 and the matching security releases), so
  `repr` and `str` raise `ValueError` for an offset with such a field. The model's `IntToString`
  has no limit, so the round trips hold only for offsets the interpreter will format.
