# Calendar distances of the rules test harness

`test/timeUtil.js` holds the calendar distance helpers that the clinical rules tests use. For example, a patient's age in months decides which branch of a rule applies ("12 to 47 months old"). The helpers answer how many whole days, weeks, calendar months and calendar years lie between two JavaScript `Date` objects:

- `getNumberOfDays` divides the difference of the two time values by the length of a day. It floors the result and clamps it to `Number.MAX_SAFE_INTEGER`.
- `getNumberOfWeeks` floors the day count divided by `DAYS_IN_WEEK` (7).
- `getNumberOfMonths` copies the first date twice and moves the second copy one calendar month on with `setMonth(getMonth() + 1)`. It then walks both copies forward a month at a time while the second date lies after both. It counts the rounds and adds one more when the upper copy has the same day of the month as the second date.
- `getNumberOfYears` floors the month count divided by `MONTHS_IN_YEAR` (12).

The project has five modules:

- `Calendar` (`calendar.dfy`) holds the date arithmetic of ECMA-262: the day numbers, years, months, dates, `MakeDay`, `MakeDate` and `TimeClip` of section 21.4.1, and `Date.prototype.setMonth` of section 21.4.4 on a time value. It uses one fixed time zone with offset zero. It proves that a time value and its calendar fields determine each other.
- `JsDate` (`js_date.dfy`) models a `Date` object. Its state is a value that is either a valid date (calendar fields within the range of time values) or the invalid date. The class `Date` has the copy constructor, `getMonth`, `getDate` and `setMonth`. The lemmas show three things:
  - the fields and the time value agree;
  - `<` on two dates is the order of their time values;
  - `setMonth` on the fields is ECMA-262's `setMonth`.

  The one-month step `AddOneMonth` is proved to move a valid date strictly forward, by one or two calendar months.
- `Stepping` (`stepping.dfy`) counts the steps from one date that stay strictly before another. It works for any step that moves dates forward, and proves when the j-th step is counted.
- `TimeUtil` (`time_util.dfy`) models the helpers. The days and weeks counts are functions. The months and years counts are methods over `Date` objects. The months method follows the loop of the source and is proved equal to the function `MonthsBetween`. The years method is proved to return the floor of `MonthsBetween` divided by 12. `MonthsBetween` counts the monthly anchors of date1 (the dates reached after k one-month steps) strictly before date2, plus the day-of-month adjustment.
- `Scenarios` (`scenarios.dfy`) proves the counts for concrete dates. One is an example birth date, 2023-02-16, checked against the tests' reference date 2024-08-05 (`test/MMR_Positive.test.js:29`) and the month bounds the tests compare ages with: more than 0 and less than 12 (`test/MMR_Positive.test.js:71-74`), more than 12 and less than 48 (`test/MMR_Positive.test.js:180-183`).

Two consequences of the code's day-of-month check are worth knowing:

- Two equal dates count 1 month when their day of the month exists in the following month (`TimeUtil.MonthsBetweenSameInstant`, `Scenarios.SameDayIsOneMonth`). They count 0 when the step rolls over.
- 2024-01-31 to 2024-02-28 counts 0 months, because the first anchor rolls over to March 2nd (`Scenarios.EndOfJanuaryToEndOfFebruary`).

## Model

| member | source | states |
|---|---|---|
| TimeUtil.NumberOfDays | test/timeUtil.js:20-23 | If the time value difference is below MAX_SAFE_INTEGER days, the result is the floor of the elapsed days: `86400000 * days <= t2 - t1 < 86400000 * (days + 1)`. Otherwise, including when either time value is NaN, it is MAX_SAFE_INTEGER. It is never above MAX_SAFE_INTEGER. |
| TimeUtil.DaysClampOnlyForInvalidDates | test/timeUtil.js:21-22 | The clamp to MAX_SAFE_INTEGER happens exactly when one of the dates is invalid. For valid dates the count lies within ±2·10^8 days, and it is not negative when date2 is not before date1. |
| TimeUtil.NumberOfWeeks | test/timeUtil.js:32-34 | `7 * weeks <= days < 7 * (weeks + 1)` for the day count of the same dates. |
| TimeUtil.WeeksAtLeast | test/timeUtil.js:32-34 | For valid dates, at least k weeks exactly when the time values lie at least 7k days apart. |
| TimeUtil.NumberOfMonths | test/timeUtil.js:43-64 | The loop's result equals `MonthsBetween` of the two dates: the number of anchors strictly before date2, plus one when the first anchor not before date2 has date2's day of the month. The unreachable early return inside the loop is proved dead. The arguments are not modified. |
| TimeUtil.WholeMonths | test/timeUtil.js:49-57 | The number of rounds the loop makes: how many anchors of date1 (j >= 1) lie strictly before date2. It is a definition without a contract of its own; `WholeMonthsCount` characterises it. |
| TimeUtil.MonthsBetween | test/timeUtil.js:43-64 | The value getNumberOfMonths returns: the rounds of the loop, plus one when the upper anchor at exit has date2's day of the month (NaN matches nothing). It is a definition; the lemmas below state its properties. |
| TimeUtil.ElapsedMonths | test/timeUtil.js:59-61 | The corrected count: the rounds of the loop, plus one only when date2 is the upper anchor itself. It is a definition; `ElapsedMonthsCount` characterises it. |
| JsDate.AddOneMonth | test/timeUtil.js:47 | The one-month step `d.setMonth(d.getMonth() + 1)` on a Date's state. It is the invalid date for an invalid date, otherwise the next-month fields, and the invalid date when those leave the range. `AddOneMonthIsSetMonth` and `AddOneMonthLater` state its properties. |
| JsDate.EarlierThan | test/timeUtil.js:49-50 | `a < b` (also written `b > a`) on two Dates: both valid and the first earlier. `EarlierThanIsTimeOrder` ties it to `<` on time values. |
| JsDate.Date.GetMonth | test/timeUtil.js:47 | `getMonth()`: the month 0..11 of the object's date, or NaN for an invalid date. `GettersAgree` ties it to ECMA-262. |
| JsDate.Date.GetDate | test/timeUtil.js:59 | `getDate()`: the day of the month of the object's date, or NaN for an invalid date. `GettersAgree` ties it to ECMA-262. |
| Calendar.WithMonth | test/timeUtil.js:47 | ECMA-262's `setMonth(month)` on a time value: NaN in gives NaN out; otherwise the year, date and time of day are kept, the month is replaced and normalised through MakeDay, and the result is clipped. |
| TimeUtil.AdvanceOneMonth | test/timeUtil.js:47 | `calendar.setMonth(calendar.getMonth() + 1)` replaces the state with the one-month step of the old state and changes nothing else. |
| TimeUtil.AdvanceAnchor | test/timeUtil.js:54-55 | A copy that holds anchor k of date1 holds anchor k + 1 after the step. |
| TimeUtil.AddOneMonthAdvances | test/timeUtil.js:47 | Every step that yields a valid date starts from a valid date and ends strictly later, in a later calendar month. |
| TimeUtil.WholeMonthsCount | test/timeUtil.js:49-57 | For j >= 1: j is at most the number of whole months exactly when anchor j is strictly before date2. |
| TimeUtil.WholeMonthsAtExit | test/timeUtil.js:49 | When the loop condition fails at round n, the number of whole months is exactly n. |
| TimeUtil.NumberOfYears | test/timeUtil.js:73-76 | `12 * years <= MonthsBetween < 12 * (years + 1)` for the month count of the same dates. |
| TimeUtil.MonthsBetweenAtAnchor | test/timeUtil.js:49-63 | A date2 that is exactly anchor k (k >= 1) of date1 counts k months. The loop stops one short, and the day-of-month check adds the last one. |
| TimeUtil.MonthsBetweenThresholds | test/timeUtil.js:49-63 | If anchor k is strictly before date2, the count is at least k. A count of at least k + 1 means anchor k is strictly before date2. |
| TimeUtil.MonthsBetweenSameInstant | test/timeUtil.js:43-63 | The same instant twice counts 1 when its day of the month exists in the following month, and 0 when the step rolls over. |
| TimeUtil.MonthsOnNext | test/timeUtil.js:54-55 | From a date no later than the 28th, one step from k months on is k + 1 months on. |
| TimeUtil.AnchorKeepsDate | test/timeUtil.js:54-55 | From a date no later than the 28th, anchor k is the same date and time of day k months on while that instant is in range, and the invalid date after that. |
| TimeUtil.StepKeepsRange | test/timeUtil.js:54-55 | Stepping from a date, or from the invalid date that stands for it out of range, gives the next date, or the invalid date once the range is passed. |
| TimeUtil.MonthsBetweenSameDateLater | test/timeUtil.js:43-63 | From a date no later than the 28th, the same date and time of day k >= 1 months later (within range) counts exactly k months. |
| TimeUtil.ElapsedMonthsCount | test/timeUtil.js:59-61 | Corrected count: j >= 1 months have elapsed exactly when anchor j is valid and not after date2. |
| Stepping.IterateShift | test/timeUtil.js:54-55 | Taking k steps from the first step is taking k + 1 steps from the start. |
| Stepping.IterateLater | test/timeUtil.js:49-57 | For a forward step: while anchor j is valid, every earlier anchor i is valid, strictly earlier, and at least j - i calendar months earlier. |
| Stepping.CountBeforeBound | test/timeUtil.js:49-57 | For j >= 1: j is at most the count of anchors before date2 exactly when anchor j is strictly before date2. |
| Stepping.CountAtIterate | test/timeUtil.js:49-57 | Counting up to anchor k itself gives k - 1. |
| Stepping.CountNotAfter | test/timeUtil.js:49-61 | The anchors not after date2 are the n anchors before it, plus the next one exactly when it is date2 itself. |
| JsDate.Date.Copy | test/timeUtil.js:45-46 | `new Date(date1)` holds the same instant as date1. |
| JsDate.Date.SetMonth | test/timeUtil.js:47 | `setMonth(month)` gives the object the state `SetMonthOfValue(old state, month)` and modifies only that object. |
| JsDate.SetMonthAgrees | test/timeUtil.js:47 | setMonth on the fields yields ECMA-262's setMonth on the time value: the month is replaced, normalised through MakeDay, and the result clipped. |
| JsDate.WithMonthOfFields | test/timeUtil.js:47 | ECMA-262's setMonth on the time value of valid fields is the clipped MakeDate of MakeDay(year, month, date). |
| JsDate.MonthSetDay | test/timeUtil.js:47 | The fields after setMonth have the time value MakeDay and MakeDate compute, including the rollover into the following month. |
| JsDate.MonthSet | test/timeUtil.js:47 | The fields after setMonth are again a real calendar date. |
| JsDate.AddOneMonthIsSetMonth | test/timeUtil.js:47 | The one-month step is `setMonth(getMonth() + 1)`, NaN and the December carry into the next year included. |
| JsDate.AddOneMonthLater | test/timeUtil.js:47 | A valid result of the step comes from a valid date. It is strictly later and one or two months on. It keeps the time of day and keeps the date, unless the following month is shorter, in which case the date is what runs over. |
| JsDate.AddOneMonthAdvance | test/timeUtil.js:47 | The step moves the time value on by exactly the length of the starting month, clipped. |
| JsDate.NextMonthFieldsIsDate | test/timeUtil.js:47 | The fields one month on are a real calendar date. |
| JsDate.DayOfNextMonth | test/timeUtil.js:47 | The same date in the following month lies one month's length later. |
| JsDate.EarlierThanIsTimeOrder | test/timeUtil.js:49-52 | `a < b` on two Dates holds exactly when both time values are numbers and the first is smaller. |
| JsDate.GettersAgree | test/timeUtil.js:59 | getMonth and getDate read the month and date that ECMA-262 reads off the time value, and NaN for an invalid date. |
| JsDate.TimeValue | test/timeUtil.js:21 | The time value of a Date lies within the clip range, and it is a number exactly when the date is valid. |
| JsDate.FieldsOf | test/timeUtil.js:21 | The fields read off a time value are a real date whose time value is that time value. |
| JsDate.FieldsRoundTrip | test/timeUtil.js:21 | From fields to time value and back gives the same Date state. |
| JsDate.TimeValueRoundTrip | test/timeUtil.js:21 | From time value to fields and back gives the same time value. |
| JsDate.TimeOfOrder | test/timeUtil.js:49-52 | Field order is time value order, in both directions. |
| JsDate.TimeOfMonotone | test/timeUtil.js:49-52 | Later fields have a larger time value. |
| JsDate.InRangeIsTimeRange | test/timeUtil.js:47 | The field bounds are exactly the ±8.64·10^15 ms bounds of TimeClip. |
| JsDate.TimeOfFields | test/timeUtil.js:59 | Year, month, date and time of day read off the time value of valid fields are those fields. |
| JsDate.DayOfWithinYear | test/timeUtil.js:49-52 | A real date's day number lies within its year. |
| Calendar.TimeRoundTrip | test/timeUtil.js:21 | Every time value is rebuilt exactly from its own year, month, date and time of day. |
| Calendar.TimeFields | test/timeUtil.js:59 | A time value built from a real date and a time of day reads back as that date and time of day. |
| Calendar.DayRoundTrip | test/timeUtil.js:21 | Every day number is rebuilt exactly from its own fields. |
| Calendar.DayOfFields | test/timeUtil.js:59 | The year, month and date read off the day number of a real date are that date. |
| Calendar.YearFromDay | test/timeUtil.js:59 | The year of a day number is the one whose January 1st is not after the day and whose next January 1st is after it. |
| Calendar.YearFromDayUnique | test/timeUtil.js:59 | Only one year brackets a given day. |
| Calendar.YearAfter | test/timeUtil.js:59 | The year reached r days after a January 1st brackets that day. |
| Calendar.DayFromYearStep | test/timeUtil.js:47 | January 1st of the next year is one year length later, with leap years every 4, not every 100 and again every 400 years. |
| Calendar.DayFromYearCycle | test/timeUtil.js:47 | Every 400 years the calendar repeats, 146097 days later. |
| Calendar.DayFromYearMonotone | test/timeUtil.js:49-52 | New Year's day numbers grow with the year. |
| Calendar.MonthFrom | test/timeUtil.js:59 | The month found for a day of the year is the one whose days contain it. |
| Calendar.MonthFromUnique | test/timeUtil.js:59 | Only one month brackets a given day of the year. |
| Calendar.DayWithinYear | test/timeUtil.js:59 | The day within the year lies between 0 and the year length. |
| Calendar.MonthOfDay | test/timeUtil.js:59 | The month of a day number lies in 0..11, and its days contain that day. |
| Calendar.DateOfDay | test/timeUtil.js:59 | The date of a day number lies between 1 and the length of its month. |
| Calendar.DaysInMonth | test/timeUtil.js:47 | Month lengths are 28 to 31 days, and 28 exactly for February of a common year. |
| Calendar.DaysInMonthSpan | test/timeUtil.js:47 | A month's days run from its first day to the first day of the next month. |
| Calendar.DaysBeforeMonthMonotone | test/timeUtil.js:59 | Later months start later in the year. |
| Calendar.TimeClip | test/timeUtil.js:47 | The result is a number exactly when the input lies within ±8.64·10^15 ms, and then it is the input. |
| Calendar.MonthOf | test/timeUtil.js:47 | getMonth gives NaN exactly for NaN and otherwise a month in 0..11. |
| Calendar.DateOf | test/timeUtil.js:59 | getDate gives NaN exactly for NaN and otherwise a date in 1..31. |
| Scenarios.Midnight | test/MMR_Positive.test.js:29 | A date at midnight holds exactly the given year, month and date. |
| Scenarios.DaysAcrossJanuary | test/timeUtil.js:20-23 | From 2024-01-01 to 2024-02-01 is 31 days. |
| Scenarios.WeeksOfFebruary | test/timeUtil.js:32-34 | 28 days are 4 weeks; 27 days are 3. |
| Scenarios.FourYears | test/timeUtil.js:43-64 | From 2020-01-15 to 2024-01-15 is 48 months. |
| Scenarios.SeventeenMonths | test/MMR_Positive.test.js:172-183 | From the example birth date 2023-02-16 to the tests' reference date 2024-08-05 is 17 months, more than 12 and less than 48, the bounds the tests compare ages with. |
| Scenarios.BirthdayAnchor | test/timeUtil.js:54-55 | Anchor k of 2023-02-16 is the 16th of the month k months later. |
| Scenarios.SameDayIsOneMonth | test/timeUtil.js:59-61 | 2024-01-15 to itself counts 1 month. |
| Scenarios.EndOfJanuaryToEndOfFebruary | test/timeUtil.js:47-61 | The step from 2024-01-31 lands on 2024-03-02, and 2024-01-31 to 2024-02-28 counts 0 months. |
| Scenarios.SpuriousMonthAfterRollover | test/timeUtil.js:59-61 | 2024-01-31 to 2024-02-02 is 2 days. As written it counts 1 month; the elapsed count is 0. |

## Left out

- getCurrentTime (`test/timeUtil.js:9-11`): it reads the system clock. The model takes every date as an input.
- TimeUtil.NumberOfDays: the source divides in double-precision floating point and then floors. The model floors the exact integer quotient. The two agree except where a quotient above about 2^26 days (about 180000 years) rounds up to the next integer.
- Time zones: `getMonth`, `getDate` and `setMonth` work in local time. The model reads them in one fixed zone with offset zero, so changes of offset (daylight saving time) are not modelled.
- JsDate.Date.SetMonth: the optional second argument (a date) of setMonth is not modelled, because the source never passes it.
- Date constructors other than the copy `new Date(date)` are not modelled: parsing date strings, `new Date()` and numeric arguments. Dates enter the model as calendar fields or time values.
- Arguments that are not Date objects (numbers or strings passed to the helpers) are not modelled.
- Module exports: `getNumberOfYears` is not exported (`test/timeUtil.js:83`). It is modelled anyway.
- TimeUtil.NumberOfMonths: the model keeps the source's behaviour, including the day-of-month check listed under Findings. The corrected count `ElapsedMonths` is stated beside it, not used by it.
- The remaining files of the repository (the test runner, the fixture loader and the build scripts) are not part of this model.

## Findings

| source | as written | input that shows it | evidently intended | confidence | as-written member | corrected member |
|---|---|---|---|---|---|---|
| test/timeUtil.js:59-61 | After the loop, one month is added when the upper anchor has the same day of the month as date2, whatever its month. | date1 = 2024-01-31, date2 = 2024-02-02, both at midnight. The first anchor rolls over to 2024-03-02, a 2nd, so the count is 1 although only 2 days have passed. | Add the month only when date2 is the upper anchor itself, so the count is the number of anchors not after date2 (0 here). | not executed; the model proves the count of 1 | TimeUtil.MonthsBetween, Scenarios.SpuriousMonthAfterRollover | TimeUtil.ElapsedMonths, TimeUtil.ElapsedMonthsCount |
