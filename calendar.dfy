/** The date arithmetic behind JavaScript's Date objects (section 21.4.1 of
    ECMA-262), read in one fixed time zone whose offset from UTC is zero.
    A time value counts milliseconds since 1970-01-01T00:00:00Z and is an
    integer or NaN; the proleptic Gregorian calendar numbers months 0..11 and
    days of the month from 1. */
module Calendar {

  /** A JavaScript number as the date code produces it: an integer or NaN. */
  datatype Number = Finite(value: int) | NaN

  const MsPerDay: int := 86_400_000
  /** Time values lie within 8.64e15 ms of the epoch; TimeClip makes the rest NaN. */
  const MaxTimeValue: int := 8_640_000_000_000_000

  /** What a Date object can hold: NaN or a time value inside the clip range. */
  predicate IsTimeValue(n: Number) {
    n.NaN? || -MaxTimeValue <= n.value <= MaxTimeValue
  }

  /** JavaScript `a + k` for an integer k. */
  function Plus(a: Number, k: int): Number {
    if a.NaN? then NaN else Finite(a.value + k)
  }

  /** JavaScript `a < b` on numbers: false as soon as either side is NaN. */
  predicate Less(a: Number, b: Number) {
    a.Finite? && b.Finite? && a.value < b.value
  }

  /** JavaScript `a === b` on numbers: NaN equals nothing, not even NaN. */
  predicate StrictEquals(a: Number, b: Number) {
    a.Finite? && b.Finite? && a.value == b.value
  }

  // ---------------------------------------------------------------------
  // Days and years

  /** Day(t) = floor(t / msPerDay); Dafny's division by a positive divisor floors. */
  function Day(t: int): int { t / MsPerDay }

  /** TimeWithinDay(t) = t modulo msPerDay, never negative. */
  function TimeWithinDay(t: int): int { t % MsPerDay }

  predicate IsLeapYear(y: int) {
    y % 4 == 0 && (y % 100 != 0 || y % 400 == 0)
  }

  function DaysInYear(y: int): int {
    if IsLeapYear(y) then 366 else 365
  }

  /** Day number of January 1st of year y, in the closed form ECMA-262 gives. */
  function DayFromYear(y: int): int {
    365 * (y - 1970) + (y - 1969) / 4 - (y - 1901) / 100 + (y - 1601) / 400
  }

  /** Consecutive New Year's days lie one year length apart. */
  lemma DayFromYearStep(y: int)
    ensures DayFromYear(y + 1) == DayFromYear(y) + DaysInYear(y)
  {
    LeapDayStep(y, 4, 1969);
    LeapDayStep(y, 100, 1901);
    LeapDayStep(y, 400, 1601);
    MultipleOfDivisor(y);
  }

  /** A multiple of 400 is one of 100, and a multiple of 100 one of 4. */
  lemma MultipleOfDivisor(y: int)
    ensures y % 400 == 0 ==> y % 100 == 0
    ensures y % 100 == 0 ==> y % 4 == 0
  {
    if y % 400 == 0 {
      var e := 4 * (y / 400) - y / 100;
      assert y % 100 == 100 * e;
    }
    if y % 100 == 0 {
      var e := 25 * (y / 100) - y / 4;
      assert y % 4 == 4 * e;
    }
  }

  /** The count (y - base) / q of the closed form goes up by one from y to
      y + 1 exactly when y is a multiple of q (base - 1 is one). */
  lemma LeapDayStep(y: int, q: int, base: int)
    requires (q == 4 && base == 1969) || (q == 100 && base == 1901) || (q == 400 && base == 1601)
    ensures (y + 1 - base) / q - (y - base) / q == if y % q == 0 then 1 else 0
  {
    if q == 4 {
      assert (y + 1 - 1969) / 4 - (y - 1969) / 4 == if y % 4 == 0 then 1 else 0;
    } else if q == 100 {
      assert (y + 1 - 1901) / 100 - (y - 1901) / 100 == if y % 100 == 0 then 1 else 0;
    } else {
      assert (y + 1 - 1601) / 400 - (y - 1601) / 400 == if y % 400 == 0 then 1 else 0;
    }
  }

  /** Every 400 years the calendar repeats, 146097 days later. */
  lemma DayFromYearCycle(q: int)
    ensures DayFromYear(1970 + 400 * q) == 146097 * q
  {
    assert (1970 + 400 * q - 1969) / 4 == 100 * q;
    assert (1970 + 400 * q - 1901) / 100 == 4 * q;
    assert (1970 + 400 * q - 1601) / 400 == q;
  }

  /** New Year's day numbers grow with the year. */
  lemma {:induction false} DayFromYearMonotone(a: int, b: int)
    requires a < b
    ensures DayFromYear(a + 1) <= DayFromYear(b)
    decreases b - a
  {
    DayFromYearStep(a);
    if a + 1 < b {
      DayFromYearMonotone(a + 1, b);
      DayFromYearStep(a + 1);
    }
  }

  /** The year in which the day r days after January 1st of year y falls. */
  function YearAfter(y: int, r: nat): (year: int)
    ensures DayFromYear(year) <= DayFromYear(y) + r < DayFromYear(year + 1)
    decreases r
  {
    DayFromYearStep(y);
    if r < DaysInYear(y) then y else YearAfter(y + 1, r - DaysInYear(y))
  }

  /** YearFromTime on day numbers: the largest year whose January 1st is not
      after day n. It first skips whole 400-year cycles from 1970. */
  function YearFromDay(n: int): (year: int)
    ensures DayFromYear(year) <= n < DayFromYear(year + 1)
  {
    var q := n / 146097;
    DayFromYearCycle(q);
    YearAfter(1970 + 400 * q, n - 146097 * q)
  }

  /** Only one year brackets a given day. */
  lemma YearFromDayUnique(n: int, y: int)
    requires DayFromYear(y) <= n < DayFromYear(y + 1)
    ensures YearFromDay(n) == y
  {
    var year := YearFromDay(n);
    if year < y {
      DayFromYearMonotone(year, y);
    } else if year > y {
      DayFromYearMonotone(y, year);
    }
  }

  // ---------------------------------------------------------------------
  // Months

  /** Days of year y before the first day of month m (m == 12 gives the year length). */
  function DaysBeforeMonth(y: int, m: int): int
    requires 0 <= m <= 12
  {
    (if m >= 2 && IsLeapYear(y) then 1 else 0) +
    (if m == 0 then 0 else if m == 1 then 31 else if m == 2 then 59
     else if m == 3 then 90 else if m == 4 then 120 else if m == 5 then 151
     else if m == 6 then 181 else if m == 7 then 212 else if m == 8 then 243
     else if m == 9 then 273 else if m == 10 then 304 else if m == 11 then 334
     else 365)
  }

  function DaysInMonth(y: int, m: int): (days: int)
    requires 0 <= m < 12
    ensures 28 <= days <= 31
    ensures days == 28 <==> m == 1 && !IsLeapYear(y)
  {
    if m == 1 then (if IsLeapYear(y) then 29 else 28)
    else if m == 3 || m == 5 || m == 8 || m == 10 then 30
    else 31
  }

  /** Month m of year y runs from day DaysBeforeMonth(y, m) of the year up to
      the first day of month m + 1. */
  lemma DaysInMonthSpan(y: int, m: int)
    requires 0 <= m < 12
    ensures DaysBeforeMonth(y, m + 1) == DaysBeforeMonth(y, m) + DaysInMonth(y, m)
  {
  }

  lemma {:induction false} DaysBeforeMonthMonotone(y: int, a: int, b: int)
    requires 0 <= a <= b <= 12
    ensures DaysBeforeMonth(y, a) <= DaysBeforeMonth(y, b)
    decreases b - a
  {
    if a < b {
      DaysBeforeMonthMonotone(y, a + 1, b);
      DaysInMonthSpan(y, a);
    }
  }

  /** MonthFromTime within a year: the month, searched upwards from m, whose
      days contain day dwy of year y. */
  function MonthFrom(y: int, dwy: int, m: int): (month: int)
    requires 0 <= m < 12 && DaysBeforeMonth(y, m) <= dwy < DaysInYear(y)
    ensures m <= month < 12
    ensures DaysBeforeMonth(y, month) <= dwy < DaysBeforeMonth(y, month + 1)
    decreases 12 - m
  {
    if dwy < DaysBeforeMonth(y, m + 1) then m else MonthFrom(y, dwy, m + 1)
  }

  /** Only one month brackets a given day of the year. */
  lemma MonthFromUnique(y: int, dwy: int, m: int)
    requires 0 <= m < 12 && DaysBeforeMonth(y, m) <= dwy < DaysBeforeMonth(y, m + 1)
    ensures MonthFrom(y, dwy, 0) == m
  {
    var month := MonthFrom(y, dwy, 0);
    if month < m {
      DaysBeforeMonthMonotone(y, month + 1, m);
    } else if month > m {
      DaysBeforeMonthMonotone(y, m + 1, month);
    }
  }

  // ---------------------------------------------------------------------
  // Calendar fields of a day number

  function DayWithinYear(n: int): (dwy: int)
    ensures 0 <= dwy < DaysInYear(YearFromDay(n))
  {
    DayFromYearStep(YearFromDay(n));
    n - DayFromYear(YearFromDay(n))
  }

  function MonthOfDay(n: int): (month: int)
    ensures 0 <= month < 12
    ensures DaysBeforeMonth(YearFromDay(n), month) <= DayWithinYear(n)
                                                 < DaysBeforeMonth(YearFromDay(n), month + 1)
  {
    MonthFrom(YearFromDay(n), DayWithinYear(n), 0)
  }

  function DateOfDay(n: int): (date: int)
    ensures 1 <= date <= DaysInMonth(YearFromDay(n), MonthOfDay(n))
  {
    DaysInMonthSpan(YearFromDay(n), MonthOfDay(n));
    DayWithinYear(n) - DaysBeforeMonth(YearFromDay(n), MonthOfDay(n)) + 1
  }

  /** The day number of date d of month m of year y, for a date that exists. */
  function DayOf(y: int, m: int, d: int): int
    requires 0 <= m < 12
  {
    DayFromYear(y) + DaysBeforeMonth(y, m) + d - 1
  }

  /** Reading the fields back from a day built out of a real date gives that date. */
  lemma DayOfFields(y: int, m: int, d: int)
    requires 0 <= m < 12 && 1 <= d <= DaysInMonth(y, m)
    ensures YearFromDay(DayOf(y, m, d)) == y
    ensures MonthOfDay(DayOf(y, m, d)) == m
    ensures DateOfDay(DayOf(y, m, d)) == d
  {
    var n := DayOf(y, m, d);
    DaysBeforeMonthMonotone(y, m + 1, 12);
    DayFromYearStep(y);
    YearFromDayUnique(n, y);
    MonthFromUnique(y, n - DayFromYear(y), m);
  }

  // ---------------------------------------------------------------------
  // Calendar fields of a time value

  function YearFromTime(t: int): int { YearFromDay(Day(t)) }
  function MonthFromTime(t: int): int { MonthOfDay(Day(t)) }
  function DateFromTime(t: int): int { DateOfDay(Day(t)) }

  /** MakeDay(year, month, date): month may lie outside 0..11 and carries into
      the year; date may exceed the month and runs on into the next ones. */
  function MakeDay(year: int, month: int, date: int): int {
    var ym := year + month / 12;
    var mn := month % 12;
    DayFromYear(ym) + DaysBeforeMonth(ym, mn) + date - 1
  }

  function MakeDate(day: int, time: int): int {
    day * MsPerDay + time
  }

  /** TimeClip: values beyond 8.64e15 ms from the epoch become NaN. */
  function TimeClip(x: int): (r: Number)
    ensures IsTimeValue(r)
    ensures r.Finite? <==> -MaxTimeValue <= x <= MaxTimeValue
    ensures r.Finite? ==> r.value == x
  {
    if x < -MaxTimeValue || x > MaxTimeValue then NaN else Finite(x)
  }

  /** A time value built from a real date and a time of day reads back as
      that date and time of day. */
  lemma TimeFields(y: int, m: int, d: int, time: int)
    requires 0 <= m < 12 && 1 <= d <= DaysInMonth(y, m) && 0 <= time < MsPerDay
    ensures var t := MakeDate(MakeDay(y, m, d), time);
      YearFromTime(t) == y && MonthFromTime(t) == m && DateFromTime(t) == d &&
      TimeWithinDay(t) == time
  {
    var n := MakeDay(y, m, d);
    assert n == DayOf(y, m, d);
    assert Day(MakeDate(n, time)) == n;
    DayOfFields(y, m, d);
  }

  /** Every day number is recomposed exactly from its own fields. */
  lemma DayRoundTrip(n: int)
    ensures DayOf(YearFromDay(n), MonthOfDay(n), DateOfDay(n)) == n
  {
  }

  /** Every time value is recomposed exactly from its own fields. */
  lemma TimeRoundTrip(t: int)
    ensures MakeDate(MakeDay(YearFromTime(t), MonthFromTime(t), DateFromTime(t)),
                     TimeWithinDay(t)) == t
  {
    var n := Day(t);
    var y, m, d := YearFromTime(t), MonthFromTime(t), DateFromTime(t);
    assert MakeDay(y, m, d) == n by {
      assert m / 12 == 0 && m % 12 == m;
      assert MakeDay(y, m, d) == DayOf(y, m, d);
      DayRoundTrip(n);
    }
    assert n * MsPerDay + t % MsPerDay == t;
  }

  // ---------------------------------------------------------------------
  // The Date methods the month count uses, on time values

  /** Date.prototype.getMonth. */
  function MonthOf(t: Number): (month: Number)
    ensures month.Finite? <==> t.Finite?
    ensures month.Finite? ==> 0 <= month.value < 12
  {
    if t.NaN? then NaN else Finite(MonthFromTime(t.value))
  }

  /** Date.prototype.getDate. */
  function DateOf(t: Number): (date: Number)
    ensures date.Finite? <==> t.Finite?
    ensures date.Finite? ==> 1 <= date.value <= 31
  {
    if t.NaN? then NaN else Finite(DateFromTime(t.value))
  }

  /** Date.prototype.setMonth(month) without its optional date argument: keep
      the year, the date and the time of day, replace the month, normalise
      through MakeDay and clip. */
  function WithMonth(t: Number, month: Number): Number {
    if t.NaN? || month.NaN? then NaN
    else
      TimeClip(MakeDate(MakeDay(YearFromTime(t.value), month.value, DateFromTime(t.value)),
                        TimeWithinDay(t.value)))
  }
}
