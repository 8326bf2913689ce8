/** Worked instances of the calendar distances: an example birth date against
    the reference date of the rules tests, and the cases where comparing only
    the day of the month gives a month count that differs from the elapsed
    calendar months. All dates are at midnight. */
module Scenarios {
  import opened Calendar
  import opened JsDate
  import opened Stepping
  import opened TimeUtil

  /** Midnight on a calendar date; the month counts from 0 (January). */
  function Midnight(year: int, month: int, date: int): (v: DateValue)
    requires WellFormed(Valid(DateTime(year, month, date, 0)))
    ensures v.Valid? && v.fields.year == year && v.fields.month == month
    ensures v.fields.date == date && v.fields.time == 0
  {
    Valid(DateTime(year, month, date, 0))
  }

  /** January 1st to February 1st of the leap year 2024 is 31 days. */
  lemma DaysAcrossJanuary()
    ensures NumberOfDays(Midnight(2024, 0, 1), Midnight(2024, 1, 1)) == 31
  {
    assert TimeOf(DateTime(2024, 1, 1, 0)) - TimeOf(DateTime(2024, 0, 1, 0)) == 31 * MsPerDay by {
      DayOfNextMonth(2024, 0, 1);
    }
  }

  /** 28 days are four weeks; 27 days are three. */
  lemma WeeksOfFebruary()
    ensures NumberOfWeeks(Midnight(2023, 1, 1), Midnight(2023, 2, 1)) == 4
    ensures NumberOfWeeks(Midnight(2023, 1, 1), Midnight(2023, 1, 28)) == 3
  {
    DayOfNextMonth(2023, 1, 1);
    assert TimeOf(DateTime(2023, 1, 28, 0)) - TimeOf(DateTime(2023, 1, 1, 0)) == 27 * MsPerDay;
  }

  /** From January 15th, 2020 to January 15th, 2024: 48 months, four years. */
  lemma FourYears()
    ensures MonthsBetween(Midnight(2020, 0, 15), Midnight(2024, 0, 15)) == 48
  {
    var v := Midnight(2020, 0, 15);
    assert MonthsOn(v.fields, 48) == DateTime(2024, 0, 15, 0);
    MonthsBetweenSameDateLater(v, 48);
  }

  /** From the example birth date February 16th, 2023 to the tests' reference
      date August 5th, 2024 is 17 months: the 17th anchor, July 16th, is
      before that day, the 18th, August 16th, is not, and the 16th is not the
      5th. */
  lemma SeventeenMonths()
    ensures MonthsBetween(Midnight(2023, 1, 16), Midnight(2024, 7, 5)) == 17
  {
    var v := Midnight(2023, 1, 16);
    var d2 := Midnight(2024, 7, 5);
    BirthdayAnchor(17, 2024, 6);
    BirthdayAnchor(18, 2024, 7);
    WholeMonthsCount(v, d2, 17);
    WholeMonthsCount(v, d2, 18);
    assert WholeMonths(v, d2) == 17;
  }

  /** The k-th anchor of February 16th, 2023 is the 16th of the month k
      months on. */
  lemma BirthdayAnchor(k: nat, year: int, month: int)
    requires 0 <= month < 12 && 12 * year + month == 12 * 2023 + 1 + k
    requires 2023 <= year <= 2100
    ensures Anchor(Midnight(2023, 1, 16), k) == Midnight(year, month, 16)
  {
    var v := Midnight(2023, 1, 16);
    AnchorKeepsDate(v, k);
    var g := MonthsOn(v.fields, k);
    MonthsOnIndex(v.fields, k);
    assert g.year == year && g.month == month;
  }

  /** The same instant twice counts one month, not none, when its date is at
      most the 28th. */
  lemma SameDayIsOneMonth()
    ensures MonthsBetween(Midnight(2024, 0, 15), Midnight(2024, 0, 15)) == 1
  {
    MonthsBetweenSameInstant(Midnight(2024, 0, 15));
  }

  /** January 31st to February 28th, 2024 counts no month: the first anchor
      rolls over to March 2nd, which is neither before February 28th nor on
      the 28th. */
  lemma EndOfJanuaryToEndOfFebruary()
    ensures AddOneMonth(Midnight(2024, 0, 31)) == Midnight(2024, 2, 2)
    ensures MonthsBetween(Midnight(2024, 0, 31), Midnight(2024, 1, 28)) == 0
  {
    var v := Midnight(2024, 0, 31);
    WholeMonthsCount(v, Midnight(2024, 1, 28), 1);
    AnchorStep(v, 0);
  }

  /** The day-of-month check as written: January 31st to February 2nd, 2024,
      two days apart, counts one month, because the rolled-over first anchor
      falls on a 2nd; no calendar month has elapsed. */
  lemma SpuriousMonthAfterRollover()
    ensures NumberOfDays(Midnight(2024, 0, 31), Midnight(2024, 1, 2)) == 2
    ensures MonthsBetween(Midnight(2024, 0, 31), Midnight(2024, 1, 2)) == 1
    ensures ElapsedMonths(Midnight(2024, 0, 31), Midnight(2024, 1, 2)) == 0
  {
    var v := Midnight(2024, 0, 31);
    var d2 := Midnight(2024, 1, 2);
    DayOfNextMonth(2024, 0, 2);
    WholeMonthsCount(v, d2, 1);
    AnchorStep(v, 0);
  }
}
