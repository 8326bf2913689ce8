/** The calendar distance helpers of the rules test suite: how many whole days,
    weeks, calendar months and calendar years lie between two instants. Days
    and weeks come from the difference of the two time values; months come
    from stepping two Date objects forward one calendar month at a time. */
module TimeUtil {
  import opened Calendar
  import opened JsDate
  import opened Stepping

  const DaysInWeek: int := 7
  const MonthsInYear: int := 12
  /** Number.MAX_SAFE_INTEGER, 2^53 - 1. */
  const MaxSafeInteger: int := 9_007_199_254_740_991

  // ---------------------------------------------------------------------
  // Days and weeks

  /** Whether `(date2 - date1) / msPerDay < Number.MAX_SAFE_INTEGER` holds: a
      NaN on either side makes the comparison false. */
  predicate BelowSafeLimit(t1: Number, t2: Number) {
    t1.Finite? && t2.Finite? && t2.value - t1.value < MaxSafeInteger * MsPerDay
  }

  /** getNumberOfDays: the floor of the elapsed days, or MAX_SAFE_INTEGER when
      the quotient is not below that bound. */
  function NumberOfDays(date1: DateValue, date2: DateValue): (days: int)
    ensures days <= MaxSafeInteger
    ensures var t1, t2 := TimeValue(date1), TimeValue(date2);
      (BelowSafeLimit(t1, t2) ==>
        MsPerDay * days <= t2.value - t1.value < MsPerDay * (days + 1)) &&
      (!BelowSafeLimit(t1, t2) ==> days == MaxSafeInteger)
  {
    var t1, t2 := TimeValue(date1), TimeValue(date2);
    if BelowSafeLimit(t1, t2) then (t2.value - t1.value) / MsPerDay
    else MaxSafeInteger
  }

  /** Two time values lie at most 2 * 10^8 days apart, so the clamp is reached
      exactly when one of the dates is invalid; for two valid dates in order
      the count is never negative. */
  lemma DaysClampOnlyForInvalidDates(date1: DateValue, date2: DateValue)
    ensures NumberOfDays(date1, date2) == MaxSafeInteger <==> date1.Invalid? || date2.Invalid?
    ensures date1.Valid? && date2.Valid? ==>
      -200_000_000 <= NumberOfDays(date1, date2) <= 200_000_000
    ensures date1.Valid? && date2.Valid? && !EarlierThan(date2, date1) ==>
      NumberOfDays(date1, date2) >= 0
  {
    EarlierThanIsTimeOrder(date2, date1);
    if date1.Valid? && date2.Valid? {
      assert BelowSafeLimit(TimeValue(date1), TimeValue(date2));
    }
  }

  /** getNumberOfWeeks: the floor of the day count divided by seven. */
  function NumberOfWeeks(date1: DateValue, date2: DateValue): (weeks: int)
    ensures DaysInWeek * weeks <= NumberOfDays(date1, date2) < DaysInWeek * (weeks + 1)
  {
    NumberOfDays(date1, date2) / DaysInWeek
  }

  /** For two valid dates, at least k weeks have passed exactly when the time
      values lie at least 7k days apart ("four weeks since the last dose" is
      "28 days since the last dose"). */
  lemma WeeksAtLeast(date1: DateValue, date2: DateValue, k: int)
    requires date1.Valid? && date2.Valid?
    ensures NumberOfWeeks(date1, date2) >= k
        <==> TimeOf(date2.fields) - TimeOf(date1.fields) >= k * DaysInWeek * MsPerDay
  {
    DaysClampOnlyForInvalidDates(date1, date2);
    var diff := TimeOf(date2.fields) - TimeOf(date1.fields);
    var days := NumberOfDays(date1, date2);
    var weeks := NumberOfWeeks(date1, date2);
    if weeks >= k {
      assert days >= k * DaysInWeek;
      assert diff >= MsPerDay * days;
    } else {
      assert days < k * DaysInWeek;
      assert diff < MsPerDay * (days + 1);
    }
  }

  // ---------------------------------------------------------------------
  // Months and years

  /** `d.setMonth(d.getMonth() + 1)` always moves forward by a calendar month. */
  lemma AddOneMonthAdvances()
    ensures Advances(AddOneMonth)
  {
    forall w: DateValue
      ensures AddOneMonth(w).Valid? ==>
        w.Valid? && Before(w.fields, AddOneMonth(w).fields) &&
        MonthIndex(w.fields) < MonthIndex(AddOneMonth(w).fields)
    {
      AddOneMonthLater(w);
    }
  }

  /** The k-th monthly anchor of a date: the value after k one-month steps,
      each taken from the value before it. */
  function Anchor(v: DateValue, k: nat): DateValue {
    Iterate(AddOneMonth, v, k)
  }

  /** How many monthly anchors after date1 fall strictly before date2. */
  function WholeMonths(date1: DateValue, date2: DateValue): nat {
    AddOneMonthAdvances();
    CountBefore(AddOneMonth, date1, date2)
  }

  /** The count getNumberOfMonths returns: the anchors strictly before date2,
      plus one when the first anchor not before date2 has the same day of the
      month as date2 (whatever its month). */
  function MonthsBetween(date1: DateValue, date2: DateValue): nat {
    var n := WholeMonths(date1, date2);
    if StrictEquals(DateOfValue(Anchor(date1, n + 1)), DateOfValue(date2)) then n + 1 else n
  }

  /** getNumberOfMonths. The two anchors are fresh copies of date1 and the
      method has no modifies clause: neither argument changes. */
  method NumberOfMonths(date1: Date, date2: Date) returns (months: int)
    ensures months == MonthsBetween(date1.state, date2.state)
  {
    var numMonths := 0;
    var calendar1 := new Date.Copy(date1);
    var calendar2 := new Date.Copy(date1);
    AdvanceAnchor(calendar2, date1.state, 0);

    while EarlierThan(calendar1.state, date2.state) && EarlierThan(calendar2.state, date2.state)
      invariant calendar1 != calendar2
      invariant calendar1.state == Anchor(date1.state, numMonths)
      invariant calendar2.state == Anchor(date1.state, numMonths + 1)
      invariant numMonths <= WholeMonths(date1.state, date2.state)
      decreases WholeMonths(date1.state, date2.state) - numMonths
    {
      var c1, c2, d2 := calendar1.state, calendar2.state, date2.state;
      if EarlierThan(c1, d2) && EarlierThan(d2, c2) {
        // The early return for date2 strictly between the two anchors: the
        // loop condition already puts date2 after the upper one.
        assert false;
      } else if EarlierThan(c1, d2) && EarlierThan(c2, d2) {
        WholeMonthsCount(date1.state, d2, numMonths + 1);
        AdvanceAnchor(calendar2, date1.state, numMonths + 1);
        AdvanceAnchor(calendar1, date1.state, numMonths);
        numMonths := numMonths + 1;
      }
    }

    WholeMonthsAtExit(date1.state, date2.state, numMonths);
    if StrictEquals(calendar2.GetDate(), date2.GetDate()) {
      return numMonths + 1;
    }
    return numMonths;
  }

  /** The month step on a Date known to hold anchor k of v. */
  method AdvanceAnchor(calendar: Date, ghost v: DateValue, ghost k: nat)
    requires calendar.state == Anchor(v, k)
    modifies calendar
    ensures calendar.state == Anchor(v, k + 1)
  {
    AnchorStep(v, k);
    AdvanceOneMonth(calendar);
  }

  /** One anchor more is one more step. */
  lemma AnchorStep(v: DateValue, k: nat)
    ensures Anchor(v, k + 1) == AddOneMonth(Anchor(v, k))
  {
  }

  /** The j-th anchor (j >= 1) lies strictly before date2 exactly when j is at
      most the number of whole months. */
  lemma WholeMonthsCount(date1: DateValue, date2: DateValue, j: nat)
    requires j >= 1
    ensures j <= WholeMonths(date1, date2) <==> EarlierThan(Anchor(date1, j), date2)
  {
    AddOneMonthAdvances();
    CountBeforeBound(AddOneMonth, date1, date2, j);
  }

  /** When the loop stops at anchor n, exactly n anchors are before date2. */
  lemma WholeMonthsAtExit(date1: DateValue, date2: DateValue, n: nat)
    requires n <= WholeMonths(date1, date2)
    requires !(EarlierThan(Anchor(date1, n), date2) && EarlierThan(Anchor(date1, n + 1), date2))
    ensures WholeMonths(date1, date2) == n
  {
    WholeMonthsCount(date1, date2, n + 1);
    if n >= 1 {
      WholeMonthsCount(date1, date2, n);
    } else if Anchor(date1, 1).Valid? {
      AddOneMonthLater(date1);
      AnchorStep(date1, 0);
    }
  }

  /** `calendar.setMonth(calendar.getMonth() + 1)`, which getNumberOfMonths
      does once before its loop and twice in each round. */
  method AdvanceOneMonth(calendar: Date)
    modifies calendar
    ensures calendar.state == AddOneMonth(old(calendar.state))
  {
    AddOneMonthIsSetMonth(calendar.state);
    calendar.SetMonth(Plus(calendar.GetMonth(), 1));
  }

  /** getNumberOfYears: whole years of the month count. */
  method NumberOfYears(date1: Date, date2: Date) returns (years: int)
    ensures MonthsInYear * years <= MonthsBetween(date1.state, date2.state)
                                  < MonthsInYear * (years + 1)
  {
    var numMonths := NumberOfMonths(date1, date2);
    years := numMonths / MonthsInYear;
  }

  // ---------------------------------------------------------------------
  // What the anchors and the month count promise

  /** The loop exits with date2 at or before the upper anchor; ties do not
      count in the loop, but the day-of-month check then adds them: a date2
      that is exactly the k-th anchor (k >= 1) is k months after date1. */
  lemma MonthsBetweenAtAnchor(date1: DateValue, k: nat)
    requires k >= 1 && Anchor(date1, k).Valid?
    ensures MonthsBetween(date1, Anchor(date1, k)) == k
  {
    AddOneMonthAdvances();
    CountAtIterate(AddOneMonth, date1, k);
  }

  /** The age thresholds of the rules: an anchor k months on strictly before
      date2 guarantees a count of at least k, and a count of at least k + 1
      guarantees the k-th anchor is strictly before date2. */
  lemma MonthsBetweenThresholds(date1: DateValue, date2: DateValue, k: nat)
    requires k >= 1
    ensures EarlierThan(Anchor(date1, k), date2) ==> MonthsBetween(date1, date2) >= k
    ensures MonthsBetween(date1, date2) >= k + 1 ==> EarlierThan(Anchor(date1, k), date2)
  {
    AddOneMonthAdvances();
    CountBeforeBound(AddOneMonth, date1, date2, k);
  }

  /** The same instant twice counts as one month when the one-month step keeps
      the day of the month, and as none when the step rolls over. */
  lemma MonthsBetweenSameInstant(v: DateValue)
    requires AddOneMonth(v).Valid?
    ensures v.Valid?
    ensures var ny, nm := FollowingYear(v.fields.year, v.fields.month), FollowingMonth(v.fields.month);
      MonthsBetween(v, v) == if v.fields.date <= DaysInMonth(ny, nm) then 1 else 0
  {
    AddOneMonthLater(v);
    assert WholeMonths(v, v) == 0;
    AnchorStep(v, 0);
  }

  /** The same date and time of day k months on: the month carries into the
      year. */
  function MonthsOn(f: DateTime, k: int): DateTime {
    var s := f.month + k;
    DateTime(f.year + s / 12, s % 12, f.date, f.time)
  }

  lemma MonthsOnIndex(f: DateTime, k: int)
    requires 0 <= f.month < 12
    ensures MonthIndex(MonthsOn(f, k)) == MonthIndex(f) + k
    ensures 0 <= MonthsOn(f, k).month < 12
  {
  }

  /** From a date no later than the 28th, one step from k months on is k + 1
      months on: the date never rolls over. */
  lemma MonthsOnNext(f: DateTime, k: int)
    requires 0 <= f.month < 12 && 1 <= f.date <= 28
    ensures NextMonthFields(MonthsOn(f, k)) == MonthsOn(f, k + 1)
  {
    var s := f.month + k;
    if s % 12 == 11 {
      assert (s + 1) / 12 == s / 12 + 1 && (s + 1) % 12 == 0;
    } else {
      assert (s + 1) / 12 == s / 12 && (s + 1) % 12 == s % 12 + 1;
    }
  }

  /** From a date no later than the 28th, no step ever rolls over: the k-th
      anchor is the same date and time of day k months on, as long as that
      instant is in range, and invalid from then on. */
  lemma {:induction false} AnchorKeepsDate(v: DateValue, k: nat)
    requires v.Valid? && v.fields.date <= 28
    ensures var g := MonthsOn(v.fields, k);
      IsDate(g) && Anchor(v, k) == if InRange(g) then Valid(g) else Invalid
  {
    var f := v.fields;
    var g := MonthsOn(f, k);
    MonthsOnIndex(f, k);
    if k == 0 {
      assert f.month / 12 == 0 && f.month % 12 == f.month;
      assert g == f;
    } else {
      AnchorKeepsDate(v, k - 1);
      var p := MonthsOn(f, k - 1);
      MonthsOnIndex(f, k - 1);
      MonthsOnNext(f, k - 1);
      StepKeepsRange(Anchor(v, k - 1), p, g);
    }
  }

  /** One step from fields p, or from the invalid date that stands for p out
      of range, gives fields g, or the invalid date when g is out of range;
      p lies after the first instant, so only the last one can be passed. */
  lemma StepKeepsRange(w: DateValue, p: DateTime, g: DateTime)
    requires IsDate(p) && IsDate(g) && NextMonthFields(p) == g
    requires !Before(p, Earliest) && Before(p, g)
    requires w == if InRange(p) then Valid(p) else Invalid
    ensures AddOneMonth(w) == if InRange(g) then Valid(g) else Invalid
  {
  }

  /** Calendar-exact counting: from a date no later than the 28th, the same
      date and time of day k >= 1 months later is k months away. */
  lemma MonthsBetweenSameDateLater(v: DateValue, k: nat)
    requires v.Valid? && v.fields.date <= 28 && k >= 1
    requires InRange(MonthsOn(v.fields, k))
    ensures IsDate(MonthsOn(v.fields, k))
    ensures MonthsBetween(v, Valid(MonthsOn(v.fields, k))) == k
  {
    AnchorKeepsDate(v, k);
    MonthsBetweenAtAnchor(v, k);
  }

  // ---------------------------------------------------------------------
  // The month count the day-of-month check evidently aims at

  /** Whole calendar months from date1 to date2: the anchors j >= 1 not after
      date2. It differs from MonthsBetween only in the final check, which
      asks whether date2 is the upper anchor itself. */
  function ElapsedMonths(date1: DateValue, date2: DateValue): nat {
    var n := WholeMonths(date1, date2);
    if date2.Valid? && Anchor(date1, n + 1) == date2 then n + 1 else n
  }

  /** j >= 1 whole months have elapsed exactly when the j-th anchor is valid
      and not after date2. */
  lemma ElapsedMonthsCount(date1: DateValue, date2: DateValue, j: nat)
    requires j >= 1
    ensures j <= ElapsedMonths(date1, date2) <==>
      Anchor(date1, j).Valid? && date2.Valid? && !EarlierThan(date2, Anchor(date1, j))
  {
    AddOneMonthAdvances();
    CountNotAfter(AddOneMonth, date1, date2, j);
    var n := WholeMonths(date1, date2);
    assert Anchor(date1, n + 1) == Iterate(AddOneMonth, date1, n + 1);
    assert Anchor(date1, j) == Iterate(AddOneMonth, date1, j);
  }
}
