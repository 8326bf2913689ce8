/** JavaScript's Date objects as the month count uses them. A Date holds one
    instant or is an invalid date. The model keeps the instant's calendar
    fields in the fixed zone. The lemmas below show that these fields and the
    time value of ECMA-262 determine each other, that their order is the order
    of time values, and that setMonth on the fields is ECMA-262's setMonth. */
module JsDate {
  import opened Calendar

  /** The calendar fields of an instant: year, month 0..11, date from 1 and the
      milliseconds since midnight. */
  datatype DateTime = DateTime(year: int, month: int, date: int, time: int)

  /** A real calendar date with a time of day. */
  predicate IsDate(f: DateTime) {
    0 <= f.month < 12 && 1 <= f.date <= DaysInMonth(f.year, f.month) && 0 <= f.time < MsPerDay
  }

  /** Chronological order: field by field, the year first. */
  predicate Before(a: DateTime, b: DateTime) {
    a.year < b.year ||
    (a.year == b.year && (a.month < b.month ||
    (a.month == b.month && (a.date < b.date ||
    (a.date == b.date && a.time < b.time)))))
  }

  /** The first and the last instant a Date can hold, -8.64e15 and 8.64e15 ms. */
  const Earliest: DateTime := DateTime(-271821, 3, 20, 0)
  const Latest: DateTime := DateTime(275760, 8, 13, 0)

  predicate InRange(f: DateTime) {
    !Before(f, Earliest) && !Before(Latest, f)
  }

  datatype DateState = Valid(fields: DateTime) | Invalid

  predicate WellFormed(s: DateState) {
    s.Valid? ==> IsDate(s.fields) && InRange(s.fields)
  }

  /** What a Date object holds: an instant within range, or the invalid date. */
  type DateValue = s: DateState | WellFormed(s) witness Invalid

  /** Months counted from year 0, to measure progress month by month. */
  function MonthIndex(f: DateTime): int {
    12 * f.year + f.month
  }

  // ---------------------------------------------------------------------
  // Fields and time values

  /** The time value of an instant. */
  function TimeOf(f: DateTime): int
    requires 0 <= f.month < 12
  {
    MakeDate(DayOf(f.year, f.month, f.date), f.time)
  }

  lemma MakeDateMonotone(d1: int, t1: int, d2: int, t2: int)
    requires d1 < d2 && 0 <= t1 < MsPerDay && 0 <= t2 < MsPerDay
    ensures MakeDate(d1, t1) < MakeDate(d2, t2)
  {
    assert MakeDate(d2, t2) >= MakeDate(d1 + 1, 0) by {
      assert d2 * MsPerDay >= (d1 + 1) * MsPerDay;
    }
  }

  /** A date that exists lies inside its year. */
  lemma DayOfWithinYear(y: int, m: int, d: int)
    requires 0 <= m < 12 && 1 <= d <= DaysInMonth(y, m)
    ensures DayFromYear(y) <= DayOf(y, m, d) < DayFromYear(y + 1)
  {
    DaysBeforeMonthMonotone(y, m + 1, 12);
    DayFromYearStep(y);
  }

  /** Later fields mean a later time value. */
  lemma TimeOfMonotone(a: DateTime, b: DateTime)
    requires IsDate(a) && IsDate(b) && Before(a, b)
    ensures TimeOf(a) < TimeOf(b)
  {
    var da, db := DayOf(a.year, a.month, a.date), DayOf(b.year, b.month, b.date);
    if a.year < b.year {
      DayOfWithinYear(a.year, a.month, a.date);
      DayOfWithinYear(b.year, b.month, b.date);
      DayFromYearMonotone(a.year, b.year);
      MakeDateMonotone(da, a.time, db, b.time);
    } else if a.month < b.month {
      DaysBeforeMonthMonotone(a.year, a.month + 1, b.month);
      MakeDateMonotone(da, a.time, db, b.time);
    } else if a.date < b.date {
      MakeDateMonotone(da, a.time, db, b.time);
    }
  }

  /** The field order is the order of time values. */
  lemma TimeOfOrder(a: DateTime, b: DateTime)
    requires IsDate(a) && IsDate(b)
    ensures Before(a, b) <==> TimeOf(a) < TimeOf(b)
  {
    if Before(a, b) {
      TimeOfMonotone(a, b);
    } else if a != b {
      TimeOfMonotone(b, a);
    }
  }

  /** The field bounds are the time value bounds of TimeClip. */
  lemma InRangeIsTimeRange(f: DateTime)
    requires IsDate(f)
    ensures InRange(f) <==> -MaxTimeValue <= TimeOf(f) <= MaxTimeValue
  {
    assert TimeOf(Earliest) == -MaxTimeValue;
    assert TimeOf(Latest) == MaxTimeValue;
    TimeOfOrder(f, Earliest);
    TimeOfOrder(Latest, f);
  }

  /** The fields that ECMA-262 reads off a time value. */
  function FieldsOf(t: int): (f: DateTime)
    ensures IsDate(f) && TimeOf(f) == t
  {
    var f := DateTime(YearFromTime(t), MonthFromTime(t), DateFromTime(t), TimeWithinDay(t));
    TimeRoundTrip(t);
    assert MakeDay(f.year, f.month, f.date) == DayOf(f.year, f.month, f.date);
    f
  }

  /** The object's time value, [[DateValue]] in ECMA-262. */
  function TimeValue(v: DateValue): (t: Number)
    ensures IsTimeValue(t) && (t.Finite? <==> v.Valid?)
  {
    if v.Invalid? then NaN
    else
      InRangeIsTimeRange(v.fields);
      Finite(TimeOf(v.fields))
  }

  /** The Date value holding a given time value. */
  function FromTimeValue(t: Number): DateValue
    requires IsTimeValue(t)
  {
    if t.NaN? then Invalid
    else
      InRangeIsTimeRange(FieldsOf(t.value));
      Valid(FieldsOf(t.value))
  }

  /** Fields to time value and back. */
  lemma FieldsRoundTrip(v: DateValue)
    ensures FromTimeValue(TimeValue(v)) == v
  {
    if v.Valid? {
      var f := v.fields;
      TimeFields(f.year, f.month, f.date, f.time);
      assert MakeDay(f.year, f.month, f.date) == DayOf(f.year, f.month, f.date);
    }
  }

  /** Time value to fields and back. */
  lemma TimeValueRoundTrip(t: Number)
    requires IsTimeValue(t)
    ensures TimeValue(FromTimeValue(t)) == t
  {
  }

  // ---------------------------------------------------------------------
  // What the month count does with Date objects

  /** JavaScript `a < b` on two Dates, which compares their time values. */
  predicate EarlierThan(a: DateValue, b: DateValue) {
    a.Valid? && b.Valid? && Before(a.fields, b.fields)
  }

  lemma EarlierThanIsTimeOrder(a: DateValue, b: DateValue)
    ensures EarlierThan(a, b) <==> Less(TimeValue(a), TimeValue(b))
  {
    if a.Valid? && b.Valid? {
      TimeOfOrder(a.fields, b.fields);
    }
  }

  /** getMonth. */
  function MonthOfValue(v: DateValue): Number {
    if v.Invalid? then NaN else Finite(v.fields.month)
  }

  /** getDate. */
  function DateOfValue(v: DateValue): Number {
    if v.Invalid? then NaN else Finite(v.fields.date)
  }

  /** The two getters read what ECMA-262 reads off the time value. */
  lemma GettersAgree(v: DateValue)
    ensures MonthOfValue(v) == MonthOf(TimeValue(v))
    ensures DateOfValue(v) == DateOf(TimeValue(v))
  {
    if v.Valid? {
      var f := v.fields;
      TimeFields(f.year, f.month, f.date, f.time);
      assert MakeDay(f.year, f.month, f.date) == DayOf(f.year, f.month, f.date);
    }
  }

  /** The year and the month index of the month after month m of year y. */
  function FollowingYear(y: int, m: int): int {
    if m == 11 then y + 1 else y
  }

  function FollowingMonth(m: int): int {
    if m == 11 then 0 else m + 1
  }

  /** The fields after setMonth(month) on a valid date: the month may lie
      outside 0..11 and carries into the year; a date the new month does not
      have runs on into the following month. */
  function MonthSet(f: DateTime, month: int): (g: DateTime)
    requires IsDate(f)
    ensures IsDate(g)
  {
    var y, m := f.year + month / 12, month % 12;
    var days := DaysInMonth(y, m);
    if f.date <= days then DateTime(y, m, f.date, f.time)
    else DateTime(FollowingYear(y, m), FollowingMonth(m), f.date - days, f.time)
  }

  /** MonthSet computes the day MakeDay computes. */
  lemma MonthSetDay(f: DateTime, month: int)
    requires IsDate(f)
    ensures TimeOf(MonthSet(f, month)) == MakeDate(MakeDay(f.year, month, f.date), f.time)
  {
    var y, m := f.year + month / 12, month % 12;
    var g := MonthSet(f, month);
    assert MakeDay(f.year, month, f.date) == DayOf(y, m, f.date);
    assert DayOf(g.year, g.month, g.date) == DayOf(y, m, f.date) by {
      if f.date > DaysInMonth(y, m) {
        assert m < 11;
        assert g == DateTime(y, m + 1, f.date - DaysInMonth(y, m), f.time);
      }
    }
  }

  /** The fields ECMA-262 reads off the time value of valid fields are those
      fields. */
  lemma TimeOfFields(f: DateTime)
    requires IsDate(f)
    ensures var t := TimeOf(f);
      YearFromTime(t) == f.year && MonthFromTime(t) == f.month &&
      DateFromTime(t) == f.date && TimeWithinDay(t) == f.time
  {
    TimeFields(f.year, f.month, f.date, f.time);
    assert MakeDay(f.year, f.month, f.date) == DayOf(f.year, f.month, f.date);
  }

  /** setMonth(month): the new fields, or the invalid date when the date was
      invalid, the month is NaN or the new instant is out of range. */
  function SetMonthOfValue(v: DateValue, month: Number): DateValue {
    if v.Invalid? || month.NaN? then Invalid
    else
      var g := MonthSet(v.fields, month.value);
      if InRange(g) then Valid(g) else Invalid
  }

  /** setMonth on the fields is setMonth on the time value. */
  lemma SetMonthAgrees(v: DateValue, month: Number)
    ensures TimeValue(SetMonthOfValue(v, month)) == WithMonth(TimeValue(v), month)
  {
    if v.Valid? && month.Finite? {
      var f := v.fields;
      var g := MonthSet(f, month.value);
      WithMonthOfFields(f, month.value);
      MonthSetDay(f, month.value);
      InRangeIsTimeRange(g);
    }
  }

  /** setMonth on the time value of valid fields, before clipping. */
  lemma WithMonthOfFields(f: DateTime, month: int)
    requires IsDate(f)
    ensures WithMonth(Finite(TimeOf(f)), Finite(month))
         == TimeClip(MakeDate(MakeDay(f.year, month, f.date), f.time))
  {
    TimeOfFields(f);
  }

  /** The fields one calendar month on: the same date in the following month,
      or, when that month is shorter, what is left of the date counted on into
      the month after it (January 31st becomes March 2nd or 3rd). */
  function NextMonthFields(f: DateTime): DateTime
    requires 0 <= f.month < 12
  {
    var ny, nm := FollowingYear(f.year, f.month), FollowingMonth(f.month);
    var days := DaysInMonth(ny, nm);
    if f.date <= days then DateTime(ny, nm, f.date, f.time)
    else DateTime(FollowingYear(ny, nm), FollowingMonth(nm), f.date - days, f.time)
  }

  lemma NextMonthFieldsIsDate(f: DateTime)
    requires IsDate(f)
    ensures IsDate(NextMonthFields(f))
  {
  }

  /** One calendar month on, or the invalid date past the last instant. */
  function AddOneMonth(v: DateValue): DateValue {
    if v.Invalid? then Invalid
    else
      var g := NextMonthFields(v.fields);
      NextMonthFieldsIsDate(v.fields);
      if InRange(g) then Valid(g) else Invalid
  }

  /** The step is `d.setMonth(d.getMonth() + 1)`. */
  lemma AddOneMonthIsSetMonth(v: DateValue)
    ensures AddOneMonth(v) == SetMonthOfValue(v, Plus(MonthOfValue(v), 1))
  {
    if v.Valid? {
      var m := v.fields.month;
      if m == 11 {
        assert (m + 1) / 12 == 1 && (m + 1) % 12 == 0;
      } else {
        assert (m + 1) / 12 == 0 && (m + 1) % 12 == m + 1;
      }
      assert NextMonthFields(v.fields) == MonthSet(v.fields, m + 1);
    }
  }

  /** The step is strictly later, lands one or two months on and keeps the
      time of day; the date stays unless the next month is shorter, and then
      it is what is left over after that month's last day. */
  lemma AddOneMonthLater(v: DateValue)
    ensures var w := AddOneMonth(v);
      w.Valid? ==> (
        v.Valid? && Before(v.fields, w.fields) &&
        MonthIndex(v.fields) < MonthIndex(w.fields) <= MonthIndex(v.fields) + 2 &&
        var next := DaysInMonth(FollowingYear(v.fields.year, v.fields.month),
                                FollowingMonth(v.fields.month));
        w.fields.date == (if v.fields.date <= next then v.fields.date else v.fields.date - next) &&
        w.fields.time == v.fields.time)
  {
  }

  /** Whatever the date, the step moves the time value forward by exactly the
      length of the month it starts in. */
  lemma AddOneMonthAdvance(v: DateValue)
    requires v.Valid?
    ensures TimeValue(AddOneMonth(v)) ==
      TimeClip(TimeOf(v.fields) + DaysInMonth(v.fields.year, v.fields.month) * MsPerDay)
  {
    var f := v.fields;
    var g := NextMonthFields(f);
    NextMonthFieldsIsDate(f);
    assert DayOf(g.year, g.month, g.date) ==
           DayOf(f.year, f.month, f.date) + DaysInMonth(f.year, f.month) by {
      DayOfNextMonth(f.year, f.month, f.date);
      var ny, nm := FollowingYear(f.year, f.month), FollowingMonth(f.month);
      if f.date > DaysInMonth(ny, nm) {
        DayOfNextMonth(ny, nm, f.date - DaysInMonth(ny, nm));
      }
    }
    MakeDateShift(DayOf(f.year, f.month, f.date), DaysInMonth(f.year, f.month), f.time);
    InRangeIsTimeRange(g);
  }

  /** The same date in the following month lies a month's length later. */
  lemma DayOfNextMonth(y: int, m: int, d: int)
    requires 0 <= m < 12
    ensures DayOf(FollowingYear(y, m), FollowingMonth(m), d) == DayOf(y, m, d) + DaysInMonth(y, m)
  {
    DaysInMonthSpan(y, m);
    if m == 11 {
      DayFromYearStep(y);
    }
  }

  lemma MakeDateShift(n: int, k: int, time: int)
    ensures MakeDate(n + k, time) == MakeDate(n, time) + k * MsPerDay
  {
  }

  // ---------------------------------------------------------------------
  // The object

  class Date {
    var state: DateValue

    /** `new Date(other)`: a new object holding the same instant. */
    constructor Copy(other: Date)
      ensures state == other.state
    {
      state := other.state;
    }

    function GetMonth(): Number
      reads this
    {
      MonthOfValue(state)
    }

    function GetDate(): Number
      reads this
    {
      DateOfValue(state)
    }

    /** `setMonth(month)`: only this object changes. */
    method SetMonth(month: Number)
      modifies this
      ensures state == SetMonthOfValue(old(state), month)
    {
      state := SetMonthOfValue(state, month);
    }
  }
}
