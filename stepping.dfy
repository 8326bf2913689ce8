/** Counting the steps from one date that stay before another. The month count
    of the rules steps a Date one calendar month at a time; what it promises
    depends only on each step moving a valid date forward by at least one
    calendar month, so it is proved here for any such step. */
module Stepping {
  import opened JsDate

  /** Whenever the step yields a valid date, it started from a valid date and
      went forward, into a later calendar month. */
  ghost predicate Advances(step: DateValue -> DateValue) {
    forall w: DateValue :: step(w).Valid? ==>
      w.Valid? && Before(w.fields, step(w).fields) &&
      MonthIndex(w.fields) < MonthIndex(step(w).fields)
  }

  /** The k-th anchor: the value after k steps, each taken from the value
      before it. */
  function Iterate(step: DateValue -> DateValue, v: DateValue, k: nat): DateValue {
    if k == 0 then v else step(Iterate(step, v, k - 1))
  }

  /** How many anchors j >= 1 of date1 fall strictly before date2. */
  function CountBefore(step: DateValue -> DateValue, date1: DateValue, date2: DateValue): nat
    requires Advances(step)
    decreases if date1.Valid? && date2.Valid?
              then MonthIndex(date2.fields) - MonthIndex(date1.fields) else 0
  {
    if EarlierThan(step(date1), date2) then 1 + CountBefore(step, step(date1), date2)
    else 0
  }

  /** Stepping from the first anchor is stepping once more from the start. */
  lemma {:induction false} IterateShift(step: DateValue -> DateValue, v: DateValue, k: nat)
    ensures Iterate(step, step(v), k) == Iterate(step, v, k + 1)
  {
    if k > 0 {
      IterateShift(step, v, k - 1);
    }
  }

  /** Anchors strictly increase as long as they stay valid; once invalid,
      they stay invalid. */
  lemma {:induction false} IterateLater(step: DateValue -> DateValue, v: DateValue, i: nat, j: nat)
    requires Advances(step)
    requires i < j && Iterate(step, v, j).Valid?
    ensures Iterate(step, v, i).Valid?
    ensures Before(Iterate(step, v, i).fields, Iterate(step, v, j).fields)
    ensures MonthIndex(Iterate(step, v, i).fields) + (j - i) <= MonthIndex(Iterate(step, v, j).fields)
  {
    if i < j - 1 {
      IterateLater(step, v, i, j - 1);
    }
  }

  /** The j-th anchor (j >= 1) lies strictly before date2 exactly when j is at
      most the count. */
  lemma {:induction false} CountBeforeBound(step: DateValue -> DateValue, date1: DateValue,
                                            date2: DateValue, j: nat)
    requires Advances(step) && j >= 1
    ensures j <= CountBefore(step, date1, date2) <==> EarlierThan(Iterate(step, date1, j), date2)
    decreases j
  {
    var next := step(date1);
    IterateShift(step, date1, j - 1);
    if EarlierThan(next, date2) {
      if j > 1 {
        CountBeforeBound(step, next, date2, j - 1);
      }
    } else if j > 1 && Iterate(step, date1, j).Valid? {
      IterateLater(step, date1, 1, j);
    }
  }

  /** Counting up to an anchor itself: the k-1 anchors before it. */
  lemma CountAtIterate(step: DateValue -> DateValue, v: DateValue, k: nat)
    requires Advances(step) && k >= 1 && Iterate(step, v, k).Valid?
    ensures CountBefore(step, v, Iterate(step, v, k)) == k - 1
  {
    var date2 := Iterate(step, v, k);
    CountBeforeBound(step, v, date2, k);
    if k > 1 {
      IterateLater(step, v, k - 1, k);
      CountBeforeBound(step, v, date2, k - 1);
    }
  }

  /** The anchors not after date2: the n anchors strictly before it, and the
      next one exactly when it is date2 itself. */
  lemma CountNotAfter(step: DateValue -> DateValue, date1: DateValue, date2: DateValue, j: nat)
    requires Advances(step) && j >= 1
    ensures var n := CountBefore(step, date1, date2);
      (j <= n || (j == n + 1 && date2.Valid? && Iterate(step, date1, n + 1) == date2)) <==>
      (Iterate(step, date1, j).Valid? && date2.Valid? && !EarlierThan(date2, Iterate(step, date1, j)))
  {
    var n := CountBefore(step, date1, date2);
    CountBeforeBound(step, date1, date2, n + 1);
    if j <= n {
      CountBeforeBound(step, date1, date2, j);
    } else if j > n + 1 && Iterate(step, date1, j).Valid? {
      IterateLater(step, date1, n + 1, j);
    }
  }
}
