/** Projecting a recurring task's due date forward: the `while due_date <=
    today` loop of `generate_recurring_tasks`, with one recurrence step per
    iteration. */
module Schedule {
  import opened Calendar
  import opened Validation

  /** The number of days a daily or weekly step adds. */
  function StepDays(r: Recurrence): nat {
    if r == Weekly then 7 else 1
  }

  /** One recurrence step: a day, a week, or to the 1st of the next month.
      The monthly case is stated in closed form; `MonthlyStep`, the
      source's own formula, is proved equal to it. */
  function Step(d: Date, r: Recurrence): (e: Date)
    requires Valid(d) && r != NoRecurrence
    ensures Valid(e) && Before(d, e)
    ensures e.year <= d.year + 1
  {
    AddDaysYearBound(d, StepDays(r));
    if r == Monthly then FirstOfNextMonth(d) else AddDays(d, StepDays(r))
  }

  /** The due date the loop stops at: the first step-date strictly after
      `today`, or `d` itself when it is already after `today`. */
  function NextOccurrence(d: Date, r: Recurrence, today: Date): (e: Date)
    requires Valid(d) && Valid(today) && r != NoRecurrence
    ensures Valid(e) && Before(today, e)
    ensures NotAfter(d, e)
    ensures NotAfter(d, today) ==> e.year <= today.year + 1
    decreases today.year - d.year, 12 - d.month, 31 - d.day
  {
    if Before(today, d) then d else NextOccurrence(Step(d, r), r, today)
  }

  /** `d` advanced by `k` steps. */
  function Iterate(d: Date, r: Recurrence, k: nat): (e: Date)
    requires Valid(d) && r != NoRecurrence
    ensures Valid(e)
    decreases k
  {
    if k == 0 then d else Iterate(Step(d, r), r, k - 1)
  }

  /** The loop of `generate_recurring_tasks`, lines 78-86. */
  method NextDue(d: Date, r: Recurrence, today: Date) returns (due: Date)
    requires Valid(d) && Valid(today) && r != NoRecurrence
    ensures due == NextOccurrence(d, r, today)
    ensures Before(today, due)
  {
    due := d;
    while NotAfter(due, today)
      invariant Valid(due)
      invariant NextOccurrence(due, r, today) == NextOccurrence(d, r, today)
      decreases today.year - due.year, 12 - due.month, 31 - due.day
    {
      if r == Daily {
        due := AddDays(due, 1);
      } else if r == Weekly {
        due := AddDays(due, 7);
      } else if r == Monthly {
        due := MonthlyStep(due);
      }
    }
  }

  // ---------------------------------------------------------------------
  // What the projected date is

  /** The projected date is reached from `d` by whole steps, every date
      before it on the way is on or before `today`, and it is after
      `today`: it is the first step-date after `today`. */
  lemma {:induction false} NextOccurrenceIsFirstStepAfter(d: Date, r: Recurrence, today: Date) returns (k: nat)
    requires Valid(d) && Valid(today) && r != NoRecurrence
    ensures NextOccurrence(d, r, today) == Iterate(d, r, k)
    ensures forall j :: 0 <= j < k ==> NotAfter(Iterate(d, r, j), today)
    ensures Before(today, Iterate(d, r, k))
    decreases today.year - d.year, 12 - d.month, 31 - d.day
  {
    if Before(today, d) {
      k := 0;
    } else {
      var e := Step(d, r);
      var k' := NextOccurrenceIsFirstStepAfter(e, r, today);
      k := k' + 1;
      OneStepFurther(d, r, today, k');
      StepsBeforeToday(d, r, today, k');
    }
  }

  /** Unfolding one step of both `NextOccurrence` and `Iterate`. */
  lemma OneStepFurther(d: Date, r: Recurrence, today: Date, k: nat)
    requires Valid(d) && Valid(today) && r != NoRecurrence && NotAfter(d, today)
    ensures NextOccurrence(d, r, today) == NextOccurrence(Step(d, r), r, today)
    ensures Iterate(d, r, k + 1) == Iterate(Step(d, r), r, k)
  {
  }

  lemma StepsBeforeToday(d: Date, r: Recurrence, today: Date, n: nat)
    requires Valid(d) && r != NoRecurrence && NotAfter(d, today)
    requires forall j :: 0 <= j < n ==> NotAfter(Iterate(Step(d, r), r, j), today)
    ensures forall j :: 0 <= j < n + 1 ==> NotAfter(Iterate(d, r, j), today)
  {
    forall j | 0 <= j < n + 1 ensures NotAfter(Iterate(d, r, j), today) {
      if j > 0 {
        assert Iterate(d, r, j) == Iterate(Step(d, r), r, j - 1);
      }
    }
  }

  /** A date that is already after `today` is kept. */
  lemma FutureDateKept(d: Date, r: Recurrence, today: Date)
    requires Valid(d) && Valid(today) && r != NoRecurrence && Before(today, d)
    ensures NextOccurrence(d, r, today) == d
  {
  }

  /** A daily task due on or before `today` is projected to tomorrow. */
  lemma {:induction false} DailyLandsTomorrow(d: Date, today: Date)
    requires Valid(d) && Valid(today) && NotAfter(d, today)
    ensures NextOccurrence(d, Daily, today) == NextDay(today)
    decreases today.year - d.year, 12 - d.month, 31 - d.day
  {
    var e := Step(d, Daily);
    assert e == NextDay(d);
    if NotAfter(e, today) {
      DailyLandsTomorrow(e, today);
    } else if Before(d, today) {
      NoDateBetween(d, today);
    }
  }

  /** A weekly task due on or before `today` is projected into the week
      after `today`. */
  lemma {:induction false} WeeklyLandsWithinAWeek(d: Date, today: Date)
    requires Valid(d) && Valid(today) && NotAfter(d, today)
    ensures NotAfter(NextOccurrence(d, Weekly, today), AddDays(today, 7))
    decreases today.year - d.year, 12 - d.month, 31 - d.day
  {
    var e := Step(d, Weekly);
    if NotAfter(e, today) {
      WeeklyLandsWithinAWeek(e, today);
    } else {
      AddDaysMonotone(d, today, 7);
    }
  }

  /** A monthly task due on or before `today` is projected to the 1st of
      the month after `today`'s month, whatever its day of the month. */
  lemma {:induction false} MonthlyLandsNextFirst(d: Date, today: Date)
    requires Valid(d) && Valid(today) && NotAfter(d, today)
    ensures NextOccurrence(d, Monthly, today) == FirstOfNextMonth(today)
    decreases today.year - d.year, 12 - d.month, 31 - d.day
  {
    var e := Step(d, Monthly);
    assert e == FirstOfNextMonth(d);
    if NotAfter(e, today) {
      MonthlyLandsNextFirst(e, today);
    }
  }

  /** A daily task due 2024-01-01 and projected on 2024-01-03 is due
      2024-01-04. */
  lemma DailyExample()
    ensures NextOccurrence(Date(2024, 1, 1), Daily, Date(2024, 1, 3)) == Date(2024, 1, 4)
  {
    DailyLandsTomorrow(Date(2024, 1, 1), Date(2024, 1, 3));
  }

  /** A monthly task due 2024-01-15 and projected on 2024-02-01 is due
      2024-03-01. */
  lemma MonthlyExample()
    ensures NextOccurrence(Date(2024, 1, 15), Monthly, Date(2024, 2, 1)) == Date(2024, 3, 1)
  {
    MonthlyLandsNextFirst(Date(2024, 1, 15), Date(2024, 2, 1));
  }
}
