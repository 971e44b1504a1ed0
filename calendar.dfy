/** Proleptic Gregorian calendar dates, as Python's `datetime.date` represents
    them, with the arithmetic the task engine uses: `+ timedelta(days=n)`,
    the month step `(d.replace(day=1) + timedelta(days=32)).replace(day=1)`,
    and the comparisons `<` and `<=`. */
module Calendar {

  datatype Date = Date(year: int, month: int, day: int)

  predicate IsLeapYear(y: int) {
    y % 4 == 0 && (y % 100 != 0 || y % 400 == 0)
  }

  function DaysInMonth(y: int, m: int): (n: int)
    requires 1 <= m <= 12
    ensures 28 <= n <= 31
    ensures m == 2 <==> n < 30
    ensures n == 29 <==> m == 2 && IsLeapYear(y)
  {
    if m == 2 then (if IsLeapYear(y) then 29 else 28)
    else if m == 4 || m == 6 || m == 9 || m == 11 then 30
    else 31
  }

  /** A date `datetime.date` can hold (the upper bound, year 9999, is
      imposed where the text form needs it). */
  predicate Valid(d: Date) {
    d.year >= 1 && 1 <= d.month <= 12 && 1 <= d.day <= DaysInMonth(d.year, d.month)
  }

  /** `a < b` on dates: chronological, which is lexicographic on
      (year, month, day). */
  predicate Before(a: Date, b: Date) {
    a.year < b.year
    || (a.year == b.year && a.month < b.month)
    || (a.year == b.year && a.month == b.month && a.day < b.day)
  }

  /** `a <= b` on dates. */
  predicate NotAfter(a: Date, b: Date) {
    !Before(b, a)
  }

  /** `d + timedelta(days=1)`. */
  function NextDay(d: Date): (e: Date)
    requires Valid(d)
    ensures Valid(e) && Before(d, e)
    ensures e.year == d.year || (e.year == d.year + 1 && e.month == 1 && e.day == 1)
  {
    if d.day < DaysInMonth(d.year, d.month) then Date(d.year, d.month, d.day + 1)
    else if d.month < 12 then Date(d.year, d.month + 1, 1)
    else Date(d.year + 1, 1, 1)
  }

  /** `d + timedelta(days=n)` for n >= 0. */
  function AddDays(d: Date, n: nat): (e: Date)
    requires Valid(d)
    ensures Valid(e)
    ensures n > 0 ==> Before(d, e)
    decreases n
  {
    if n == 0 then d else AddDays(NextDay(d), n - 1)
  }

  /** The first day of the month after the month of `d`. */
  function FirstOfNextMonth(d: Date): Date {
    if d.month == 12 then Date(d.year + 1, 1, 1) else Date(d.year, d.month + 1, 1)
  }

  /** The monthly recurrence step exactly as the source writes it: go to the
      1st, add 32 days, go to the 1st again. It always lands on the first
      day of the following month. */
  function MonthlyStep(d: Date): (e: Date)
    requires Valid(d)
    ensures e == FirstOfNextMonth(d)
    ensures Valid(e) && Before(d, e) && e.day == 1
  {
    AddDaysFromFirst32(d.year, d.month);
    AddDays(Date(d.year, d.month, 1), 32).(day := 1)
  }

  // ---------------------------------------------------------------------
  // Lemmas about day arithmetic

  /** Adding days that stay inside the month only moves the day field. */
  lemma {:induction false} AddDaysWithinMonth(d: Date, k: nat)
    requires Valid(d) && d.day + k <= DaysInMonth(d.year, d.month)
    ensures AddDays(d, k) == Date(d.year, d.month, d.day + k)
    decreases k
  {
    if k > 0 {
      assert NextDay(d) == Date(d.year, d.month, d.day + 1);
      AddDaysWithinMonth(NextDay(d), k - 1);
    }
  }

  /** Adding a + b days is adding a days, then b days. */
  lemma {:induction false} AddDaysSplit(d: Date, a: nat, b: nat)
    requires Valid(d)
    ensures AddDays(d, a + b) == AddDays(AddDays(d, a), b)
    decreases a
  {
    if a > 0 {
      AddDaysSplit(NextDay(d), a - 1, b);
    }
  }

  /** 32 days after the 1st of a month is a day (2nd to 5th) of the next
      month. */
  lemma AddDaysFromFirst32(y: int, m: int)
    requires y >= 1 && 1 <= m <= 12
    ensures AddDays(Date(y, m, 1), 32) == FirstOfNextMonth(Date(y, m, 1)).(day := 33 - DaysInMonth(y, m))
  {
    var first := Date(y, m, 1);
    var len := DaysInMonth(y, m);
    var last := Date(y, m, len);
    var next := FirstOfNextMonth(first);
    AddDaysSplit(first, len - 1, 33 - len);
    AddDaysWithinMonth(first, len - 1);
    assert NextDay(last) == next;
    assert AddDays(last, 33 - len) == AddDays(next, 32 - len);
    AddDaysWithinMonth(next, 32 - len);
  }

  /** No date lies strictly between a date and the day after it. */
  lemma NoDateBetween(a: Date, b: Date)
    requires Valid(a) && Valid(b) && Before(a, b)
    ensures NotAfter(NextDay(a), b)
  {
  }

  /** The day after is monotone in the date. */
  lemma NextDayMonotone(a: Date, b: Date)
    requires Valid(a) && Valid(b) && NotAfter(a, b)
    ensures NotAfter(NextDay(a), NextDay(b))
  {
    if Before(a, b) {
      NoDateBetween(a, b);
    }
  }

  /** Adding a fixed number of days is monotone in the date. */
  lemma {:induction false} AddDaysMonotone(a: Date, b: Date, n: nat)
    requires Valid(a) && Valid(b) && NotAfter(a, b)
    ensures NotAfter(AddDays(a, n), AddDays(b, n))
    decreases n
  {
    if n > 0 {
      NextDayMonotone(a, b);
      AddDaysMonotone(NextDay(a), NextDay(b), n - 1);
    }
  }

  /** Up to 31 days later is at most one calendar year later. */
  lemma {:induction false} AddDaysYearBound(d: Date, n: nat)
    requires Valid(d) && n <= 31
    ensures AddDays(d, n).year <= d.year + 1
    decreases n
  {
    if n > 0 {
      var e := NextDay(d);
      if e.year == d.year {
        AddDaysYearBound(e, n - 1);
      } else {
        AddDaysWithinMonth(e, n - 1);
      }
    }
  }
}
