/** Proleptic Gregorian calendar: civil dates, day numbers and calendar months.
    A day number counts days from 0001-01-01 (day 0); every date of years 1 to 9999
    has exactly one day number and every day number in [0, DayCount) one date. */
module Calendar {

  const MinYear := 1
  const MaxYear := 9999

  datatype Date = Date(year: int, month: int, day: int)

  predicate IsLeapYear(y: int) {
    y % 4 == 0 && (y % 100 != 0 || y % 400 == 0)
  }

  function YearLength(y: int): (n: int)
    ensures n == 365 || n == 366
    ensures n == 366 <==> IsLeapYear(y)
  {
    if IsLeapYear(y) then 366 else 365
  }

  function DaysInMonth(y: int, m: int): (n: int)
    requires 1 <= m <= 12
    ensures 28 <= n <= 31
    ensures m == 2 ==> (n == 29 <==> IsLeapYear(y))
  {
    if m == 2 then (if IsLeapYear(y) then 29 else 28)
    else if m == 4 || m == 6 || m == 9 || m == 11 then 30
    else 31
  }

  predicate ValidDate(d: Date) {
    MinYear <= d.year <= MaxYear && 1 <= d.month <= 12 && 1 <= d.day <= DaysInMonth(d.year, d.month)
  }

  /** Days in the years 1 .. y-1, counted year by year. */
  function DaysBeforeYear(y: int): int
    requires y >= 1
  {
    if y == 1 then 0 else DaysBeforeYear(y - 1) + YearLength(y - 1)
  }

  /** Days in the months 1 .. m-1 of year y. */
  function DaysBeforeMonth(y: int, m: int): int
    requires 1 <= m <= 13
  {
    var common :=
      if m == 1 then 0 else if m == 2 then 31 else if m == 3 then 59 else if m == 4 then 90
      else if m == 5 then 120 else if m == 6 then 151 else if m == 7 then 181
      else if m == 8 then 212 else if m == 9 then 243 else if m == 10 then 273
      else if m == 11 then 304 else if m == 12 then 334 else 365;
    if m > 2 && IsLeapYear(y) then common + 1 else common
  }

  lemma MonthStep(y: int, m: int)
    requires 1 <= m <= 12
    ensures DaysBeforeMonth(y, m + 1) == DaysBeforeMonth(y, m) + DaysInMonth(y, m)
  {
  }

  lemma DivStep(k: int)
    requires k >= 0
    ensures (k + 1) / 4 == k / 4 + (if (k + 1) % 4 == 0 then 1 else 0)
    ensures (k + 1) / 100 == k / 100 + (if (k + 1) % 100 == 0 then 1 else 0)
    ensures (k + 1) / 400 == k / 400 + (if (k + 1) % 400 == 0 then 1 else 0)
  {
  }

  /** The year-by-year count equals the Gregorian closed form: 365 days a year, plus a day
      every fourth year, less one every hundredth, plus one every four hundredth. */
  lemma {:induction false} DaysBeforeYearClosedForm(y: int)
    requires y >= 1
    ensures DaysBeforeYear(y) == 365 * (y - 1) + (y - 1) / 4 - (y - 1) / 100 + (y - 1) / 400
  {
    if y > 1 {
      DaysBeforeYearClosedForm(y - 1);
      LeapCount(y - 2);
    }
  }

  /** A year's length is 365 plus the leap days the closed form counts in it. */
  lemma LeapCount(k: int)
    requires k >= 0
    ensures YearLength(k + 1) == 365 + ((k + 1) / 4 - k / 4) - ((k + 1) / 100 - k / 100) + ((k + 1) / 400 - k / 400)
  {
    DivStep(k);
    var y := k + 1;
    if y % 400 == 0 {
      assert y % 100 == 0 && y % 4 == 0 by {
        assert y == 400 * (y / 400);
      }
    } else if y % 100 == 0 {
      assert y % 4 == 0 by {
        assert y == 100 * (y / 100);
      }
    }
  }

  /** Number of representable days: 0001-01-01 .. 9999-12-31. */
  const DayCount := 3652059

  /** Every year's end lies within the representable days, and the last year ends exactly
      at DayCount. (Stated for a variable year so that no caller unrolls the year count.) */
  lemma DayCountIsCalendarSpan(y: int)
    requires MinYear <= y <= MaxYear
    ensures DaysBeforeYear(y + 1) <= DayCount
    ensures y == MaxYear ==> DaysBeforeYear(y + 1) == DayCount
  {
    DaysBeforeYearClosedForm(y + 1);
  }

  predicate InRange(n: int) {
    0 <= n < DayCount
  }

  function ToDay(d: Date): int
    requires ValidDate(d)
  {
    DaysBeforeYear(d.year) + DaysBeforeMonth(d.year, d.month) + d.day - 1
  }

  /** Consecutive years are one year length apart. */
  lemma YearStep(y: int)
    requires y >= 1
    ensures DaysBeforeYear(y + 1) == DaysBeforeYear(y) + YearLength(y)
  {
  }

  lemma {:induction false} YearMonotone(a: int, b: int)
    requires 1 <= a <= b
    ensures DaysBeforeYear(a) + 365 * (b - a) <= DaysBeforeYear(b)
    decreases b - a
  {
    if a < b {
      YearStep(a);
      YearMonotone(a + 1, b);
    }
  }

  lemma {:induction false} MonthMonotone(y: int, a: int, b: int)
    requires 1 <= a <= b <= 13
    ensures DaysBeforeMonth(y, a) + 28 * (b - a) <= DaysBeforeMonth(y, b)
    decreases b - a
  {
    if a < b {
      MonthMonotone(y, a, b - 1);
      MonthStep(y, b - 1);
    }
  }

  lemma MonthsFillYear(y: int)
    ensures DaysBeforeMonth(y, 13) == YearLength(y)
  {
  }

  /** A valid date's day number lies inside its own year and its own month. */
  lemma ToDayBounds(d: Date)
    requires ValidDate(d)
    ensures DaysBeforeYear(d.year) <= ToDay(d) < DaysBeforeYear(d.year + 1)
    ensures InRange(ToDay(d))
  {
    MonthMonotone(d.year, d.month + 1, 13);
    MonthsFillYear(d.year);
    YearStep(d.year);
    YearMonotone(1, d.year);
    DayCountIsCalendarSpan(d.year);
  }

  // ---------------------------------------------------------------------------
  // Chronological order

  predicate DateBefore(a: Date, b: Date) {
    a.year < b.year || (a.year == b.year && (a.month < b.month || (a.month == b.month && a.day < b.day)))
  }

  /** Day numbers order dates by (year, month, day). */
  lemma ToDayOrder(a: Date, b: Date)
    requires ValidDate(a) && ValidDate(b)
    ensures ToDay(a) < ToDay(b) <==> DateBefore(a, b)
  {
    ToDayBounds(a);
    ToDayBounds(b);
    if a.year < b.year {
      YearMonotone(a.year + 1, b.year);
    } else if b.year < a.year {
      YearMonotone(b.year + 1, a.year);
    } else if a.month < b.month {
      MonthMonotone(a.year, a.month + 1, b.month);
    } else if b.month < a.month {
      MonthMonotone(a.year, b.month + 1, a.month);
    }
  }

  /** Different valid dates have different day numbers. */
  lemma ToDayInjective(a: Date, b: Date)
    requires ValidDate(a) && ValidDate(b)
    ensures ToDay(a) == ToDay(b) <==> a == b
  {
    ToDayOrder(a, b);
    ToDayOrder(b, a);
  }

  // ---------------------------------------------------------------------------
  // From day numbers back to dates

  /** The date `rem` days after the first of month m of year y, found month by month. */
  function MonthDayOf(y: int, rem: int, m: int): (d: Date)
    requires MinYear <= y <= MaxYear && 1 <= m <= 12
    requires 0 <= rem < DaysBeforeMonth(y, 13) - DaysBeforeMonth(y, m)
    ensures ValidDate(d) && d.year == y
    ensures DaysBeforeMonth(y, d.month) + d.day - 1 == DaysBeforeMonth(y, m) + rem
    decreases 12 - m
  {
    MonthStep(y, m);
    if rem < DaysInMonth(y, m) then Date(y, m, rem + 1)
    else MonthDayOf(y, rem - DaysInMonth(y, m), m + 1)
  }

  /** The date with day number n, found year by year from year y on. */
  function YearDayOf(n: int, y: int): (d: Date)
    requires MinYear <= y <= MaxYear
    requires DaysBeforeYear(y) <= n < DayCount
    ensures ValidDate(d) && ToDay(d) == n
    decreases MaxYear - y
  {
    DayCountIsCalendarSpan(y);
    if n < DaysBeforeYear(y + 1) then
      MonthsFillYear(y);
      MonthDayOf(y, n - DaysBeforeYear(y), 1)
    else YearDayOf(n, y + 1)
  }

  /** The date with day number n: the inverse of ToDay. */
  function FromDay(n: int): (d: Date)
    requires InRange(n)
    ensures ValidDate(d) && ToDay(d) == n
  {
    FromDayAfter(n, 1)
  }

  /** FromDay behind a one-step count-down: being recursive, it is unfolded only where a
      proof asks for it, so the year and month search stays out of proofs that only need
      FromDay's contract. */
  function FromDayAfter(n: int, steps: nat): (d: Date)
    requires InRange(n)
    ensures ValidDate(d) && ToDay(d) == n
  {
    if steps == 0 then YearDayOf(n, MinYear) else FromDayAfter(n, steps - 1)
  }

  lemma FromDayToDay(d: Date)
    requires ValidDate(d)
    ensures InRange(ToDay(d)) && FromDay(ToDay(d)) == d
  {
    ToDayBounds(d);
    ToDayInjective(d, FromDay(ToDay(d)));
  }

  // ---------------------------------------------------------------------------
  // Adding days

  /** The civil successor of a date: the next day, month or year. */
  function NextDate(d: Date): Date
    requires ValidDate(d)
  {
    if d.day < DaysInMonth(d.year, d.month) then Date(d.year, d.month, d.day + 1)
    else if d.month < 12 then Date(d.year, d.month + 1, 1)
    else Date(d.year + 1, 1, 1)
  }

  /** Adding one day carries into the next month and year exactly as the calendar does,
      with February's length following the leap-year rule. */
  lemma NextDay(d: Date)
    requires ValidDate(d) && d != Date(MaxYear, 12, 31)
    ensures ValidDate(NextDate(d))
    ensures InRange(ToDay(d) + 1) && FromDay(ToDay(d) + 1) == NextDate(d)
  {
    var e := NextDate(d);
    if d.day == DaysInMonth(d.year, d.month) && d.month == 12 {
      YearStep(d.year);
      MonthsFillYear(d.year);
    }
    assert ToDay(e) == ToDay(d) + 1;
    FromDayToDay(e);
  }

  /** `d + n days`, defined when the result is representable. */
  function AddDays(d: Date, n: int): (r: Date)
    requires ValidDate(d) && InRange(ToDay(d) + n)
    ensures ValidDate(r) && ToDay(r) == ToDay(d) + n
  {
    FromDay(ToDay(d) + n)
  }

  // ---------------------------------------------------------------------------
  // Calendar months

  /** Months are numbered consecutively: 12 * year + (month - 1). Behind a one-step
      count-down like FromDay; MonthIndexOfDate gives the definition. */
  function MonthIndex(n: int): (k: int)
    requires InRange(n)
    ensures 12 * MinYear <= k < 12 * (MaxYear + 1)
  {
    MonthIndexAfter(n, 1)
  }

  function MonthIndexAfter(n: int, steps: nat): (k: int)
    requires InRange(n)
    ensures 12 * MinYear <= k < 12 * (MaxYear + 1)
  {
    if steps > 0 then MonthIndexAfter(n, steps - 1)
    else
      var d := FromDay(n);
      12 * d.year + d.month - 1
  }

  lemma MonthIndexOfDate(n: int)
    requires InRange(n)
    ensures MonthIndex(n) == 12 * FromDay(n).year + FromDay(n).month - 1
  {
    assert MonthIndexAfter(n, 1) == MonthIndexAfter(n, 0);
  }

  predicate ValidMonth(k: int) {
    12 * MinYear <= k < 12 * (MaxYear + 1)
  }

  function FirstOfMonth(k: int): (d: Date)
    requires ValidMonth(k)
    ensures ValidDate(d) && d.day == 1
  {
    Date(k / 12, k % 12 + 1, 1)
  }

  /** Day number of the first day of month k (pandas' month-start label), counted month
      by month from January of year 1. The count sits behind a one-step count-down, like
      FromDay, so that a mention of a month's first day does not expand the month-length
      arithmetic; MonthTiles gives the step from one month to the next. */
  function MonthStart(k: int): int
    requires ValidMonth(k)
    decreases k, 2
  {
    MonthStartAfter(k, 1)
  }

  function MonthStartAfter(k: int, steps: nat): int
    requires ValidMonth(k)
    decreases k, steps
  {
    if steps > 0 then MonthStartAfter(k, steps - 1)
    else if k == 12 * MinYear then 0
    else MonthStart(k - 1) + DaysInMonth((k - 1) / 12, (k - 1) % 12 + 1)
  }

  /** Day number just past the last day of month k. */
  function MonthEnd(k: int): int
    requires ValidMonth(k)
  {
    MonthStart(k) + DaysInMonth(k / 12, k % 12 + 1)
  }

  /** The months tile the day line: month k is the half-open range [MonthStart(k), MonthEnd(k)),
      and the next month starts where it ends. */
  lemma MonthTiles(k: int)
    requires ValidMonth(k)
    ensures ValidMonth(k + 1) ==> MonthStart(k + 1) == MonthEnd(k)
    ensures MonthStart(k) < MonthEnd(k)
  {
    if ValidMonth(k + 1) {
      assert MonthStartAfter(k + 1, 1) == MonthStartAfter(k + 1, 0);
    }
  }

  /** Month numbering starts with January of year 1 on day 0. */
  lemma FirstMonthStart()
    ensures MonthStart(12 * MinYear) == 0
  {
    assert MonthStartAfter(12 * MinYear, 1) == MonthStartAfter(12 * MinYear, 0);
  }

  /** The month-by-month count agrees with the day number of the month's first day. */
  lemma {:induction false} MonthStartIsFirstDay(k: int)
    requires ValidMonth(k)
    ensures MonthStart(k) == ToDay(FirstOfMonth(k))
    decreases k
  {
    if k == 12 * MinYear {
      FirstMonthStart();
    } else {
      MonthStartIsFirstDay(k - 1);
      MonthTiles(k - 1);
      var y, m := (k - 1) / 12, (k - 1) % 12 + 1;
      if m < 12 {
        assert k / 12 == y && k % 12 + 1 == m + 1;
        MonthStep(y, m);
      } else {
        assert k / 12 == y + 1 && k % 12 + 1 == 1;
        YearStep(y);
        MonthsFillYear(y);
      }
    }
  }

  /** A day belongs to month k exactly when it lies in that month's range. */
  lemma MonthIndexRange(n: int, k: int)
    requires InRange(n) && ValidMonth(k)
    ensures MonthIndex(n) == k <==> MonthStart(k) <= n < MonthEnd(k)
  {
    var d := FromDay(n);
    var f := FirstOfMonth(k);
    MonthStartIsFirstDay(k);
    MonthIndexOfDate(n);
    if MonthIndex(n) == k {
      assert d.year == f.year && d.month == f.month;
    } else {
      var e := Date(f.year, f.month, DaysInMonth(f.year, f.month));
      if DateBefore(d, f) {
        ToDayOrder(d, f);
      } else {
        assert DateBefore(e, d);
        ToDayOrder(e, d);
      }
    }
  }

  /** Month starts strictly increase with the month index. */
  lemma {:induction false} MonthStartMonotone(j: int, k: int)
    requires ValidMonth(j) && ValidMonth(k) && j < k
    ensures MonthStart(j) < MonthStart(k)
    ensures MonthEnd(j) <= MonthStart(k)
    decreases k - j
  {
    MonthTiles(j);
    assert MonthStart(j) < MonthStart(j + 1);
    if j + 1 < k {
      MonthStartMonotone(j + 1, k);
    }
  }

  lemma MonthIndexOfStart(k: int)
    requires ValidMonth(k)
    ensures InRange(MonthStart(k)) && MonthIndex(MonthStart(k)) == k
  {
    MonthStartIsFirstDay(k);
    FromDayToDay(FirstOfMonth(k));
    MonthIndexOfDate(MonthStart(k));
  }

  /** Later days never belong to earlier months. */
  lemma MonthIndexMonotone(a: int, b: int)
    requires InRange(a) && InRange(b) && a <= b
    ensures MonthIndex(a) <= MonthIndex(b)
  {
    var ka, kb := MonthIndex(a), MonthIndex(b);
    if kb < ka {
      assert MonthStart(ka) <= a by { MonthIndexRange(a, ka); }
      assert b < MonthEnd(kb) by { MonthIndexRange(b, kb); }
      MonthStartMonotone(kb, ka);
      assert false;
    }
  }
}
