/** The calendar behind the billing periods, against an independent count of days, and dates the repository checks. */
module BillingCalendar {
  import opened Common
  import opened BillingMonths

  /**
    Days since 1 March of year zero, with the year taken to begin in March, so
    that a leap day is the last day of its year.
   */
  function DayNumber(year: int, month: int, day: int): int {
    var y := if month <= 2 then year - 1 else year;
    YearStart(y) + MonthStart((month + 9) % 12) + day - 1
  }

  /** One leap day in four years, but three fewer in four hundred. */
  function YearStart(y: int): int { 365 * y + y / 4 - y / 100 + y / 400 }

  /** Days before the `m`-th month counted from March, which is month zero. */
  function MonthStart(m: int): int { (153 * m + 2) / 5 }

  function NextMonth(year: int, month: int): (int, int) {
    if month == 12 then (year + 1, 1) else (year, month + 1)
  }

  /** A month has the days between its first day and the next month's. */
  lemma DaysInMonthAreCounted(year: int, month: int)
    requires 1 <= month <= 12
    ensures var (y, m) := NextMonth(year, month);
      DaysIn(year, month) == DayNumber(y, m, 1) - DayNumber(year, month, 1)
  {
    MonthLengths(year, month);
    if month == 2 {
      YearLength(year);
      SameYear(year, 3);
      SameYear(year, 2);
    } else {
      var (y, m) := NextMonth(year, month);
      SameYear(year, month);
      SameYear(y, m);
    }
  }

  /** The first day of a month, by the year from March to February it is in. */
  lemma SameYear(year: int, month: int)
    requires 1 <= month <= 12
    ensures DayNumber(year, month, 1) ==
      if month <= 2 then YearStart(year - 1) + MonthStart(month + 9) else YearStart(year) + MonthStart(month - 3)
  {
  }

  lemma MonthLengths(year: int, month: int)
    requires 1 <= month <= 12
    ensures month > 2 ==> DaysIn(year, month) == MonthStart(month - 2) - MonthStart(month - 3)
    ensures month == 1 ==> DaysIn(year, month) == MonthStart(11) - MonthStart(10)
    ensures month == 2 ==> DaysIn(year, month) == 365 - MonthStart(11) + if LeapYear(year) then 1 else 0
  {
  }

  /** A year that ends with February has a day more if that February has. */
  lemma YearLength(year: int)
    ensures YearStart(year) - YearStart(year - 1) == 365 + if LeapYear(year) then 1 else 0
  {
    Multiples(year, 4);
    Multiples(year, 100);
    Multiples(year, 400);
  }

  lemma Multiples(n: int, d: int)
    requires d in {4, 100, 400}
    ensures n / d - (n - 1) / d == if n % d == 0 then 1 else 0
  {
  }

  function DayOf(t: Instant): int { DayNumber(t.year, t.month, t.day) }

  /** The first day of a month given by its index. */
  function FirstDay(index: int): int { DayNumber(index / 12, index % 12 + 1, 1) }

  lemma FirstDayOfNext(index: int)
    ensures FirstDay(index + 1) == FirstDay(index) + DaysIn(index / 12, index % 12 + 1)
  {
    DaysInMonthAreCounted(index / 12, index % 12 + 1);
    NextIndex(index);
  }

  lemma NextIndex(index: int)
    ensures ((index + 1) / 12, (index + 1) % 12 + 1) == NextMonth(index / 12, index % 12 + 1)
  {
  }

  lemma {:induction false} FirstDaysIncrease(i: int, j: int)
    requires i < j
    ensures FirstDay(i) + DaysIn(i / 12, i % 12 + 1) <= FirstDay(j)
    decreases j - i
  {
    FirstDayOfNext(i);
    if i + 1 < j {
      FirstDaysIncrease(i + 1, j);
    }
  }

  lemma DayInItsMonth(t: Instant)
    requires t.Valid()
    ensures DayOf(t) == FirstDay(t.MonthIndex()) + t.day - 1
  {
    assert t.MonthIndex() / 12 == t.year && t.MonthIndex() % 12 + 1 == t.month;
  }

  /** Instants are ordered by their day, and within a day by their time. */
  lemma BeforeIffEarlierDay(a: Instant, b: Instant)
    requires a.Valid() && b.Valid()
    ensures a.Before(b) <==> (DayOf(a) < DayOf(b) || (DayOf(a) == DayOf(b) && a.time < b.time))
  {
    DayInItsMonth(a);
    DayInItsMonth(b);
    assert a.MonthIndex() / 12 == a.year && a.MonthIndex() % 12 + 1 == a.month;
    assert b.MonthIndex() / 12 == b.year && b.MonthIndex() % 12 + 1 == b.month;
    if a.MonthIndex() < b.MonthIndex() {
      FirstDaysIncrease(a.MonthIndex(), b.MonthIndex());
    } else if b.MonthIndex() < a.MonthIndex() {
      FirstDaysIncrease(b.MonthIndex(), a.MonthIndex());
    }
  }

  /** A period start is the reset's day in its month, or that month's last day if it is shorter; the time stays. */
  lemma PeriodStartsOnTheResetDay(reset: Instant, months: nat, next: Instant)
    requires reset.Valid() && AddMonths(reset, months) == Some(next)
    ensures next.Valid() && 12 * next.year + next.month == 12 * reset.year + reset.month + months
    ensures next.time == reset.time
    ensures next.day <= reset.day
    ensures next.day < reset.day ==> DayOf(next) + 1 == FirstDay(next.MonthIndex() + 1)
  {
    AddMonthsIsValid(reset, months);
    AddMonthsLands(reset, months);
    if next.day < reset.day {
      DayInItsMonth(next);
      FirstDayOfNext(next.MonthIndex());
      assert next.MonthIndex() / 12 == next.year && next.MonthIndex() % 12 + 1 == next.month;
    }
  }

  const NOON: nat := 43200

  /** The dates of the repository's own checks, times in seconds of the day. */
  lemma CheckedDates()
    ensures CompleteMonths(Instant(2025, 1, 15, NOON), Instant(2025, 3, 15, NOON), 2)
    ensures CompleteMonths(Instant(2025, 6, 30, NOON), Instant(2025, 7, 30, NOON - 1), 0)
    ensures CompleteMonths(Instant(2025, 1, 31, 0), Instant(2025, 2, 28, 0), 1)
    ensures CompleteMonths(Instant(2025, 1, 31, 0), Instant(2025, 2, 27, 0), 0)
    ensures CompleteMonths(Instant(2025, 1, 31, NOON), Instant(2025, 2, 28, NOON), 1)
  {
    CompleteMonthsFromEnds(Instant(2025, 1, 15, NOON), Instant(2025, 3, 15, NOON), 2);
    CompleteMonthsFromEnds(Instant(2025, 6, 30, NOON), Instant(2025, 7, 30, NOON - 1), 0);
    CompleteMonthsFromEnds(Instant(2025, 1, 31, 0), Instant(2025, 2, 28, 0), 1);
    CompleteMonthsFromEnds(Instant(2025, 1, 31, 0), Instant(2025, 2, 27, 0), 0);
    CompleteMonthsFromEnds(Instant(2025, 1, 31, NOON), Instant(2025, 2, 28, NOON), 1);
  }

  /** The rest of them, over leap days and the turn of a year. */
  lemma CheckedLeapDates()
    ensures CompleteMonths(Instant(2025, 1, 31, 0), Instant(2025, 4, 29, 0), 2)
    ensures CompleteMonths(Instant(2024, 1, 31, NOON), Instant(2024, 2, 29, NOON), 1)
    ensures CompleteMonths(Instant(2024, 1, 31, NOON), Instant(2024, 2, 28, NOON), 0)
    ensures CompleteMonths(Instant(2025, 5, 15, NOON), Instant(2025, 5, 15, NOON), 0)
    ensures CompleteMonths(Instant(2024, 11, 30, 0), Instant(2025, 1, 30, 0), 2)
  {
    CompleteMonthsFromEnds(Instant(2025, 1, 31, 0), Instant(2025, 4, 29, 0), 2);
    CompleteMonthsFromEnds(Instant(2024, 1, 31, NOON), Instant(2024, 2, 29, NOON), 1);
    CompleteMonthsFromEnds(Instant(2024, 1, 31, NOON), Instant(2024, 2, 28, NOON), 0);
    CompleteMonthsFromEnds(Instant(2025, 5, 15, NOON), Instant(2025, 5, 15, NOON), 0);
    CompleteMonthsFromEnds(Instant(2024, 11, 30, 0), Instant(2025, 1, 30, 0), 2);
  }
}
