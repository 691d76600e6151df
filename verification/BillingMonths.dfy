/**
  Billing periods: calendar-month arithmetic that clamps to the end of a
  shorter month, and the start of the period an instant falls in.
 */
module BillingMonths {
  import opened Common

  /** The years the calendar library can represent. */
  const FIRST_YEAR := -262143
  const LAST_YEAR := 262142

  predicate LeapYear(year: int) {
    year % 4 == 0 && (year % 100 != 0 || year % 400 == 0)
  }

  function DaysIn(year: int, month: int): int {
    if month == 2 then (if LeapYear(year) then 29 else 28)
    else if month in {4, 6, 9, 11} then 30
    else 31
  }

  /** A UTC instant in the proleptic Gregorian calendar; `time` is the time of day. */
  datatype Instant = Instant(year: int, month: int, day: int, time: nat) {
    ghost predicate Valid() {
      FIRST_YEAR <= year <= LAST_YEAR && 1 <= month <= 12 && 1 <= day <= DaysIn(year, month)
    }

    /** Months since the start of year zero. */
    function MonthIndex(): int { 12 * year + month - 1 }

    predicate Before(other: Instant) {
      || year < other.year
      || (year == other.year && month < other.month)
      || (year == other.year && month == other.month && day < other.day)
      || (year == other.year && month == other.month && day == other.day && time < other.time)
    }

    predicate AtOrBefore(other: Instant) { this == other || Before(other) }
  }

  /** Moves by whole months, keeping the day where the target month has it; `None` past the calendar's end. */
  function AddMonths(start: Instant, months: nat): Option<Instant> {
    if months == 0 then Some(start)
    else
      var index := start.MonthIndex() + months;
      var year, month := index / 12, index % 12 + 1;
      if FIRST_YEAR <= year <= LAST_YEAR
      then Some(Instant(year, month, Min(start.day, DaysIn(year, month)), start.time))
      else None
  }

  lemma AddMonthsIsValid(start: Instant, months: nat)
    requires start.Valid() && AddMonths(start, months).Some?
    ensures AddMonths(start, months).value.Valid()
    ensures AddMonths(start, months).value.MonthIndex() == start.MonthIndex() + months
    ensures AddMonths(start, months).value.time == start.time
    ensures start.day <= 28 ==> AddMonths(start, months).value.day == start.day
  {
  }

  lemma MonthsDecideOrder(a: Instant, b: Instant)
    requires a.Valid() && b.Valid() && a.MonthIndex() < b.MonthIndex()
    ensures a.Before(b)
  {
  }

  /** Clamping never lets a later period start catch up with an earlier one. */
  lemma AddMonthsStrictlyIncreasing(start: Instant, m: nat, n: nat)
    requires start.Valid() && m < n && AddMonths(start, n).Some?
    ensures AddMonths(start, m).Some?
    ensures AddMonths(start, m).value.Before(AddMonths(start, n).value)
  {
    assert start.MonthIndex() / 12 == start.year;
    AddMonthsIsValid(start, m);
    AddMonthsIsValid(start, n);
    MonthsDecideOrder(AddMonths(start, m).value, AddMonths(start, n).value);
  }

  /** Month arithmetic on its own: where `months` leads, and which day the target month allows. */
  lemma AddMonthsLands(start: Instant, months: nat)
    requires start.Valid() && AddMonths(start, months).Some?
    ensures var index := start.MonthIndex() + months;
      AddMonths(start, months).value
        == Instant(index / 12, index % 12 + 1, Min(start.day, DaysIn(index / 12, index % 12 + 1)), start.time)
  {
    assert start.MonthIndex() / 12 == start.year;
  }

  /**
    Why periods are always counted from the original reset: going through an
    intermediate date agrees with adding in one go exactly when the day fits
    that date's month, or fits the final month no better.
   */
  lemma ChainingAgreesIffDayFits(start: Instant, m: nat, n: nat)
    requires start.Valid() && AddMonths(start, m + n).Some?
    ensures
      var last := AddMonths(start, m + n).value;
      var middle := start.MonthIndex() + m;
      var fits := DaysIn(middle / 12, middle % 12 + 1);
      && AddMonths(start, m).Some?
      && (AddMonths(AddMonths(start, m).value, n) == Some(last)
          <==> start.day <= fits || DaysIn(last.year, last.month) <= fits)
  {
    if n > 0 {
      AddMonthsStrictlyIncreasing(start, m, m + n);
    }
    AddMonthsLands(start, m);
    AddMonthsLands(start, m + n);
    AddMonthsIsValid(start, m);
    ChainLands(start, AddMonths(start, m).value, m, n);
  }

  lemma ChainLands(start: Instant, middle: Instant, m: nat, n: nat)
    requires start.Valid() && AddMonths(start, m + n).Some?
    requires middle.Valid() && middle.MonthIndex() == start.MonthIndex() + m && middle.time == start.time
    ensures var last := AddMonths(start, m + n).value;
      AddMonths(middle, n) == Some(last.(day := Min(middle.day, DaysIn(last.year, last.month))))
  {
    AddMonthsLands(start, m + n);
    if n > 0 {
      AddMonthsLands(middle, n);
    } else {
      assert middle.MonthIndex() / 12 == middle.year;
    }
  }

  lemma ChainedAdditionDrifts()
    ensures exists start: Instant, m: nat, n: nat :: start.Valid() && Drifts(start, m, n)
  {
    var start := Instant(2023, 1, 31, 0);
    assert AddMonths(start, 1) == Some(Instant(2023, 2, 28, 0));
    assert AddMonths(AddMonths(start, 1).value, 1) == Some(Instant(2023, 3, 28, 0));
    assert AddMonths(start, 1 + 1) == Some(Instant(2023, 3, 31, 0));
    assert Drifts(start, 1, 1);
  }

  predicate Drifts(start: Instant, m: nat, n: nat) {
    && AddMonths(start, m).Some?
    && AddMonths(AddMonths(start, m).value, n) != AddMonths(start, m + n)
  }

  /** The `n`-th period start exists and has come by `end`. */
  predicate Reached(start: Instant, end: Instant, n: nat) {
    AddMonths(start, n).Some? && AddMonths(start, n).value.AtOrBefore(end)
  }

  lemma ReachedIsPrefixClosed(start: Instant, end: Instant, m: nat, n: nat)
    requires start.Valid() && m <= n && Reached(start, end, n)
    ensures Reached(start, end, m)
  {
    if m < n {
      AddMonthsStrictlyIncreasing(start, m, n);
    }
  }

  /** The count of complete months: the period starts reached are exactly those from the first to the `m`-th. */
  ghost predicate CompleteMonths(start: Instant, end: Instant, m: nat) {
    forall n: nat :: n >= 1 ==> (Reached(start, end, n) <==> n <= m)
  }

  lemma CompleteMonthsFromEnds(start: Instant, end: Instant, m: nat)
    requires start.Valid() && (m == 0 || Reached(start, end, m)) && !Reached(start, end, m + 1)
    ensures CompleteMonths(start, end, m)
  {
    forall n: nat | n >= 1
      ensures Reached(start, end, n) <==> n <= m
    {
      if n <= m {
        ReachedIsPrefixClosed(start, end, n, m);
      } else if Reached(start, end, n) {
        ReachedIsPrefixClosed(start, end, m + 1, n);
      }
    }
  }

  lemma ReachedIsBounded(start: Instant, end: Instant, m: nat)
    requires start.Valid() && (m == 0 || Reached(start, end, m))
    ensures m <= 12 * (LAST_YEAR - FIRST_YEAR + 1)
  {
  }

  /** `complete_months_elapsed`; the bound on the result is what keeps its counter inside 32 bits. */
  method CompleteMonthsElapsed(start: Instant, end: Instant) returns (months: nat)
    requires start.Valid()
    ensures CompleteMonths(start, end, months)
    ensures end.Before(start) ==> months == 0
    ensures months < 0x8000_0000
  {
    months := 0;
    while true
      invariant months == 0 || Reached(start, end, months)
      decreases 12 * (LAST_YEAR - FIRST_YEAR + 1) - months
    {
      ReachedIsBounded(start, end, months);
      match AddMonths(start, months + 1)
      case None =>
        break;
      case Some(next) =>
        if next.AtOrBefore(end) {
          months := months + 1;
          ReachedIsBounded(start, end, months);
        } else {
          break;
        }
    }
    CompleteMonthsFromEnds(start, end, months);
    if months > 0 && end.Before(start) {
      ReachedIsPrefixClosed(start, end, 0, months);
      assert false;
    }
  }

  /** `now` lies in the `k`-th period counted from `reset`. */
  ghost predicate InPeriod(reset: Instant, now: Instant, k: nat) {
    Reached(reset, now, k) && !Reached(reset, now, k + 1)
  }

  /** Periods partition time: an instant at or after the reset lies in one period, and only one. */
  lemma PeriodsPartitionTime(reset: Instant, now: Instant, m: nat, k: nat)
    requires reset.Valid() && reset.AtOrBefore(now) && CompleteMonths(reset, now, m)
    ensures InPeriod(reset, now, k) <==> k == m
  {
    assert Reached(reset, now, 0);
    assert k > 0 ==> (Reached(reset, now, k) <==> k <= m);
    assert Reached(reset, now, k + 1) <==> k + 1 <= m;
  }

  /** The latest reset time: the fallback for an unrepresentable date is never taken. */
  method LatestResetTime(reset: Instant, now: Instant) returns (latest: Instant, ghost k: nat)
    requires reset.Valid()
    ensures AddMonths(reset, k) == Some(latest)
    ensures reset.AtOrBefore(now) ==> latest.AtOrBefore(now) && InPeriod(reset, now, k)
    ensures reset.AtOrBefore(now) ==>
      AddMonths(reset, k + 1).None? || now.Before(AddMonths(reset, k + 1).value)
    ensures now.Before(reset) ==> latest == reset
  {
    var months := CompleteMonthsElapsed(reset, now);
    k := months;
    assert months > 0 ==> Reached(reset, now, months);
    if months > 0 {
      var added := AddMonths(reset, months);
      latest := if added.Some? then added.value else reset;
    } else {
      latest := reset;
    }
    if reset.AtOrBefore(now) {
      PeriodsPartitionTime(reset, now, months, months);
      OrderIsTotal(AddMonths(reset, k + 1), now);
    }
  }

  lemma OrderIsTotal(a: Option<Instant>, b: Instant)
    ensures a.Some? ==> a.value.AtOrBefore(b) != b.Before(a.value)
  {
  }

  /**
    Usage of one period is never counted in another: instants share a period
    start iff no period starts between them.
   */
  lemma SamePeriodSameStart(reset: Instant, now: Instant, later: Instant, j: nat, k: nat)
    requires reset.Valid() && reset.AtOrBefore(now) && now.AtOrBefore(later)
    requires CompleteMonths(reset, now, j) && CompleteMonths(reset, later, k)
    ensures j <= k
    ensures j == k <==> forall n: nat :: Reached(reset, later, n) ==> Reached(reset, now, n)
  {
    assert Reached(reset, now, 0) && Reached(reset, later, 0);
    assert j > 0 ==> Reached(reset, now, j);
    assert j > 0 ==> Reached(reset, later, j);
    assert k > 0 ==> Reached(reset, later, k);
    if forall n: nat :: Reached(reset, later, n) ==> Reached(reset, now, n) {
      assert k > 0 ==> Reached(reset, now, k);
    }
  }
}
