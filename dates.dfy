/**
 * Calendar date-times as the calculation sees them: a `java.util.Date` read
 * through a `Calendar` in one fixed time zone, so a point in time is a local
 * year, month, day of month and millisecond of the day.
 */
module Dates {

  const MillisPerDay := 86_400_000

  /** Gregorian leap-year rule, applied to every year. */
  predicate IsLeapYear(y: int)
  {
    y % 4 == 0 && (y % 100 != 0 || y % 400 == 0)
  }

  function DaysInMonth(y: int, m: int): (n: int)
    requires 1 <= m <= 12
    ensures 28 <= n <= 31
  {
    if m == 2 then (if IsLeapYear(y) then 29 else 28)
    else if m == 4 || m == 6 || m == 9 || m == 11 then 30
    else 31
  }

  datatype LocalDateTime = LocalDateTime(year: int, month: int, day: int, millis: int)
  {
    /** A real calendar day and a time of day inside it. */
    predicate Valid()
    {
      1 <= month <= 12 && 1 <= day <= DaysInMonth(year, month) && 0 <= millis < MillisPerDay
    }
  }

  /** What a non-null `java.util.Date` denotes. */
  type Date = t: LocalDateTime | t.Valid() witness LocalDateTime(1970, 1, 1, 0)

  /** Months elapsed since January of year 0. */
  function MonthIndex(t: LocalDateTime): int
  {
    t.year * 12 + t.month - 1
  }

  function Min(a: int, b: int): int
  {
    if a <= b then a else b
  }

  function Sign(x: int): int
  {
    if x < 0 then -1 else if x > 0 then 1 else 0
  }

  /**
   * `Date.compareTo`: negative, zero or positive as `a` is before, equal to or
   * after `b`. Field by field, most significant first.
   */
  function Compare(a: Date, b: Date): (r: int)
    ensures -1 <= r <= 1
    ensures r == 0 <==> a == b
  {
    if a.year != b.year then Sign(a.year - b.year)
    else if a.month != b.month then Sign(a.month - b.month)
    else if a.day != b.day then Sign(a.day - b.day)
    else Sign(a.millis - b.millis)
  }

  predicate Before(a: Date, b: Date)
  {
    Compare(a, b) < 0
  }

  /**
   * A single number that grows with time, the counterpart of `Date.getTime`.
   * A month is given 32 day slots, so it is not a count of real days, but it
   * orders date-times exactly as the calendar does (see StampOrdersLikeCompare).
   */
  function Stamp(t: Date): int
  {
    (MonthIndex(t) * 32 + t.day) * MillisPerDay + t.millis
  }

  /** Comparing two dates field by field is comparing their stamps. */
  lemma StampOrdersLikeCompare(a: Date, b: Date)
    ensures Compare(a, b) == Sign(Stamp(a) - Stamp(b))
  {
    if a.year != b.year {
      if a.year < b.year {
        assert MonthIndex(a) + 1 <= MonthIndex(b);
      } else {
        assert MonthIndex(b) + 1 <= MonthIndex(a);
      }
    } else if a.month != b.month {
      assert MonthIndex(a) - MonthIndex(b) == a.month - b.month;
    }
  }

  /** The date-time order is a total order. */
  lemma CompareIsTotalOrder(a: Date, b: Date, c: Date)
    ensures Compare(a, b) == -Compare(b, a)
    ensures Compare(a, b) <= 0 && Compare(b, c) <= 0 ==> Compare(a, c) <= 0
    ensures Before(a, b) && Compare(b, c) <= 0 ==> Before(a, c)
  {
    StampOrdersLikeCompare(a, b);
    StampOrdersLikeCompare(b, a);
    StampOrdersLikeCompare(b, c);
    StampOrdersLikeCompare(a, c);
  }

  /**
   * `Calendar.add(Calendar.MONTH, n)`: move `n` calendar months (back when `n`
   * is negative), keep the day of month unless the target month is shorter,
   * in which case land on its last day, and keep the time of day.
   */
  function AddMonths(t: Date, n: int): (r: Date)
    ensures MonthIndex(r) == MonthIndex(t) + n
    ensures r.day == t.day || (t.day > r.day && r.day == DaysInMonth(r.year, r.month))
    ensures r.millis == t.millis
  {
    var idx := MonthIndex(t) + n;
    var y := idx / 12;
    var m := idx % 12 + 1;
    LocalDateTime(y, m, Min(t.day, DaysInMonth(y, m)), t.millis)
  }

  /** Two dates in the same month index are in the same year and month. */
  lemma SameMonthIndex(a: LocalDateTime, b: LocalDateTime)
    requires 1 <= a.month <= 12 && 1 <= b.month <= 12
    requires MonthIndex(a) == MonthIndex(b)
    ensures a.year == b.year && a.month == b.month
  {
  }

  lemma AddZeroMonths(t: Date)
    ensures AddMonths(t, 0) == t
  {
    var r := AddMonths(t, 0);
    SameMonthIndex(r, t);
  }

  /** Adding a positive number of months always gives a strictly later date-time. */
  lemma AddMonthsIsLater(t: Date, n: int)
    requires n > 0
    ensures Before(t, AddMonths(t, n))
  {
    var r := AddMonths(t, n);
    StampOrdersLikeCompare(t, r);
    assert Stamp(r) - Stamp(t) >= (32 * n + r.day - t.day) * MillisPerDay;
  }

  /** Subtracting a positive number of months always gives a strictly earlier date-time. */
  lemma SubtractMonthsIsEarlier(t: Date, n: int)
    requires n > 0
    ensures Before(AddMonths(t, -n), t)
  {
    var r := AddMonths(t, -n);
    StampOrdersLikeCompare(r, t);
    assert Stamp(t) - Stamp(r) >= (32 * n + t.day - r.day) * MillisPerDay;
  }

  /**
   * Month addition keeps the order of two date-times that share a time of day
   * (clamping may merge two days into one, never swap them).
   */
  lemma AddMonthsMonotone(a: Date, b: Date, n: int)
    requires a.millis == b.millis
    requires Compare(a, b) <= 0
    ensures Compare(AddMonths(a, n), AddMonths(b, n)) <= 0
  {
    var ra, rb := AddMonths(a, n), AddMonths(b, n);
    StampOrdersLikeCompare(a, b);
    StampOrdersLikeCompare(ra, rb);
    if MonthIndex(a) == MonthIndex(b) {
      SameMonthIndex(a, b);
      SameMonthIndex(ra, rb);
      assert a.day <= b.day;
    } else {
      assert MonthIndex(a) < MonthIndex(b);
      assert MonthIndex(ra) < MonthIndex(rb);
    }
  }

  /**
   * Without a shared time of day the order can flip: 30 January 23:00 is before
   * 31 January 01:00, yet one month later both land on 28 February and the
   * first is now the later one.
   */
  lemma ClampingCanReorderTimesOfDay()
    ensures var a := LocalDateTime(2021, 1, 30, 23 * 3_600_000);
            var b := LocalDateTime(2021, 1, 31, 1 * 3_600_000);
            Before(a, b) && Before(AddMonths(b, 1), AddMonths(a, 1))
  {
    var a := LocalDateTime(2021, 1, 30, 23 * 3_600_000);
    var b := LocalDateTime(2021, 1, 31, 1 * 3_600_000);
    assert AddMonths(a, 1) == LocalDateTime(2021, 2, 28, 23 * 3_600_000);
    assert AddMonths(b, 1) == LocalDateTime(2021, 2, 28, 1 * 3_600_000);
  }

  /** Calendar-month addition on concrete dates, including end-of-month clamping. */
  lemma AddMonthsExamples()
    ensures AddMonths(LocalDateTime(2021, 1, 15, 0), 3) == LocalDateTime(2021, 4, 15, 0)
    ensures AddMonths(LocalDateTime(2021, 1, 31, 0), 3) == LocalDateTime(2021, 4, 30, 0)
    ensures AddMonths(LocalDateTime(2019, 11, 30, 0), 3) == LocalDateTime(2020, 2, 29, 0)
    ensures AddMonths(LocalDateTime(2020, 11, 30, 0), 3) == LocalDateTime(2021, 2, 28, 0)
    ensures AddMonths(LocalDateTime(2024, 2, 29, 0), -12) == LocalDateTime(2023, 2, 28, 0)
  {
  }
}
