/** Python's `datetime` as far as the commands use it: the range checks of the
    constructor and of `replace`, and the order of two datetimes with the same UTC offset,
    which is the order of the instants counted below from the proleptic Gregorian
    calendar's day one (the ordinal of `date.toordinal`). */
module Calendar {

  const MinYear: int := 1
  const MaxYear: int := 9999
  const SecondsPerDay: int := 86400
  const MicrosPerSecond: int := 1_000_000

  /** A naive or single-offset `datetime`. */
  datatype DateTime = DateTime(year: int, month: int, day: int, hour: int, minute: int, second: int, micro: int)

  predicate IsLeap(y: int) {
    y % 4 == 0 && (y % 100 != 0 || y % 400 == 0)
  }

  function DaysInMonth(y: int, m: int): (n: int)
    requires 1 <= m <= 12
    ensures 28 <= n <= 31
  {
    if m == 2 then (if IsLeap(y) then 29 else 28)
    else if m == 4 || m == 6 || m == 9 || m == 11 then 30
    else 31
  }

  /** What the `datetime` constructor accepts without raising ValueError. */
  predicate ValidDate(y: int, m: int, d: int) {
    MinYear <= y <= MaxYear && 1 <= m <= 12 && 1 <= d <= DaysInMonth(y, m)
  }

  predicate Valid(t: DateTime) {
    ValidDate(t.year, t.month, t.day)
    && 0 <= t.hour < 24 && 0 <= t.minute < 60 && 0 <= t.second < 60 && 0 <= t.micro < MicrosPerSecond
  }

  /** Days in the years before `y`. */
  function DaysBeforeYear(y: int): int {
    var p := y - 1;
    p * 365 + p / 4 - p / 100 + p / 400
  }

  /** Days in the months of `y` before `m`. */
  function DaysBeforeMonth(y: int, m: int): (n: int)
    requires 1 <= m <= 12
    ensures 0 <= n <= 31 * (m - 1)
  {
    if m == 1 then 0 else DaysBeforeMonth(y, m - 1) + DaysInMonth(y, m - 1)
  }

  /** `date(y, m, d).toordinal()`: 1 January of year 1 is day 1. */
  function Ordinal(y: int, m: int, d: int): int
    requires 1 <= m <= 12
  {
    DaysBeforeYear(y) + DaysBeforeMonth(y, m) + d
  }

  /** Whole seconds since the start of day 0 of the ordinal count. */
  function Seconds(t: DateTime): int
    requires 1 <= t.month <= 12
  {
    Ordinal(t.year, t.month, t.day) * SecondsPerDay + t.hour * 3600 + t.minute * 60 + t.second
  }

  /** The instant in microseconds; comparing these compares the datetimes. */
  function Micros(t: DateTime): int
    requires 1 <= t.month <= 12
  {
    Seconds(t) * MicrosPerSecond + t.micro
  }

  /** The seconds of a valid time of day fit in one day. */
  lemma TimeOfDayFits(t: DateTime)
    requires Valid(t)
    ensures 0 <= Seconds(t) - Ordinal(t.year, t.month, t.day) * SecondsPerDay < SecondsPerDay
    ensures 0 <= Micros(t) - Ordinal(t.year, t.month, t.day) * SecondsPerDay * MicrosPerSecond
              < SecondsPerDay * MicrosPerSecond
  {
  }

  /** December ends the year: the year's last day plus one is the next year's first. */
  lemma YearLength(y: int)
    ensures DaysBeforeYear(y + 1) == DaysBeforeYear(y) + (if IsLeap(y) then 366 else 365)
  {
    DivNext(y - 1, 4);
    DivNext(y - 1, 100);
    DivNext(y - 1, 400);
  }

  lemma DivNext(p: int, k: int)
    requires k > 0
    ensures (p + 1) / k == p / k + (if (p + 1) % k == 0 then 1 else 0)
  {
    var q, r := p / k, p % k;
    assert p == q * k + r && 0 <= r < k;
    if r + 1 < k {
      assert p + 1 == q * k + (r + 1);
      DivUnique(p + 1, k, q, r + 1);
    } else {
      assert p + 1 == (q + 1) * k + 0;
      DivUnique(p + 1, k, q + 1, 0);
    }
  }

  lemma DivUnique(a: int, k: int, q: int, r: int)
    requires k > 0 && 0 <= r < k && a == q * k + r
    ensures a / k == q && a % k == r
  {
    var q', r' := a / k, a % k;
    assert a == q' * k + r' && 0 <= r' < k;
    assert (q - q') * k == q * k - q' * k;
    if q > q' {
      MulAtLeast(q - q', k);
    } else if q < q' {
      assert (q' - q) * k == q' * k - q * k;
      MulAtLeast(q' - q, k);
    }
  }

  lemma {:induction false} MulAtLeast(x: int, k: int)
    requires x >= 1 && k > 0
    ensures x * k >= k
    decreases x
  {
    if x > 1 {
      MulAtLeast(x - 1, k);
      assert x * k == (x - 1) * k + k;
    }
  }

  lemma {:induction false} MonthsFillYear(y: int, m: int)
    requires 1 <= m <= 12
    ensures DaysBeforeMonth(y, m) + DaysInMonth(y, m) == (if m == 12 then (if IsLeap(y) then 366 else 365) else DaysBeforeMonth(y, m + 1))
  {
    if m == 12 {
      var feb := if IsLeap(y) then 29 else 28;
      assert DaysBeforeMonth(y, 2) == 31;
      assert DaysBeforeMonth(y, 3) == 31 + feb;
      assert DaysBeforeMonth(y, 4) == 62 + feb;
      assert DaysBeforeMonth(y, 5) == 92 + feb;
      assert DaysBeforeMonth(y, 6) == 123 + feb;
      assert DaysBeforeMonth(y, 7) == 153 + feb;
      assert DaysBeforeMonth(y, 8) == 184 + feb;
      assert DaysBeforeMonth(y, 9) == 215 + feb;
      assert DaysBeforeMonth(y, 10) == 245 + feb;
      assert DaysBeforeMonth(y, 11) == 276 + feb;
      assert DaysBeforeMonth(y, 12) == 306 + feb;
    }
  }

  /** The day after a valid date has the next ordinal. */
  lemma {:induction false} NextDay(y: int, m: int, d: int)
    requires ValidDate(y, m, d)
    ensures d < DaysInMonth(y, m) ==> Ordinal(y, m, d + 1) == Ordinal(y, m, d) + 1
    ensures d == DaysInMonth(y, m) && m < 12 ==> Ordinal(y, m + 1, 1) == Ordinal(y, m, d) + 1
    ensures d == DaysInMonth(y, m) && m == 12 ==> Ordinal(y + 1, 1, 1) == Ordinal(y, m, d) + 1
  {
    MonthsFillYear(y, m);
    YearLength(y);
  }

  /** `t - timedelta(days=1)`: the same time of day on the calendar day before. */
  function DayBefore(t: DateTime): DateTime
    requires 1 <= t.month <= 12
  {
    if t.day > 1 then t.(day := t.day - 1)
    else if t.month > 1 then t.(month := t.month - 1, day := DaysInMonth(t.year, t.month - 1))
    else t.(year := t.year - 1, month := 12, day := 31)
  }

  /** The day before any valid date but 1 January of year 1 is a valid date with the
      previous ordinal, exactly one day of seconds earlier. */
  lemma DayBeforeIsPreviousOrdinal(t: DateTime)
    requires ValidDate(t.year, t.month, t.day) && Ordinal(t.year, t.month, t.day) != 1
    ensures var p := DayBefore(t);
            && ValidDate(p.year, p.month, p.day)
            && Ordinal(p.year, p.month, p.day) + 1 == Ordinal(t.year, t.month, t.day)
            && Seconds(p) + SecondsPerDay == Seconds(t)
  {
    if t.day > 1 {
      NextDay(t.year, t.month, t.day - 1);
    } else if t.month > 1 {
      NextDay(t.year, t.month - 1, DaysInMonth(t.year, t.month - 1));
    } else {
      NextDay(t.year - 1, 12, 31);
    }
  }

  /** Calendar order. */
  predicate DateBefore(y1: int, m1: int, d1: int, y2: int, m2: int, d2: int) {
    y1 < y2 || (y1 == y2 && (m1 < m2 || (m1 == m2 && d1 < d2)))
  }

  lemma {:induction false} DaysBeforeMonthGrows(y: int, m1: int, m2: int)
    requires 1 <= m1 < m2 <= 12
    ensures DaysBeforeMonth(y, m1) + DaysInMonth(y, m1) <= DaysBeforeMonth(y, m2)
    decreases m2 - m1
  {
    if m1 + 1 < m2 {
      DaysBeforeMonthGrows(y, m1 + 1, m2);
      MonthsFillYear(y, m1);
    } else {
      MonthsFillYear(y, m1);
    }
  }

  lemma {:induction false} YearsGrow(y1: int, y2: int)
    requires y1 < y2
    ensures DaysBeforeYear(y1) + (if IsLeap(y1) then 366 else 365) <= DaysBeforeYear(y2)
    decreases y2 - y1
  {
    YearLength(y1);
    if y1 + 1 < y2 {
      YearsGrow(y1 + 1, y2);
    }
  }

  /** Ordinals follow the calendar: an earlier valid date has a smaller ordinal. */
  lemma OrdinalFollowsCalendar(y1: int, m1: int, d1: int, y2: int, m2: int, d2: int)
    requires ValidDate(y1, m1, d1) && ValidDate(y2, m2, d2)
    requires DateBefore(y1, m1, d1, y2, m2, d2)
    ensures Ordinal(y1, m1, d1) < Ordinal(y2, m2, d2)
  {
    if y1 < y2 {
      YearsGrow(y1, y2);
      if m1 < 12 {
        DaysBeforeMonthGrows(y1, m1, 12);
      }
      MonthsFillYear(y1, 12);
    } else if m1 < m2 {
      DaysBeforeMonthGrows(y1, m1, m2);
    }
  }

  /** Field-by-field order of two datetimes, as Python compares them. */
  predicate Before(a: DateTime, b: DateTime) {
    DateBefore(a.year, a.month, a.day, b.year, b.month, b.day)
    || (a.year == b.year && a.month == b.month && a.day == b.day
        && (a.hour < b.hour
            || (a.hour == b.hour && (a.minute < b.minute
            || (a.minute == b.minute && (a.second < b.second
            || (a.second == b.second && a.micro < b.micro)))))))
  }

  lemma InstantFollowsCalendar(a: DateTime, b: DateTime)
    requires Valid(a) && Valid(b) && Before(a, b)
    ensures Micros(a) < Micros(b)
  {
    TimeOfDayFits(a);
    TimeOfDayFits(b);
    if DateBefore(a.year, a.month, a.day, b.year, b.month, b.day) {
      OrdinalFollowsCalendar(a.year, a.month, a.day, b.year, b.month, b.day);
      var oa, ob := Ordinal(a.year, a.month, a.day), Ordinal(b.year, b.month, b.day);
      assert (oa + 1) * SecondsPerDay * MicrosPerSecond <= ob * SecondsPerDay * MicrosPerSecond;
    }
  }

  /** Comparing instants is comparing the datetimes: `a < b` exactly when `a` comes first
      field by field. */
  lemma InstantOrderIsCalendarOrder(a: DateTime, b: DateTime)
    requires Valid(a) && Valid(b)
    ensures Micros(a) < Micros(b) <==> Before(a, b)
  {
    if Before(a, b) {
      InstantFollowsCalendar(a, b);
    } else if Before(b, a) {
      InstantFollowsCalendar(b, a);
    } else {
      assert a == b;
    }
  }
}
