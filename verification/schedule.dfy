/** The report clock of config.py: the grid of regular report times and the end-of-day
    report time. A setting that neither the environment nor the YAML file provides is
    `None` and takes its default. */
module Schedule {
  import opened Outcomes

  /** A `datetime.time` without its time zone. */
  datatype ClockTime = ClockTime(hour: int, minute: int)

  /** What the `time` constructor accepts. */
  predicate ValidClock(c: ClockTime) {
    0 <= c.hour < 24 && 0 <= c.minute < 60
  }

  /** Minutes since midnight. */
  function MinuteOfDay(c: ClockTime): int {
    c.hour * 60 + c.minute
  }

  datatype ConfigError =
    | ZeroStep      // `range` with a step of zero raises ValueError
    | InvalidClock  // `time(hour, minute)` out of range raises ValueError

  const MinutesPerDay: int := 24 * 60
  const DefaultInterval: int := 30
  const DefaultEndOfDay: ClockTime := ClockTime(1, 5)

  /** `range(start, stop, step)` for a positive step: `start` and every `step`-th number
      after it that lies below `stop`, and none beyond: the next would reach `stop`. */
  function RangeUp(start: int, stop: int, step: int): (r: seq<int>)
    requires step > 0
    ensures |r| == 0 <==> start >= stop
    ensures forall k :: 0 <= k < |r| ==> r[k] == start + k * step && r[k] < stop
    ensures start < stop ==> stop <= start + |r| * step
    decreases stop - start
  {
    if start >= stop then []
    else
      var rest := RangeUp(start + step, stop, step);
      assert forall k :: 1 <= k < |rest| + 1 ==> start + k * step == (start + step) + (k - 1) * step;
      assert start + (|rest| + 1) * step == (start + step) + |rest| * step;
      [start] + rest
  }

  /** The minute `x` of the day as a clock time. */
  function ClockOf(x: int): ClockTime {
    ClockTime(x / 60, x % 60)
  }

  /** `_generate_report_times`: a time every `interval` minutes from midnight. A zero
      interval raises; a negative one makes `range` empty. */
  function ReportTimes(setting: Option<int>): (r: Result<seq<ClockTime>, ConfigError>)
    ensures r.Failure? <==> setting == Some(0)
    ensures r.Success? && setting.Some? && setting.value < 0 ==> r.value == []
  {
    var interval := setting.GetOr(DefaultInterval);
    if interval == 0 then Failure(ZeroStep)
    else if interval < 0 then Success([])
    else Success(Grid(interval))
  }

  /** The comprehension over `range(0, 24 * 60, interval)`. */
  function Grid(interval: int): seq<ClockTime>
    requires interval > 0
  {
    var xs := RangeUp(0, MinutesPerDay, interval);
    seq(|xs|, k requires 0 <= k < |xs| => ClockOf(xs[k]))
  }

  /** With a positive interval the setting yields the grid, whose first time is midnight. */
  lemma ReportTimesGrid(interval: int)
    requires interval > 0
    ensures ReportTimes(Some(interval)) == Success(Grid(interval))
    ensures Grid(interval)[0] == ClockTime(0, 0)
  {
    var xs := RangeUp(0, MinutesPerDay, interval);
    assert xs[0] == 0 * interval == 0;
    assert Grid(interval)[0] == ClockOf(0);
  }

  /** The k-th time of the grid is minute `k * interval` of the day, and every time is a
      valid clock reading. */
  lemma {:induction false} GridTimes(interval: int)
    requires interval > 0
    ensures forall k :: 0 <= k < |Grid(interval)| ==>
              ValidClock(Grid(interval)[k]) && MinuteOfDay(Grid(interval)[k]) == k * interval
  {
    forall k | 0 <= k < |Grid(interval)|
      ensures ValidClock(Grid(interval)[k]) && MinuteOfDay(Grid(interval)[k]) == k * interval
    {
      GridAt(interval, k);
    }
  }

  lemma GridAt(interval: int, k: int)
    requires interval > 0 && 0 <= k < |Grid(interval)|
    ensures ValidClock(Grid(interval)[k]) && MinuteOfDay(Grid(interval)[k]) == k * interval
  {
    var xs := RangeUp(0, MinutesPerDay, interval);
    assert Grid(interval)[k] == ClockOf(xs[k]);
    assert xs[k] == k * interval && 0 <= xs[k] < MinutesPerDay;
    MinuteOfClock(xs[k]);
  }

  /** There are ceil(1440 / interval) times: the last lies within one interval of the
      next midnight. */
  lemma ReportTimesCount(interval: int)
    requires interval > 0
    ensures (|Grid(interval)| - 1) * interval < MinutesPerDay <= |Grid(interval)| * interval
  {
    var xs := RangeUp(0, MinutesPerDay, interval);
    assert xs[|xs| - 1] == (|xs| - 1) * interval;
  }

  /** Minutes from the k-th time to the next one. */
  function Gap(r: seq<ClockTime>, k: int): int
    requires 0 <= k < |r| - 1
  {
    MinuteOfDay(r[k + 1]) - MinuteOfDay(r[k])
  }

  /** Consecutive times are exactly `interval` minutes apart, so the times increase. */
  lemma {:induction false} ReportTimesStep(interval: int)
    requires interval > 0
    ensures forall k :: 0 <= k < |Grid(interval)| - 1 ==> Gap(Grid(interval), k) == interval
  {
    forall k | 0 <= k < |Grid(interval)| - 1 ensures Gap(Grid(interval), k) == interval {
      GapAt(interval, k);
    }
  }

  lemma {:induction false} GapAt(interval: int, k: int)
    requires interval > 0 && 0 <= k < |Grid(interval)| - 1
    ensures Gap(Grid(interval), k) == interval
  {
    var xs := RangeUp(0, MinutesPerDay, interval);
    var a, b := xs[k], xs[k + 1];
    assert b == a + interval by {
      assert a == k * interval && b == (k + 1) * interval;
    }
    MinuteOfClock(a);
    MinuteOfClock(b);
  }

  lemma MinuteOfClock(x: int)
    requires 0 <= x
    ensures MinuteOfDay(ClockOf(x)) == x
  {
  }

  /** With no interval configured, the default of thirty minutes gives 48 reports a day. */
  lemma DefaultGridHas48Times(setting: Option<int>)
    requires setting.None?
    ensures ReportTimes(setting).Success? && |ReportTimes(setting).value| == 48
  {
    var interval := setting.GetOr(DefaultInterval);
    assert ReportTimes(setting) == Success(Grid(interval));
    ReportTimesCount(interval);
    CeilingOfDay(|Grid(interval)|, interval);
  }

  lemma CeilingOfDay(n: int, interval: int)
    requires interval == DefaultInterval
    requires (n - 1) * interval < MinutesPerDay <= n * interval
    ensures n == 48
  {
  }

  /** `end_of_day_report_time`: the configured hour and minute, 01:05 by default; a value
      out of range raises. */
  function EndOfDayReportTime(hour: Option<int>, minute: Option<int>): (r: Result<ClockTime, ConfigError>)
    ensures r.Success? <==> ValidClock(ClockTime(hour.GetOr(1), minute.GetOr(5)))
    ensures r.Success? ==> r.value.hour == hour.GetOr(1) && r.value.minute == minute.GetOr(5)
    ensures hour.None? && minute.None? ==> r == Success(DefaultEndOfDay)
  {
    var c := ClockTime(hour.GetOr(1), minute.GetOr(5));
    if ValidClock(c) then Success(c) else Failure(InvalidClock)
  }
}
