/**
  The weekly schedule: the next Sunday at the configured hour and minute,
  on a naive local calendar. A date is its proleptic Gregorian ordinal
  (day 1 is 0001-01-01, a Monday), as Python's `date.toordinal()` counts.
*/
module Scheduler {

  const SecondsPerDay: int := 86400

  /** Ordinal of 9999-12-31, the last date Python represents. */
  const MaxOrdinal: int := 3652059

  /** Python's `weekday()` numbering: Monday is 0, Sunday is 6. */
  const Sunday: int := 6

  /** A naive local date and time, to the second. */
  datatype LocalTime = LocalTime(day: int, second: int)

  predicate Valid(t: LocalTime) {
    1 <= t.day <= MaxOrdinal && 0 <= t.second < SecondsPerDay
  }

  function Weekday(day: int): (w: int)
    ensures 0 <= w < 7
  {
    (day + 6) % 7
  }

  /** Seconds since the start of day 0, for comparing instants. */
  function Seconds(t: LocalTime): int {
    t.day * SecondsPerDay + t.second
  }

  /** Why no next run can be computed: a bad configured time, or a date past year 9999. */
  datatype ScheduleError = InvalidTime | DateOverflow

  datatype Schedule = Next(at: LocalTime) | Failed(error: ScheduleError)

  /** Second of the day at `hour`:`minute`:00. */
  function TargetSecond(hour: int, minute: int): int {
    hour * 3600 + minute * 60
  }

  /** Whole days from `now` to the target; a Sunday at or past the target waits a week. */
  function DaysToTarget(now: LocalTime, target: int): (d: int)
    ensures 0 <= d <= 7
    ensures Weekday(now.day + d) == Sunday
    ensures d == 0 <==> Weekday(now.day) == Sunday && now.second < target
    ensures d == 7 <==> Weekday(now.day) == Sunday && now.second >= target
  {
    var d := (6 - Weekday(now.day)) % 7;
    if d == 0 && now.second >= target then 7 else d
  }

  /**
    The next scheduled run after `now`. `hour` and `minute` are the
    configured schedule; a value outside a clock's range is an error, and
    so is a run that would fall after 9999-12-31.
  */
  function NextRun(now: LocalTime, hour: int, minute: int): (r: Schedule)
    requires Valid(now)
    ensures r.Failed? && r.error == InvalidTime <==> !(0 <= hour < 24 && 0 <= minute < 60)
    ensures r.Failed? && r.error == DateOverflow ==> MaxOrdinal < now.day + 7
    ensures r.Failed? && r.error == DateOverflow ==>
      forall t :: Valid(t) && Weekday(t.day) == Sunday && t.second == TargetSecond(hour, minute) ==> Seconds(t) <= Seconds(now)
    ensures r.Next? ==> Valid(r.at)
    ensures r.Next? ==> Weekday(r.at.day) == Sunday
    ensures r.Next? ==> r.at.second == TargetSecond(hour, minute)
    ensures r.Next? ==> Seconds(now) < Seconds(r.at)
    ensures r.Next? ==> now.day <= r.at.day <= now.day + 7
  {
    if !(0 <= hour < 24 && 0 <= minute < 60) then Failed(InvalidTime)
    else
      var target := TargetSecond(hour, minute);
      var days := DaysToTarget(now, target);
      if now.day + days > MaxOrdinal then
        NoRunAfter(now, target);
        Failed(DateOverflow)
      else Next(LocalTime(now.day + days, target))
  }

  /** The first Sunday on or after `day` comes no later than any Sunday `t` on or after it. */
  lemma FirstSundayOnOrAfter(day: int, t: int)
    requires day <= t && Weekday(t) == Sunday
    ensures day + (6 - Weekday(day)) % 7 <= t
  {
  }

  /** A later instant is on the same day or a later one; on the same day its second is later. */
  lemma LaterInstant(a: LocalTime, b: LocalTime)
    requires 0 <= a.second < SecondsPerDay && 0 <= b.second < SecondsPerDay
    requires Seconds(a) < Seconds(b)
    ensures a.day <= b.day
    ensures a.day == b.day ==> a.second < b.second
  {
  }

  /** A Sunday after a Sunday is at least a week later. */
  lemma SundaysAWeekApart(a: int, b: int)
    requires Weekday(a) == Sunday && Weekday(b) == Sunday && a < b
    ensures a + 7 <= b
  {
  }

  /** Every Sunday instant at the target time after `now` is on or after the day `DaysToTarget` picks. */
  lemma EarliestCandidate(now: LocalTime, target: int, t: LocalTime)
    requires Valid(now) && 0 <= target < SecondsPerDay
    requires Weekday(t.day) == Sunday && t.second == target && Seconds(now) < Seconds(t)
    ensures now.day + DaysToTarget(now, target) <= t.day
  {
    var d := DaysToTarget(now, target);
    LaterInstant(now, t);
    if d == 7 {
      assert now.day != t.day;
      SundaysAWeekApart(now.day, t.day);
    } else {
      FirstSundayOnOrAfter(now.day, t.day);
    }
  }

  /** When the day `DaysToTarget` picks is past 9999-12-31, no representable run lies after `now`. */
  lemma NoRunAfter(now: LocalTime, target: int)
    requires Valid(now) && 0 <= target < SecondsPerDay
    requires now.day + DaysToTarget(now, target) > MaxOrdinal
    ensures forall t :: Valid(t) && Weekday(t.day) == Sunday && t.second == target ==> Seconds(t) <= Seconds(now)
  {
    forall t | Valid(t) && Weekday(t.day) == Sunday && t.second == target
      ensures Seconds(t) <= Seconds(now)
    {
      if Seconds(now) < Seconds(t) {
        EarliestCandidate(now, target, t);
      }
    }
  }

  /**
    The run chosen is the earliest Sunday at the target time strictly
    after `now`: no qualifying instant is skipped.
  */
  lemma NextRunIsEarliest(now: LocalTime, hour: int, minute: int, t: LocalTime)
    requires Valid(now)
    ensures NextRun(now, hour, minute).Next? && Weekday(t.day) == Sunday &&
            t.second == TargetSecond(hour, minute) && Seconds(now) < Seconds(t)
            ==> Seconds(NextRun(now, hour, minute).at) <= Seconds(t)
  {
    var target := TargetSecond(hour, minute);
    if NextRun(now, hour, minute).Next? && Weekday(t.day) == Sunday && t.second == target && Seconds(now) < Seconds(t) {
      assert 0 <= target < SecondsPerDay;
      assert NextRun(now, hour, minute).at == LocalTime(now.day + DaysToTarget(now, target), target);
      EarliestCandidate(now, target, t);
    }
  }

  /** On a Sunday before the target time the run is today; at or after it, a week later. */
  lemma SundayRule(now: LocalTime, hour: int, minute: int)
    requires Valid(now) && Weekday(now.day) == Sunday
    requires NextRun(now, hour, minute).Next?
    ensures now.second < TargetSecond(hour, minute) ==> NextRun(now, hour, minute).at.day == now.day
    ensures now.second >= TargetSecond(hour, minute) ==> NextRun(now, hour, minute).at.day == now.day + 7
  {
  }

  /**
    With the run set for 21:00: Sunday 20:00 runs the same evening, Sunday
    22:00 the next Sunday, a Tuesday at 10:00 five days later.
  */
  lemma ScheduleExamples(day: int)
    requires 1 <= day && day + 7 <= MaxOrdinal
    requires Weekday(day) == Sunday
    ensures NextRun(LocalTime(day, 20 * 3600), 21, 0) == Next(LocalTime(day, 21 * 3600))
    ensures NextRun(LocalTime(day, 22 * 3600), 21, 0) == Next(LocalTime(day + 7, 21 * 3600))
    ensures NextRun(LocalTime(day - 5, 10 * 3600), 21, 0) == Next(LocalTime(day, 21 * 3600))
  {
    assert Weekday(day - 5) == 1;
  }
}
