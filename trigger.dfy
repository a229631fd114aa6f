/**
 * The trigger calculator: the instant at which an alarm is due next, seen from `now`
 * (AlarmScheduler.getNextTriggerTimeInMillis).
 */
module Trigger {
  import opened Wrappers
  import opened Clock
  import opened Alarms

  /**
   * Reference definition: the earliest qualifying occurrence among days d .. d + n, searched
   * day by day.
   */
  function FirstQualifying(a: Alarm, now: int, d: int, n: nat): (r: Option<int>)
    decreases n
    ensures r.Some? ==> d <= DayOf(r.value) <= d + n
    ensures r.Some? ==> r.value == Candidate(a, DayOf(r.value)) && Qualifies(a, DayOf(r.value), now)
    ensures forall e :: d <= e <= d + n && Qualifies(a, e, now) ==> r.Some? && r.value <= Candidate(a, e)
  {
    if Qualifies(a, d, now) then Some(Candidate(a, d))
    else if n == 0 then None
    else FirstQualifying(a, now, d + 1, n - 1)
  }

  /** Reference definition of the next trigger: the first qualifying day of the coming week. */
  function NextOccurrence(a: Alarm, now: int): Option<int> {
    FirstQualifying(a, now, DayOf(now), 7)
  }

  /**
   * The reference definition yields a trigger exactly for the alarms that are not degenerate,
   * and the trigger it yields is the alarm's next trigger.
   */
  lemma NextOccurrenceCorrect(a: Alarm, now: int)
    ensures NextOccurrence(a, now).Some? <==> !Degenerate(a)
    ensures NextOccurrence(a, now).Some? ==> IsNextTrigger(a, now, NextOccurrence(a, now).value)
  {
    var today := DayOf(now);
    if Degenerate(a) {
      if NextOccurrence(a, now).Some? {
        DegenerateNeverQualifies(a, DayOf(NextOccurrence(a, now).value), now);
      }
    } else if OneShot(a) {
      assert Qualifies(a, today + 1, now);
    } else {
      ScanCovers(a, now);
    }
    if NextOccurrence(a, now).Some? {
      var t := NextOccurrence(a, now).value;
      forall d | Qualifies(a, d, now) ensures t <= Candidate(a, d) {
        if d < today {
          PastDays(a, d, now);
        }
      }
    }
  }

  /** A one-shot alarm's next trigger is today's occurrence if still ahead, else tomorrow's. */
  lemma OneShotNextOccurrence(a: Alarm, now: int)
    requires OneShot(a)
    ensures NextOccurrence(a, now) ==
      Some(if Candidate(a, DayOf(now)) > now then Candidate(a, DayOf(now)) else Candidate(a, DayOf(now) + 1))
  {
    assert Qualifies(a, DayOf(now) + 1, now);
  }

  /**
   * getNextTriggerTimeInMillis. The source's final `while (true)` scan has no bound; here it
   * gives up after `fallbackDays` days and answers None. It is reached only by degenerate
   * alarms, for which no day ever qualifies, so None stands for "never returns" whatever the
   * bound.
   */
  method NextTrigger(a: Alarm, now: int, fallbackDays: nat) returns (r: Option<int>)
    ensures r.Some? <==> !Degenerate(a)
    ensures r.Some? ==> IsNextTrigger(a, now, r.value)
    ensures r.Some? ==> r.value > now && HourOfDay(r.value) == a.hour && MinuteOfHour(r.value) == a.minute
    ensures r.Some? ==> r.value % MINUTE_MS == 0
    ensures OneShot(a) ==>
      r == Some(if Candidate(a, DayOf(now)) > now then Candidate(a, DayOf(now)) else Candidate(a, DayOf(now)) + DAY_MS)
  {
    var today := DayOf(now);
    var base := Candidate(a, today);
    if !a.isRecurring && !AnyDaySelected(a) {
      var t := base;
      if t <= now {
        t := t + DAY_MS;
        assert t == Candidate(a, today + 1);
      }
      return Some(t);
    }

    // Offsets 0..7 inclusive: eight days, today's weekday twice.
    var i := 0;
    while i <= 7
      invariant 0 <= i <= 8
      invariant forall d :: today <= d < today + i ==> !Qualifies(a, d, now)
    {
      var t := base + i * DAY_MS;
      assert t == Candidate(a, today + i);
      if IsDaySelected(a, DayOfWeek(DayOf(t))) {
        if t > now {
          return Some(t);
        }
      }
      i := i + 1;
    }

    // Fallback: restart from today and walk forward one day at a time.
    var t := base;
    var day := today;
    var fuel := fallbackDays;
    while fuel > 0
      invariant today <= day && t == Candidate(a, day)
      invariant forall d :: today <= d < day ==> !Qualifies(a, d, now)
    {
      if IsDaySelected(a, DayOfWeek(DayOf(t))) && t > now {
        return Some(t);
      }
      t, day, fuel := t + DAY_MS, day + 1, fuel - 1;
      assert t == Candidate(a, day);
    }
    if AnyDaySelected(a) {
      ScanCovers(a, now);
    }
    return None;
  }
}
