/**
 * The alarm record and the calendar facts the scheduler derives from it: the instant the
 * alarm's time of day falls at on a given day, and whether a day is one of its selected
 * days of the week.
 */
module Alarms {
  import opened Clock

  type Hour = h: int | 0 <= h < 24
  type Minute = m: int | 0 <= m < 60

  /** One stored alarm (the Room entity `Alarm`). */
  datatype Alarm = Alarm(
    id: int,
    hour: Hour,
    minute: Minute,
    isRecurring: bool,
    monday: bool,
    tuesday: bool,
    wednesday: bool,
    thursday: bool,
    friday: bool,
    saturday: bool,
    sunday: bool,
    isEnabled: bool,
    labelText: string,  // `label` in the source; the word is reserved in Dafny
    createdTimestamp: int)

  predicate AnyDaySelected(a: Alarm) {
    a.monday || a.tuesday || a.wednesday || a.thursday || a.friday || a.saturday || a.sunday
  }

  /** Fires once at the next occurrence of its time of day, whatever the day of the week. */
  predicate OneShot(a: Alarm) {
    !a.isRecurring && !AnyDaySelected(a)
  }

  /** Recurring without a single selected day: no day ever matches. */
  predicate Degenerate(a: Alarm) {
    a.isRecurring && !AnyDaySelected(a)
  }

  /** The day flag for a Calendar.DAY_OF_WEEK value; false for a value outside 1..7. */
  predicate IsDaySelected(a: Alarm, dayOfWeek: int): (selected: bool)
    ensures selected ==> SUNDAY <= dayOfWeek <= SATURDAY && AnyDaySelected(a)
  {
    if dayOfWeek == MONDAY then a.monday
    else if dayOfWeek == TUESDAY then a.tuesday
    else if dayOfWeek == WEDNESDAY then a.wednesday
    else if dayOfWeek == THURSDAY then a.thursday
    else if dayOfWeek == FRIDAY then a.friday
    else if dayOfWeek == SATURDAY then a.saturday
    else if dayOfWeek == SUNDAY then a.sunday
    else false
  }

  /** Milliseconds from midnight to the alarm's hour:minute:00.000. */
  function TimeOfDay(a: Alarm): (ms: int)
    ensures 0 <= ms < DAY_MS && ms % MINUTE_MS == 0
  {
    a.hour * HOUR_MS + a.minute * MINUTE_MS
  }

  /** The instant of day d at the alarm's hour and minute, seconds and milliseconds zero. */
  function Candidate(a: Alarm, d: int): (t: int)
    ensures DayOf(t) == d
    ensures HourOfDay(t) == a.hour && MinuteOfHour(t) == a.minute
    ensures t % MINUTE_MS == 0
  {
    InstantParts(d, a.hour, a.minute);
    d * DAY_MS + TimeOfDay(a)
  }

  /** Day d's day of the week is one the alarm fires on (a one-shot alarm fires on any day). */
  predicate Eligible(a: Alarm, d: int) {
    OneShot(a) || IsDaySelected(a, DayOfWeek(d))
  }

  /** Day d's occurrence of the alarm may be its next trigger seen from `now`. */
  predicate Qualifies(a: Alarm, d: int, now: int) {
    Eligible(a, d) && Candidate(a, d) > now
  }

  /**
   * t is the alarm's next trigger seen from `now`: an occurrence of its hour and minute on an
   * eligible day, strictly after `now`, and no earlier than any other such occurrence.
   */
  ghost predicate IsNextTrigger(a: Alarm, now: int, t: int) {
    && t == Candidate(a, DayOf(t))
    && Qualifies(a, DayOf(t), now)
    && forall d :: Qualifies(a, d, now) ==> t <= Candidate(a, d)
  }

  /** Every day before the day of `now` has its occurrence at or before `now`. */
  lemma PastDays(a: Alarm, d: int, now: int)
    requires d < DayOf(now)
    ensures Candidate(a, d) <= now
  {
  }

  /** Seen from the same `now`, an alarm has at most one next trigger. */
  lemma NextTriggerUnique(a: Alarm, now: int, t1: int, t2: int)
    requires IsNextTrigger(a, now, t1) && IsNextTrigger(a, now, t2)
    ensures t1 == t2
  {
  }

  /** An alarm with at least one selected day has a qualifying day within the eight days from today. */
  lemma ScanCovers(a: Alarm, now: int)
    requires AnyDaySelected(a)
    ensures exists d :: DayOf(now) <= d < DayOf(now) + 8 && Qualifies(a, d, now)
  {
    var w :=
      if a.monday then MONDAY else if a.tuesday then TUESDAY else if a.wednesday then WEDNESDAY
      else if a.thursday then THURSDAY else if a.friday then FRIDAY
      else if a.saturday then SATURDAY else SUNDAY;
    assert IsDaySelected(a, w);
    WeekCovers(DayOf(now) + 1, w);
    var d :| DayOf(now) + 1 <= d < DayOf(now) + 8 && DayOfWeek(d) == w;
    assert Qualifies(a, d, now);
  }

  /** A degenerate alarm has no eligible day at all: a search for one never ends. */
  lemma DegenerateNeverQualifies(a: Alarm, d: int, now: int)
    requires Degenerate(a)
    ensures !Qualifies(a, d, now)
  {
  }
}
