/**
 * The 12-hour clock reading that AlarmScheduler.formatTime puts in its log lines and toasts
 * (the hour, minute and AM/PM part; the rendering of the date into text is not modelled).
 */
module TimeFormat {
  import opened Clock
  import opened Alarms

  datatype Period = AM | PM

  /** The clock reading of an instant: 12-hour hour, minute, and period. */
  datatype ClockReading = ClockReading(displayHour: int, minute: int, period: Period)

  /** AM for the hours before noon, PM from noon on. */
  function PeriodOf(hour: Hour): (p: Period)
    ensures p == AM <==> hour < 12
  {
    if hour < 12 then AM else PM
  }

  /** Midnight and noon both read 12. */
  function DisplayHour(hour: Hour): (h: int)
    ensures 1 <= h <= 12
  {
    if hour == 0 || hour == 12 then 12 else hour % 12
  }

  /** Inverse of the 12-hour reading: back to the hour of the day. */
  function HourOfReading(displayHour: int, period: Period): int {
    match period
    case AM => if displayHour == 12 then 0 else displayHour
    case PM => if displayHour == 12 then 12 else displayHour + 12
  }

  /** formatTime's hour, minute and period for an instant. */
  function FormatTime(t: int): (c: ClockReading)
    ensures 1 <= c.displayHour <= 12 && 0 <= c.minute < 60
    ensures c.period == AM <==> HourOfDay(t) < 12
    ensures HourOfReading(c.displayHour, c.period) == HourOfDay(t)
    ensures c.minute == MinuteOfHour(t)
  {
    var hour := HourOfDay(t);
    TwelveHourRoundTrip(hour);
    ClockReading(DisplayHour(hour), MinuteOfHour(t), PeriodOf(hour))
  }

  /** The hour of the day is recovered from its 12-hour reading; AM is exactly the hours before noon. */
  lemma TwelveHourRoundTrip(hour: Hour)
    ensures HourOfReading(DisplayHour(hour), PeriodOf(hour)) == hour
    ensures PeriodOf(hour) == AM <==> hour < 12
  {
  }

  /** Every 12-hour reading is the reading of exactly the hour HourOfReading gives back. */
  lemma TwelveHourReadingRoundTrip(displayHour: int, period: Period)
    requires 1 <= displayHour <= 12
    ensures 0 <= HourOfReading(displayHour, period) < 24
    ensures DisplayHour(HourOfReading(displayHour, period)) == displayHour
    ensures PeriodOf(HourOfReading(displayHour, period)) == period
  {
  }

  /** A trigger instant reads as the alarm's own hour and minute. */
  lemma FormatOfTrigger(a: Alarm, now: int, t: int)
    requires IsNextTrigger(a, now, t)
    ensures HourOfReading(FormatTime(t).displayHour, FormatTime(t).period) == a.hour
    ensures FormatTime(t).minute == a.minute
  {
  }
}
