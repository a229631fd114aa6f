# Simple Alarms: scheduling core

This Dafny project models the scheduling logic of the Simple Alarms Android app. It covers four
parts:

- the trigger calculator, which finds the next instant an alarm is due;
- the registration table that the app keeps with the platform's alarm service (schedule and
  cancel, keyed by alarm id);
- what happens when an alarm fires (`AlarmReceiver.onReceive`);
- the two bulk paths that re-register enabled alarms (boot recovery and the main list's
  observer), plus the list's enable toggle.

Time is a count of milliseconds in local time. Day `d` is the local day `d` days after the epoch
(`DayOf(t) = t / DAY_MS`, floor division). Days of the week use `java.util.Calendar`'s
numbering, Sunday = 1 to Saturday = 7, with day 0 a Thursday. An alarm's occurrence on day `d` is
`d * DAY_MS + hour * HOUR_MS + minute * MINUTE_MS` (`Alarms.Candidate`).

Files:

| file | module | models |
|---|---|---|
| `clock.dfy` | `Clock` | calendar arithmetic (`DAY_OF_WEEK`, `HOUR_OF_DAY`, `MINUTE`) |
| `alarm.dfy` | `Alarms` | the `Alarm` entity, day flags, occurrences, and the definition of "next trigger" |
| `trigger.dfy` | `Trigger` | `getNextTriggerTimeInMillis` and a reference definition it is proved against |
| `scheduler.dfy` | `Scheduling` | `AlarmScheduler.schedule` / `cancel` over the registration table, and the reschedule-all loop |
| `format.dfy` | `TimeFormat` | the hour/minute/AM-PM part of `formatTime` |
| `store.dfy` | `Storage` | the alarm table (get, update, list) |
| `alarm_receiver.dfy` | `AlarmReceiver` | `AlarmReceiver.onReceive` |
| `boot_receiver.dfy` | `BootCompletedReceiver` | `BootCompletedReceiver.onReceive` |
| `main_activity.dfy` | `MainActivity` | `onAlarmToggled` and the `observeAlarms` observer |
| `wrappers.dfy` | `Wrappers` | `Option` for nullable values |

Central definitions:

- `Alarms.IsNextTrigger(a, now, t)` is the meaning of "next trigger":
  - `t` is an occurrence of the alarm's hour and minute on an eligible day, strictly after `now`;
  - no eligible occurrence after `now` is earlier.
  - An eligible day is any day for a one-shot alarm (not recurring, no day flags). Otherwise it
    is a day whose weekday flag is set.
- An alarm is *degenerate* when it is recurring but has no day flag set. For such an alarm the
  source's last loop never ends.
- `Trigger.NextTrigger` follows the source's three branches:
  - the one-shot branch;
  - the scan over offsets 0..7 (eight days);
  - the `while (true)` fallback, bounded by a fuel parameter.
- `NextTrigger` returns None exactly for degenerate alarms, whatever the fuel. Otherwise it
  returns the unique `t` with `IsNextTrigger`.
- `Scheduling.ScheduleOutcome.NeverReturns` stands for that non-termination. The loops that
  schedule many alarms stop at such an alarm, because the source never gets past it.
- The single-alarm callers report it too. The toggle returns `Some(NeverReturns)` for an enabled
  degenerate alarm; in the source this hangs the main thread. The fire handler's `Rescheduled`
  event carries `NeverReturns`; in the source this hangs its coroutine. Nothing follows
  `schedule` in either caller, so the model's state after the call is the state at the hang.

## Model

| member | source | states |
|---|---|---|
| `Trigger.NextTrigger` | app/src/main/java/com/example/simplealarms/AlarmScheduler.kt:81-134 | Gives a result exactly when the alarm is not degenerate, and that result is its next trigger: strictly after `now`, on an eligible day, at the alarm's hour and minute with seconds and milliseconds zero, and no eligible occurrence after `now` is earlier. A one-shot alarm gets today's occurrence if it is after `now`, otherwise that occurrence plus one day. |
| `Trigger.FirstQualifying` | app/src/main/java/com/example/simplealarms/AlarmScheduler.kt:93-114 | Searching days `d..d+n` in increasing order gives a qualifying occurrence within the window, and it is no later than any qualifying occurrence in the window. |
| `Trigger.NextOccurrenceCorrect` | app/src/main/java/com/example/simplealarms/AlarmScheduler.kt:84-114 | The reference search over the week from today gives a trigger iff the alarm is not degenerate, and that trigger satisfies `IsNextTrigger`. |
| `Trigger.OneShotNextOccurrence` | app/src/main/java/com/example/simplealarms/AlarmScheduler.kt:84-89 | For a one-shot alarm the reference result is today's occurrence if it is strictly after `now`, else tomorrow's. |
| `Alarms.ScanCovers` | app/src/main/java/com/example/simplealarms/AlarmScheduler.kt:93-114 | With any day flag set, some day among today..today+7 qualifies. So the offset scan always returns and the fallback loop is never reached. |
| `Alarms.DegenerateNeverQualifies` | app/src/main/java/com/example/simplealarms/AlarmScheduler.kt:116-133 | A recurring alarm with no flag has no qualifying day at all, so the fallback loop never returns. |
| `Alarms.NextTriggerUnique` | app/src/main/java/com/example/simplealarms/AlarmScheduler.kt:81-134 | For one alarm and one `now`, at most one instant is the next trigger, so the calculation is deterministic. |
| `Alarms.PastDays` | app/src/main/java/com/example/simplealarms/AlarmScheduler.kt:33-39 | Every day before `now`'s day has its occurrence at or before `now`, so starting the scan at today misses nothing. |
| `Alarms.Candidate` | app/src/main/java/com/example/simplealarms/AlarmScheduler.kt:33-39 | Day `d`'s occurrence lies on day `d`, reads back as the alarm's hour and minute, and has zero seconds and milliseconds. |
| `Alarms.TimeOfDay` | app/src/main/java/com/example/simplealarms/AlarmScheduler.kt:35-38 | The offset from midnight is within one day and a whole number of minutes. |
| `Clock.DayOfWeek` | app/src/main/java/com/example/simplealarms/AlarmScheduler.kt:91 | The day of the week is in Sunday = 1 .. Saturday = 7; day 0 is a Thursday. |
| `Clock.WeekCovers` | app/src/main/java/com/example/simplealarms/AlarmScheduler.kt:93-107 | Every day of the week occurs among any seven consecutive days. |
| `Clock.InstantParts` | app/src/main/java/com/example/simplealarms/AlarmScheduler.kt:33-39 | Hour `h`, minute `m` on day `d` reads back as day `d`, `h` o'clock, minute `m`, second 0. |
| `Scheduling.AlarmScheduler.Schedule` | app/src/main/java/com/example/simplealarms/AlarmScheduler.kt:16-79 | A disabled alarm leaves the table unchanged. A degenerate one never returns. Without exact-alarm permission the table is unchanged. Otherwise the alarm's id maps to its next trigger, replacing any earlier registration, and other ids are untouched. |
| `Scheduling.ScheduleEffect` | app/src/main/java/com/example/simplealarms/AlarmScheduler.kt:27-32 | The table after scheduling: other ids keep their entries. The alarm's id is registered at its next trigger when the alarm is enabled, permitted and not degenerate. Otherwise the table is unchanged. |
| `Scheduling.ScheduleIdempotent` | app/src/main/java/com/example/simplealarms/AlarmScheduler.kt:27-32 | Scheduling the same alarm twice from the same moment equals scheduling it once. |
| `Scheduling.AlarmScheduler.Cancel` | app/src/main/java/com/example/simplealarms/AlarmScheduler.kt:137-149 | The alarm's id has no registration afterwards and other ids are untouched. Cancelling an unregistered id changes nothing. |
| `Scheduling.CancelUndoesSchedule` | app/src/main/java/com/example/simplealarms/AlarmScheduler.kt:137-146 | Cancelling after scheduling leaves the table as cancelling alone would. |
| `Scheduling.Rearm` | app/src/main/java/com/example/simplealarms/BootCompletedReceiver.kt:26-29 | The table after the filter-then-schedule walk (also MainActivity.kt lines 120-121): no registration is ever removed, and each new id belongs to an enabled alarm of the list. |
| `Alarms.IsDaySelected` | app/src/main/java/com/example/simplealarms/AlarmScheduler.kt:98-107 | The flag for a Calendar day of the week (the same `when` as lines 119-128). Only 1..7 can match, and a match needs some day flag set. |
| `TimeFormat.PeriodOf` | app/src/main/java/com/example/simplealarms/AlarmScheduler.kt:156 | AM exactly for the hours before noon. |
| `AlarmReceiver.FiredId` | app/src/main/java/com/example/simplealarms/AlarmReceiver.kt:24 | A missing id extra reads as -1; a present one reads as itself. |
| `AlarmReceiver.FiredLabel` | app/src/main/java/com/example/simplealarms/AlarmReceiver.kt:25 | A missing label extra reads as "Alarm"; a present one reads as itself. |
| `BootCompletedReceiver.IsBootAction` | app/src/main/java/com/example/simplealarms/BootCompletedReceiver.kt:14-15 | A missing intent or action never acts; only BOOT_COMPLETED and QUICKBOOT_POWERON do. |
| `Scheduling.AlarmScheduler.ScheduleAllEnabled` | app/src/main/java/com/example/simplealarms/BootCompletedReceiver.kt:26-29 | The filter-then-schedule loop leaves the table as `Rearm` describes: each enabled alarm is scheduled in list order, and the loop stops at a degenerate enabled alarm. |
| `Scheduling.RearmRegistersEnabled` | app/src/main/java/com/example/simplealarms/BootCompletedReceiver.kt:24-29 | With permission, distinct ids and no degenerate enabled alarm, every enabled alarm of the list is registered at its next trigger. |
| `Scheduling.RearmFrame` | app/src/main/java/com/example/simplealarms/BootCompletedReceiver.kt:26 | An id that belongs to no enabled alarm of the list keeps its registration or its absence, so disabled alarms are never scheduled. |
| `Scheduling.RearmWithoutPermission` | app/src/main/java/com/example/simplealarms/AlarmScheduler.kt:53-56 | Without permission the loop registers nothing. |
| `Scheduling.RearmOverrides` | app/src/main/java/com/example/simplealarms/MainActivity.kt:120-121 | Rescheduling a list overrides the old table with the loop's registrations and keeps every other entry. |
| `Scheduling.RearmIdempotent` | app/src/main/java/com/example/simplealarms/MainActivity.kt:117-122 | Handling the same emission twice leaves the table as handling it once. |
| `TimeFormat.FormatTime` | app/src/main/java/com/example/simplealarms/AlarmScheduler.kt:151-157 | The displayed hour is in 1..12 and the minute in 0..59. The period is AM iff the hour of day is below 12. The reading converts back to the instant's hour of day and minute. |
| `TimeFormat.DisplayHour` | app/src/main/java/com/example/simplealarms/AlarmScheduler.kt:157 | The displayed hour is in 1..12. |
| `TimeFormat.TwelveHourRoundTrip` | app/src/main/java/com/example/simplealarms/AlarmScheduler.kt:156-157 | The hour of day is recovered from its 12-hour reading: 0 reads as 12 AM, 12 as 12 PM. AM holds exactly for the hours before noon. |
| `TimeFormat.TwelveHourReadingRoundTrip` | app/src/main/java/com/example/simplealarms/AlarmScheduler.kt:156-157 | Every reading with a displayed hour in 1..12 is the reading of exactly one hour of day. |
| `TimeFormat.FormatOfTrigger` | app/src/main/java/com/example/simplealarms/AlarmScheduler.kt:51 | The logged time of a computed trigger reads as the alarm's own hour and minute. |
| `AlarmReceiver.OnReceive` | app/src/main/java/com/example/simplealarms/AlarmReceiver.kt:22-47 | A missing or -1 id does nothing. A missing label becomes "Alarm". A valid id gives one notification, before the record lookup, even for a deleted record. A missing record writes and registers nothing. A recurring enabled alarm is scheduled again with storage untouched. The `Rescheduled` event records how `schedule` ended: `NeverReturns` for a degenerate alarm (the coroutine hangs), `PermissionDenied` without permission, otherwise `Scheduled` at the new registration. A one-shot enabled alarm is stored disabled and not registered, whatever its day flags. An alarm already disabled changes nothing. |
| `BootCompletedReceiver.OnReceive` | app/src/main/java/com/example/simplealarms/BootCompletedReceiver.kt:13-32 | Only BOOT_COMPLETED and QUICKBOOT_POWERON act. Storage is only read. Ids without an enabled alarm keep their registration state. With permission, every enabled alarm is registered at its next trigger, and an emptied table is brought in sync with storage. |
| `MainActivity.OnAlarmToggled` | app/src/main/java/com/example/simplealarms/MainActivity.kt:100-108 | The alarm is stored with the new flag. Enabling schedules it, so it is registered at its next trigger when permitted. The returned outcome is `NeverReturns` for a degenerate alarm (the main thread hangs), `PermissionDenied` without permission, and `Scheduled` at the registration otherwise; disabling returns no outcome. Disabling cancels it, so it has no registration. With permission, storage and registrations stay in sync. |
| `MainActivity.ToggleKeepsInSync` | app/src/main/java/com/example/simplealarms/MainActivity.kt:101-107 | Storing the toggled alarm, then scheduling or cancelling it, keeps "enabled ⇒ registered, disabled ⇒ not registered". |
| `MainActivity.OnAlarmsChanged` | app/src/main/java/com/example/simplealarms/MainActivity.kt:116-125 | A null emission changes nothing. Otherwise every enabled alarm of the list is scheduled and disabled ones are skipped, as `Rearm` describes. |
| `Storage.AlarmRepository.GetAlarmById` | app/src/main/java/com/example/simplealarms/AlarmDao.kt:20-21 | Returns the row with that id, or nothing when there is none. |
| `Storage.AlarmRepository.Update` | app/src/main/java/com/example/simplealarms/AlarmDao.kt:11-12 | Rewrites the row with the alarm's id. An alarm with no row changes nothing. |
| `Storage.AlarmRepository.GetAllAlarmsBlocking` | app/src/main/java/com/example/simplealarms/AlarmDao.kt:23-24 | Lists every row exactly once. |

## Left out

- Time zones, daylight-saving changes and `java.util.Calendar`'s lenient fields: a day is exactly 86,400,000 ms of local time.
- The source reads `System.currentTimeMillis()` several times during one scheduling (AlarmScheduler.kt lines 34, 85, 110 and 129). The model uses one `now` for all of them.
- Trigger.NextTrigger: the source's `while (true)` fallback is unbounded. The model gives up after `fallbackDays` days and returns None. This changes no result: the fallback runs only for degenerate alarms, where it can never return.
- Permission is one boolean input. It stands for `canScheduleExactAlarms()` on Android 12+ and for a `SecurityException` thrown by `setExact*`. The Android version branches, `setExact` and `setExactAndAllowWhileIdle` all register the same way.
- Intent and PendingIntent construction, Toast and Log messages, and the date text of `formatTime` (`String.format`) are not modelled.
- A registration holds only its due instant, not its label payload.
- Notification drawing and channels (`showNotification`) appear only as a `Notified` event.
- The platform delivering a registration (and so consuming it) is not part of this model.
- `CoroutineScope(Dispatchers.IO).launch` runs each handler's body in the background. The model runs it in sequence, so races between a fire and a concurrent toggle are not covered.
- The model treats the `Alarm` object that Kotlin mutates in place (`isEnabled = false`, the toggle) as a value. Aliasing with the adapter's list is not represented.
- The Room DAO, LiveData and the ViewModel are a map-backed repository. `GetAllAlarmsBlocking` returns the rows in an unspecified order.
- Insert and delete are not modelled, because the scheduling code never calls them.
- The unused locals `today` and `dayToCheck` in `getNextTriggerTimeInMillis` have no counterpart.
- Permission prompts and RecyclerView setup in `MainActivity` are UI only and are not modelled.
- The scan covers offsets 0..7 inclusive, eight days. Offset 7 is today's weekday one week later; the model keeps that offset.
- The bulk loops (boot recovery and the list observer) schedule every alarm of the list at the one `now` the model is given. The source reads the clock again inside each `schedule` call of the `forEach` (BootCompletedReceiver.kt line 27, MainActivity.kt line 121). `RearmRegistersEnabled` and `RearmIdempotent` are stated for that shared `now`.
