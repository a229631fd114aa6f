/**
 * AlarmReceiver.onReceive: what happens when the alarm service delivers an alarm's broadcast.
 * The coroutine that loads the record runs here in sequence after the notification.
 */
module AlarmReceiver {
  import opened Wrappers
  import opened Alarms
  import opened Storage
  import opened Scheduling

  const INVALID_ID: int := -1
  const DEFAULT_LABEL: string := "Alarm"

  /** The extras of the delivered broadcast; either may be missing. */
  datatype FireIntent = FireIntent(alarmId: Option<int>, alarmLabel: Option<string>)

  /** What the receiver does that is seen outside it, in the order it does it. */
  datatype Event =
    | Notified(id: int, text: string)    // showNotification(id, label)
    | Loaded(id: int)                    // repository.getAlarmById
    | Persisted(alarm: Alarm)            // repository.update
    | Rescheduled(id: int, outcome: ScheduleOutcome)  // scheduler.schedule and how it ended

  /** getIntExtra(ALARM_ID, -1). */
  function FiredId(intent: FireIntent): (id: int)
    ensures intent.alarmId.None? ==> id == INVALID_ID
    ensures intent.alarmId.Some? ==> id == intent.alarmId.value
  {
    intent.alarmId.GetOr(INVALID_ID)
  }

  /** getStringExtra(ALARM_LABEL) ?: "Alarm". */
  function FiredLabel(intent: FireIntent): (text: string)
    ensures intent.alarmLabel.None? ==> text == DEFAULT_LABEL
    ensures intent.alarmLabel.Some? ==> text == intent.alarmLabel.value
  {
    intent.alarmLabel.GetOr(DEFAULT_LABEL)
  }

  method OnReceive(intent: FireIntent, repo: AlarmRepository, scheduler: AlarmScheduler, now: int, exactAllowed: bool)
    returns (events: seq<Event>)
    requires repo.Valid()
    modifies repo, scheduler
    ensures repo.Valid()
    // An invalid id ends the handler before anything else happens.
    ensures FiredId(intent) == INVALID_ID ==>
      events == [] && repo.records == old(repo.records) && scheduler.registrations == old(scheduler.registrations)
    // A valid id: one notification, before the record is looked up.
    ensures FiredId(intent) != INVALID_ID ==>
      |events| >= 2 && events[0] == Notified(FiredId(intent), FiredLabel(intent)) && events[1] == Loaded(FiredId(intent))
    ensures forall i :: 1 <= i < |events| ==> !events[i].Notified?
    // The record is gone: nothing written, nothing registered.
    ensures FiredId(intent) != INVALID_ID && FiredId(intent) !in old(repo.records) ==>
      |events| == 2 && repo.records == old(repo.records) && scheduler.registrations == old(scheduler.registrations)
    // Recurring and enabled: scheduled again, the record untouched.
    ensures var id := FiredId(intent);
      id != INVALID_ID && id in old(repo.records) && old(repo.records)[id].isRecurring && old(repo.records)[id].isEnabled ==>
        && |events| == 3 && events[2].Rescheduled?
        && events == [Notified(id, FiredLabel(intent)), Loaded(id), Rescheduled(id, events[2].outcome)]
        && repo.records == old(repo.records)
        && scheduler.registrations == ScheduleEffect(old(scheduler.registrations), old(repo.records)[id], now, exactAllowed)
    // ... and `schedule` hangs for a degenerate alarm, is refused without permission, or registers.
    ensures var id := FiredId(intent);
      id != INVALID_ID && id in old(repo.records) && old(repo.records)[id].isRecurring && old(repo.records)[id].isEnabled ==>
        && |events| == 3 && events[2].Rescheduled?
        && (Degenerate(old(repo.records)[id]) ==> events[2].outcome == NeverReturns)
        && (!Degenerate(old(repo.records)[id]) && !exactAllowed ==> events[2].outcome == PermissionDenied)
        && (!Degenerate(old(repo.records)[id]) && exactAllowed ==>
              id in scheduler.registrations && events[2].outcome == Scheduled(scheduler.registrations[id]))
    // One-shot and enabled: disabled and saved, nothing registered.
    ensures var id := FiredId(intent);
      id != INVALID_ID && id in old(repo.records) && !old(repo.records)[id].isRecurring && old(repo.records)[id].isEnabled ==>
        && events == [Notified(id, FiredLabel(intent)), Loaded(id), Persisted(old(repo.records)[id].(isEnabled := false))]
        && repo.records == old(repo.records)[id := old(repo.records)[id].(isEnabled := false)]
        && scheduler.registrations == old(scheduler.registrations)
    // Disabled when loaded: nothing changes.
    ensures var id := FiredId(intent);
      id != INVALID_ID && id in old(repo.records) && !old(repo.records)[id].isEnabled ==>
        && |events| == 2
        && repo.records == old(repo.records)
        && scheduler.registrations == old(scheduler.registrations)
  {
    var alarmId := FiredId(intent);
    var alarmLabel := FiredLabel(intent);
    if alarmId == INVALID_ID {
      return [];
    }
    events := [Notified(alarmId, alarmLabel)];
    var loaded := repo.GetAlarmById(alarmId);
    events := events + [Loaded(alarmId)];
    if loaded.Some? {
      var alarm := loaded.value;
      if alarm.isRecurring && alarm.isEnabled {
        var outcome := scheduler.Schedule(alarm, now, exactAllowed);
        events := events + [Rescheduled(alarmId, outcome)];
      } else if !alarm.isRecurring && alarm.isEnabled {
        alarm := alarm.(isEnabled := false);
        repo.Update(alarm);
        events := events + [Persisted(alarm)];
      }
    }
  }
}
