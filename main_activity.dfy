/** The two places in MainActivity that drive the scheduler: the list's toggle and the list observer. */
module MainActivity {
  import opened Wrappers
  import opened Alarms
  import opened Storage
  import opened Scheduling

  /**
   * The adapter's onAlarmToggled callback: store the new enabled flag, then schedule or
   * cancel. Returns the alarm as updated and, when it was enabled, what `schedule` ended in
   * (NeverReturns: the call hangs, and with it the main thread).
   */
  method OnAlarmToggled(alarm: Alarm, isEnabled: bool, repo: AlarmRepository, scheduler: AlarmScheduler, now: int, exactAllowed: bool)
    returns (toggled: Alarm, outcome: Option<ScheduleOutcome>)
    requires repo.Valid()
    modifies repo, scheduler
    ensures toggled == alarm.(isEnabled := isEnabled)
    ensures repo.Valid()
    ensures repo.records == if alarm.id in old(repo.records) then old(repo.records)[alarm.id := toggled] else old(repo.records)
    ensures isEnabled ==> scheduler.registrations == ScheduleEffect(old(scheduler.registrations), toggled, now, exactAllowed)
    ensures !isEnabled ==> scheduler.registrations == old(scheduler.registrations) - {alarm.id}
    ensures !isEnabled <==> outcome.None?
    ensures isEnabled && Degenerate(toggled) ==> outcome == Some(NeverReturns)
    ensures isEnabled && !Degenerate(toggled) && !exactAllowed ==> outcome == Some(PermissionDenied)
    ensures isEnabled && exactAllowed && !Degenerate(toggled) ==>
      alarm.id in scheduler.registrations && IsNextTrigger(toggled, now, scheduler.registrations[alarm.id])
      && outcome == Some(Scheduled(scheduler.registrations[alarm.id]))
    ensures exactAllowed && InSync(old(repo.records), old(scheduler.registrations)) ==>
      InSync(repo.records, scheduler.registrations)
  {
    toggled := alarm.(isEnabled := isEnabled);
    repo.Update(toggled);
    if isEnabled {
      var scheduled := scheduler.Schedule(toggled, now, exactAllowed);
      outcome := Some(scheduled);
    } else {
      scheduler.Cancel(toggled);
      outcome := None;
    }
    if exactAllowed && InSync(old(repo.records), old(scheduler.registrations)) {
      ToggleKeepsInSync(old(repo.records), old(scheduler.registrations), toggled, now);
    }
  }

  /** Storing an alarm and then scheduling or cancelling it by its flag keeps storage and registrations in step. */
  lemma ToggleKeepsInSync(records: map<int, Alarm>, regs: map<int, int>, toggled: Alarm, now: int)
    requires InSync(records, regs)
    ensures var records' := if toggled.id in records then records[toggled.id := toggled] else records;
      InSync(records', if toggled.isEnabled then ScheduleEffect(regs, toggled, now, true) else regs - {toggled.id})
  {
    var records' := if toggled.id in records then records[toggled.id := toggled] else records;
    var regs' := if toggled.isEnabled then ScheduleEffect(regs, toggled, now, true) else regs - {toggled.id};
    forall id | id in records'
      ensures records'[id].isEnabled && !Degenerate(records'[id]) ==> id in regs'
      ensures !records'[id].isEnabled ==> id !in regs'
    {
      if id != toggled.id {
        assert records'[id] == records[id];
      }
    }
  }

  /**
   * observeAlarms' observer: on each emission of the alarm list, schedule every enabled
   * alarm. A null emission does nothing.
   */
  method OnAlarmsChanged(emission: Option<seq<Alarm>>, scheduler: AlarmScheduler, now: int, exactAllowed: bool)
    modifies scheduler
    ensures emission.None? ==> scheduler.registrations == old(scheduler.registrations)
    ensures emission.Some? ==> scheduler.registrations == Rearm(old(scheduler.registrations), emission.value, now, exactAllowed)
  {
    if emission.Some? {
      scheduler.ScheduleAllEnabled(emission.value, now, exactAllowed);
    }
  }
}
