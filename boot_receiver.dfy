/** BootCompletedReceiver.onReceive: registrations do not survive a restart, so re-register. */
module BootCompletedReceiver {
  import opened Wrappers
  import opened Alarms
  import opened Storage
  import opened Scheduling

  const ACTION_BOOT_COMPLETED: string := "android.intent.action.BOOT_COMPLETED"
  const ACTION_QUICKBOOT_POWERON: string := "android.intent.action.QUICKBOOT_POWERON"

  /** The broadcast actions the receiver acts on; a missing intent or action is None. */
  predicate IsBootAction(action: Option<string>): (acts: bool)
    ensures action.None? ==> !acts
    ensures acts ==> action.value == ACTION_BOOT_COMPLETED || action.value == ACTION_QUICKBOOT_POWERON
  {
    action == Some(ACTION_BOOT_COMPLETED) || action == Some(ACTION_QUICKBOOT_POWERON)
  }

  /**
   * Returns the rows it read from storage (in the order storage listed them) when the action
   * is a boot action, None otherwise.
   */
  method OnReceive(action: Option<string>, repo: AlarmRepository, scheduler: AlarmScheduler, now: int, exactAllowed: bool)
    returns (listing: Option<seq<Alarm>>)
    requires repo.Valid()
    modifies scheduler
    ensures listing.Some? <==> IsBootAction(action)
    ensures listing.None? ==> scheduler.registrations == old(scheduler.registrations)
    ensures listing.Some? ==>
      && IsListing(listing.value, repo.records)
      && scheduler.registrations == Rearm(old(scheduler.registrations), listing.value, now, exactAllowed)
    // Ids without an enabled alarm keep their registration, or their lack of one.
    ensures forall id :: !(id in repo.records && repo.records[id].isEnabled) ==>
      && (id in scheduler.registrations <==> id in old(scheduler.registrations))
      && (id in scheduler.registrations ==> scheduler.registrations[id] == old(scheduler.registrations)[id])
    // With permission, every enabled alarm is registered at its next trigger.
    ensures IsBootAction(action) && exactAllowed && NoDegenerateEnabled(repo.records) ==>
      forall id :: id in repo.records && repo.records[id].isEnabled ==>
        id in scheduler.registrations && IsNextTrigger(repo.records[id], now, scheduler.registrations[id])
    // After a restart the table starts empty; recovery brings it in step with storage.
    ensures IsBootAction(action) && exactAllowed && NoDegenerateEnabled(repo.records) && old(scheduler.registrations) == map[] ==>
      InSync(repo.records, scheduler.registrations)
  {
    if !IsBootAction(action) {
      return None;
    }
    var alarms := repo.GetAllAlarmsBlocking();
    scheduler.ScheduleAllEnabled(alarms, now, exactAllowed);
    listing := Some(alarms);
    forall id | !(id in repo.records && repo.records[id].isEnabled)
      ensures id in scheduler.registrations <==> id in old(scheduler.registrations)
      ensures id in scheduler.registrations ==> scheduler.registrations[id] == old(scheduler.registrations)[id]
    {
      RearmFrame(old(scheduler.registrations), alarms, now, exactAllowed, id);
    }
    if exactAllowed && NoDegenerateEnabled(repo.records) {
      RearmRegistersEnabled(old(scheduler.registrations), alarms, now);
      forall id | id in repo.records && repo.records[id].isEnabled
        ensures id in scheduler.registrations && IsNextTrigger(repo.records[id], now, scheduler.registrations[id])
      {
        var i :| 0 <= i < |alarms| && alarms[i] == repo.records[id];
      }
    }
  }
}
