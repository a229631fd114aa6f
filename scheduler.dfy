/**
 * The registration table kept by the platform's alarm service, as seen through
 * AlarmScheduler.schedule and AlarmScheduler.cancel. A registration is keyed by the alarm id
 * (the PendingIntent request code) and holds the instant it is due, so registering an id
 * again replaces its previous registration.
 */
module Scheduling {
  import opened Wrappers
  import opened Clock
  import opened Alarms
  import opened Trigger

  /**
   * Days the calculator's last-resort scan looks ahead. The calculator's contract does not
   * depend on this bound: the scan only runs for degenerate alarms, and finds nothing for them.
   */
  const FALLBACK_DAYS: nat := 7

  /** What one call of `schedule` ended in. */
  datatype ScheduleOutcome =
    | Scheduled(at: int)   // registered with the alarm service, due at `at`
    | SkippedDisabled      // the alarm is disabled: nothing to do
    | PermissionDenied     // exact alarms are not allowed (no permission, or SecurityException)
    | NeverReturns         // degenerate alarm: the trigger calculation does not terminate

  /** The table after `schedule(alarm)`: the alarm's id now maps to its next trigger, if it got one. */
  function ScheduleEffect(regs: map<int, int>, alarm: Alarm, now: int, exactAllowed: bool): (r: map<int, int>)
    ensures forall id :: id != alarm.id ==> (id in r <==> id in regs) && (id in r ==> r[id] == regs[id])
    ensures alarm.isEnabled && exactAllowed && !Degenerate(alarm) ==>
      alarm.id in r && IsNextTrigger(alarm, now, r[alarm.id])
    ensures !(alarm.isEnabled && exactAllowed && !Degenerate(alarm)) ==> r == regs
  {
    NextOccurrenceCorrect(alarm, now);
    if alarm.isEnabled && exactAllowed then
      match NextOccurrence(alarm, now)
      case Some(t) => regs[alarm.id := t]
      case None => regs
    else
      regs
  }

  /**
   * The table after `alarms.filter { it.isEnabled }.forEach { schedule(it) }`. A degenerate
   * enabled alarm stops the walk: `schedule` never returns for it.
   */
  function Rearm(regs: map<int, int>, alarms: seq<Alarm>, now: int, exactAllowed: bool): (r: map<int, int>)
    ensures regs.Keys <= r.Keys
    ensures forall id :: id in r && id !in regs ==> exists i :: 0 <= i < |alarms| && alarms[i].id == id && alarms[i].isEnabled
    decreases |alarms|
  {
    if alarms == [] then regs
    else if !alarms[0].isEnabled then Rearm(regs, alarms[1..], now, exactAllowed)
    else if Degenerate(alarms[0]) then regs
    else Rearm(ScheduleEffect(regs, alarms[0], now, exactAllowed), alarms[1..], now, exactAllowed)
  }

  /** The registrations the walk of Rearm makes, later ones overriding earlier ones. */
  function RearmWrites(alarms: seq<Alarm>, now: int, exactAllowed: bool): map<int, int>
    decreases |alarms|
  {
    if alarms == [] then map[]
    else if !alarms[0].isEnabled then RearmWrites(alarms[1..], now, exactAllowed)
    else if Degenerate(alarms[0]) then map[]
    else ScheduleEffect(map[], alarms[0], now, exactAllowed) + RearmWrites(alarms[1..], now, exactAllowed)
  }

  predicate DistinctIds(alarms: seq<Alarm>) {
    forall i, j :: 0 <= i < j < |alarms| ==> alarms[i].id != alarms[j].id
  }

  /** Rearming overrides the old table with the walk's registrations and keeps the rest. */
  lemma {:induction false} RearmOverrides(regs: map<int, int>, alarms: seq<Alarm>, now: int, exactAllowed: bool)
    ensures Rearm(regs, alarms, now, exactAllowed) == regs + RearmWrites(alarms, now, exactAllowed)
    decreases |alarms|
  {
    if alarms == [] {
      assert regs + map[] == regs;
    } else if !alarms[0].isEnabled {
      RearmOverrides(regs, alarms[1..], now, exactAllowed);
    } else if Degenerate(alarms[0]) {
      assert regs + map[] == regs;
    } else {
      var a := alarms[0];
      var rest := RearmWrites(alarms[1..], now, exactAllowed);
      RearmOverrides(ScheduleEffect(regs, a, now, exactAllowed), alarms[1..], now, exactAllowed);
      assert ScheduleEffect(regs, a, now, exactAllowed) == regs + ScheduleEffect(map[], a, now, exactAllowed);
      assert (regs + ScheduleEffect(map[], a, now, exactAllowed)) + rest
          == regs + (ScheduleEffect(map[], a, now, exactAllowed) + rest);
    }
  }

  /** Handling the same list twice leaves the table as handling it once. */
  lemma RearmIdempotent(regs: map<int, int>, alarms: seq<Alarm>, now: int, exactAllowed: bool)
    ensures Rearm(Rearm(regs, alarms, now, exactAllowed), alarms, now, exactAllowed)
         == Rearm(regs, alarms, now, exactAllowed)
  {
    var w := RearmWrites(alarms, now, exactAllowed);
    RearmOverrides(regs, alarms, now, exactAllowed);
    RearmOverrides(regs + w, alarms, now, exactAllowed);
    assert (regs + w) + w == regs + w;
  }

  /** Ids that belong to no enabled alarm of the list keep their registration, or their lack of one. */
  lemma {:induction false} RearmFrame(regs: map<int, int>, alarms: seq<Alarm>, now: int, exactAllowed: bool, id: int)
    requires forall i :: 0 <= i < |alarms| && alarms[i].isEnabled ==> alarms[i].id != id
    ensures id in Rearm(regs, alarms, now, exactAllowed) <==> id in regs
    ensures id in regs ==> Rearm(regs, alarms, now, exactAllowed)[id] == regs[id]
    decreases |alarms|
  {
    if alarms != [] {
      if !alarms[0].isEnabled {
        RearmFrame(regs, alarms[1..], now, exactAllowed, id);
      } else if !Degenerate(alarms[0]) {
        RearmFrame(ScheduleEffect(regs, alarms[0], now, exactAllowed), alarms[1..], now, exactAllowed, id);
      }
    }
  }

  /** Without exact-alarm permission, rearming registers nothing. */
  lemma {:induction false} RearmWithoutPermission(regs: map<int, int>, alarms: seq<Alarm>, now: int)
    ensures Rearm(regs, alarms, now, false) == regs
    decreases |alarms|
  {
    if alarms != [] && (!alarms[0].isEnabled || !Degenerate(alarms[0])) {
      RearmWithoutPermission(regs, alarms[1..], now);
    }
  }

  /**
   * With permission, and no enabled alarm degenerate, every enabled alarm of the list ends up
   * registered at its next trigger.
   */
  lemma {:induction false} RearmRegistersEnabled(regs: map<int, int>, alarms: seq<Alarm>, now: int)
    requires DistinctIds(alarms)
    requires forall i :: 0 <= i < |alarms| && alarms[i].isEnabled ==> !Degenerate(alarms[i])
    ensures forall i :: 0 <= i < |alarms| && alarms[i].isEnabled ==>
      alarms[i].id in Rearm(regs, alarms, now, true)
      && IsNextTrigger(alarms[i], now, Rearm(regs, alarms, now, true)[alarms[i].id])
    decreases |alarms|
  {
    if alarms != [] {
      var a := alarms[0];
      var after := if a.isEnabled then ScheduleEffect(regs, a, now, true) else regs;
      assert Rearm(regs, alarms, now, true) == Rearm(after, alarms[1..], now, true);
      RearmRegistersEnabled(after, alarms[1..], now);
      if a.isEnabled {
        RearmFrame(after, alarms[1..], now, true, a.id);
      }
      forall i | 0 <= i < |alarms| && alarms[i].isEnabled
        ensures alarms[i].id in Rearm(regs, alarms, now, true)
        ensures IsNextTrigger(alarms[i], now, Rearm(regs, alarms, now, true)[alarms[i].id])
      {
        if i > 0 {
          assert alarms[i] == alarms[1..][i - 1];
        }
      }
    }
  }

  /** No enabled alarm in the table is degenerate (each has a day to fire on). */
  predicate NoDegenerateEnabled(records: map<int, Alarm>) {
    forall id :: id in records && records[id].isEnabled ==> !Degenerate(records[id])
  }

  /**
   * The stored alarms and the registration table agree: an enabled alarm that can fire is
   * registered, a disabled one is not.
   */
  ghost predicate InSync(records: map<int, Alarm>, regs: map<int, int>) {
    forall id :: id in records ==>
      && (records[id].isEnabled && !Degenerate(records[id]) ==> id in regs)
      && (!records[id].isEnabled ==> id !in regs)
  }

  class AlarmScheduler {
    /** Alarm id -> instant its registration is due. */
    var registrations: map<int, int>

    /** A freshly booted device: the alarm service holds no registrations. */
    constructor ()
      ensures registrations == map[]
    {
      registrations := map[];
    }

    /** AlarmScheduler.schedule. */
    method Schedule(alarm: Alarm, now: int, exactAllowed: bool) returns (outcome: ScheduleOutcome)
      modifies this
      ensures registrations == ScheduleEffect(old(registrations), alarm, now, exactAllowed)
      ensures !alarm.isEnabled ==> outcome == SkippedDisabled
      ensures alarm.isEnabled && Degenerate(alarm) ==> outcome == NeverReturns
      ensures alarm.isEnabled && !Degenerate(alarm) && !exactAllowed ==> outcome == PermissionDenied
      ensures alarm.isEnabled && !Degenerate(alarm) && exactAllowed ==>
        outcome == Scheduled(registrations[alarm.id]) && NextOccurrence(alarm, now) == Some(outcome.at)
    {
      if !alarm.isEnabled {
        return SkippedDisabled;
      }
      var next := Trigger.NextTrigger(alarm, now, FALLBACK_DAYS);
      if next.None? {
        return NeverReturns;
      }
      var t := next.value;
      NextOccurrenceCorrect(alarm, now);
      NextTriggerUnique(alarm, now, t, NextOccurrence(alarm, now).value);
      assert NextOccurrence(alarm, now) == Some(t);
      if !exactAllowed {
        return PermissionDenied;
      }
      assert ScheduleEffect(registrations, alarm, now, true) == registrations[alarm.id := t];
      registrations := registrations[alarm.id := t];
      outcome := Scheduled(t);
    }

    /** AlarmScheduler.cancel: drop the alarm's registration; no registration is no error. */
    method Cancel(alarm: Alarm)
      modifies this
      ensures registrations == old(registrations) - {alarm.id}
      ensures alarm.id !in registrations
      ensures forall id :: id != alarm.id ==> (id in registrations <==> id in old(registrations))
    {
      registrations := registrations - {alarm.id};
    }

    /**
     * `alarms.filter { it.isEnabled }.forEach { scheduler.schedule(it) }`, the loop that
     * BootCompletedReceiver and MainActivity.observeAlarms both run.
     */
    method ScheduleAllEnabled(alarms: seq<Alarm>, now: int, exactAllowed: bool)
      modifies this
      ensures registrations == Rearm(old(registrations), alarms, now, exactAllowed)
    {
      var i := 0;
      while i < |alarms|
        invariant 0 <= i <= |alarms|
        invariant Rearm(old(registrations), alarms, now, exactAllowed)
               == Rearm(registrations, alarms[i..], now, exactAllowed)
      {
        assert alarms[i..][1..] == alarms[i + 1..];
        if alarms[i].isEnabled {
          var outcome := Schedule(alarms[i], now, exactAllowed);
          if outcome == NeverReturns {
            return;
          }
        }
        i := i + 1;
      }
    }
  }

  /** Scheduling the same alarm twice from the same moment leaves what scheduling once does. */
  lemma ScheduleIdempotent(regs: map<int, int>, alarm: Alarm, now: int, exactAllowed: bool)
    ensures ScheduleEffect(ScheduleEffect(regs, alarm, now, exactAllowed), alarm, now, exactAllowed)
         == ScheduleEffect(regs, alarm, now, exactAllowed)
  {
  }

  /** Cancelling after scheduling leaves the table as cancelling alone would. */
  lemma CancelUndoesSchedule(regs: map<int, int>, alarm: Alarm, now: int, exactAllowed: bool)
    ensures ScheduleEffect(regs, alarm, now, exactAllowed) - {alarm.id} == regs - {alarm.id}
  {
  }
}
