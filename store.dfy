/**
 * The alarm table of the app's database, reduced to what the scheduling code uses: fetch by
 * id, update, and list everything (AlarmDao / AlarmRepository).
 */
module Storage {
  import opened Wrappers
  import opened Alarms

  class AlarmRepository {
    /** Rows of the `alarms` table by primary key. */
    var records: map<int, Alarm>

    /** Every row is stored under its own id. */
    ghost predicate Valid()
      reads this
    {
      forall id :: id in records ==> records[id].id == id
    }

    constructor (initial: map<int, Alarm>)
      requires forall id :: id in initial ==> initial[id].id == id
      ensures Valid() && records == initial
    {
      records := initial;
    }

    /** getAlarmById: the row with that id, or null. */
    method GetAlarmById(id: int) returns (r: Option<Alarm>)
      requires Valid()
      ensures id in records <==> r.Some?
      ensures r.Some? ==> r.value == records[id] && r.value.id == id
    {
      r := if id in records then Some(records[id]) else None;
    }

    /** update: rewrites the row with the alarm's id; an alarm with no row changes nothing. */
    method Update(alarm: Alarm)
      requires Valid()
      modifies this
      ensures Valid()
      ensures records == if alarm.id in old(records) then old(records)[alarm.id := alarm] else old(records)
    {
      if alarm.id in records {
        records := records[alarm.id := alarm];
      }
    }

    /** getAllAlarmsBlocking: every row once, in no particular order. */
    method GetAllAlarmsBlocking() returns (listing: seq<Alarm>)
      requires Valid()
      ensures IsListing(listing, records)
    {
      listing := [];
      var rest := records.Keys;
      while rest != {}
        invariant rest <= records.Keys
        invariant forall i :: 0 <= i < |listing| ==> listing[i].id in records && records[listing[i].id] == listing[i] && listing[i].id !in rest
        invariant forall id :: id in records && id !in rest ==> records[id] in listing
        invariant forall i, j :: 0 <= i < j < |listing| ==> listing[i].id != listing[j].id
        decreases rest
      {
        HasMember(rest);
        var key :| key in rest;
        listing := listing + [records[key]];
        rest := rest - {key};
      }
    }
  }

  lemma HasMember(s: set<int>)
    requires s != {}
    ensures exists k :: k in s
  {
    if forall k :: k !in s {
      assert false;
    }
  }

  /** `listing` lists each row of `records` exactly once. */
  ghost predicate IsListing(listing: seq<Alarm>, records: map<int, Alarm>) {
    && (forall i :: 0 <= i < |listing| ==> listing[i].id in records && records[listing[i].id] == listing[i])
    && (forall id :: id in records ==> records[id] in listing)
    && (forall i, j :: 0 <= i < j < |listing| ==> listing[i].id != listing[j].id)
  }
}
