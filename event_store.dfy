/** The append-only, deduplicating event log. The log file is a sequence of
    already-parsed records (`None` while the file does not exist); the store
    keeps the set of event ids it has seen so that a resubmitted event is not
    written twice. */
module EventLog {
  import opened Domain

  /** The event ids of the records of a log. */
  function Ids(log: seq<Event>): (ids: set<string>)
    ensures forall i | 0 <= i < |log| :: log[i].eventId in ids
    ensures forall id | id in ids :: exists i | 0 <= i < |log| :: log[i].eventId == id
  {
    set i | 0 <= i < |log| :: log[i].eventId
  }

  lemma IdsSnoc(log: seq<Event>, e: Event)
    ensures Ids(log + [e]) == Ids(log) + {e.eventId}
  {
    var extended := log + [e];
    assert extended[|log|] == e;
    forall id | id in Ids(log)
      ensures id in Ids(extended)
    {
      var i :| 0 <= i < |log| && log[i].eventId == id;
      assert extended[i] == log[i];
    }
  }

  /** The records of a log that belong to locker `l`, in log order. */
  function OfLocker(log: seq<Event>, l: string): (r: seq<Event>)
    ensures |r| <= |log|
    ensures forall i | 0 <= i < |r| :: r[i].lockerId == l && r[i] in log
    ensures forall i | 0 <= i < |log| && log[i].lockerId == l :: log[i] in r
  {
    if log == [] then []
    else if log[0].lockerId == l then [log[0]] + OfLocker(log[1..], l)
    else OfLocker(log[1..], l)
  }

  /** Filtering commutes with concatenation: the records of each locker keep
      their relative order in the log. */
  lemma {:induction false} OfLockerConcat(a: seq<Event>, b: seq<Event>, l: string)
    ensures OfLocker(a + b, l) == OfLocker(a, l) + OfLocker(b, l)
    decreases |a|
  {
    if a == [] {
      assert a + b == b;
    } else {
      assert (a + b)[0] == a[0];
      assert (a + b)[1..] == a[1..] + b;
      OfLockerConcat(a[1..], b, l);
    }
  }

  /** Appending a record of locker `l` extends that locker's view by exactly
      that record; appending another locker's record leaves it unchanged. */
  lemma OfLockerSnoc(log: seq<Event>, e: Event, l: string)
    ensures OfLocker(log + [e], l) == OfLocker(log, l) + (if e.lockerId == l then [e] else [])
  {
    OfLockerConcat(log, [e], l);
    assert [e][1..] == [];
  }

  class EventStore {
    /** The log file: `None` until the first record is written. */
    var file: Option<seq<Event>>
    var eventIds: set<string>

    /** The id set is exactly the ids of the stored records. */
    ghost predicate Valid()
      reads this
    {
      eventIds == Ids(LoadAll())
    }

    /** `__init__`: opens an existing log (or none) and rebuilds the id set
      from its records, one record at a time. */
    constructor (existing: Option<seq<Event>>)
      ensures file == existing
      ensures Valid()
      ensures existing.None? ==> UniqueIds(LoadAll())
    {
      var ids := {};
      if existing.Some? {
        var records := existing.value;
        for i := 0 to |records|
          invariant ids == Ids(records[..i])
        {
          assert records[..i + 1] == records[..i] + [records[i]];
          IdsSnoc(records[..i], records[i]);
          ids := ids + {records[i].eventId};
        }
        assert records[..|records|] == records;
      }
      file := existing;
      eventIds := ids;
    }

    /** `load_all`: every stored record in append order; nothing when the file
      does not exist. */
    function LoadAll(): (r: seq<Event>)
      reads this
      ensures file.None? ==> r == []
      ensures file.Some? ==> r == file.value
    {
      if file.None? then [] else file.value
    }

    /** `load_by_locker`: the records of locker `l`, in append order. */
    function LoadByLocker(l: string): (r: seq<Event>)
      reads this
      ensures forall i | 0 <= i < |r| :: r[i].lockerId == l && r[i] in LoadAll()
      ensures forall e | e in LoadAll() && e.lockerId == l :: e in r
    {
      OfLocker(LoadAll(), l)
    }

    /** `append`: a known event id is refused with `false` and no write;
      a new one is written as one record at the end of the log, its id is
      remembered, and `true` is returned. */
    method Append(e: Event) returns (stored: bool)
      requires Valid()
      modifies this
      ensures Valid()
      ensures stored <==> e.eventId !in old(eventIds)
      ensures !stored ==> file == old(file) && eventIds == old(eventIds)
      ensures stored ==> LoadAll() == old(LoadAll()) + [e] && eventIds == old(eventIds) + {e.eventId}
      ensures UniqueIds(old(LoadAll())) ==> UniqueIds(LoadAll())
    {
      if e.eventId in eventIds {
        return false;
      }
      IdsSnoc(LoadAll(), e);
      file := Some(LoadAll() + [e]);
      eventIds := eventIds + {e.eventId};
      return true;
    }
  }

  /** Appending the same event twice stores it once: `true`, then `false`,
      and the log grows by exactly one record. */
  method AppendTwice(store: EventStore, e: Event) returns (first: bool, second: bool)
    requires store.Valid() && e.eventId !in store.eventIds
    modifies store
    ensures store.Valid()
    ensures first && !second
    ensures store.LoadAll() == old(store.LoadAll()) + [e]
  {
    first := store.Append(e);
    second := store.Append(e);
  }
}
