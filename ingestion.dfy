/** The ingestion path that the request handler builds from the two core
    objects: the event is appended to the log FIRST and applied to the
    projection only if it was new. A rejected event therefore stays in the log
    (the handler reports a conflict but does not undo the write), and every
    later rebuild from that log stops at it. */
module Ingestion {
  import opened Domain
  import opened LockerProjection
  import opened ProjectionLemmas
  import opened EventLog

  datatype Response = Accepted | Duplicate | Conflict(reason: Outcome)

  /** The projection is what a rebuild from the log produces, and that
      rebuild succeeds. */
  ghost predicate Consistent(log: seq<Event>, s: State)
  {
    Replay(Empty(), log) == Applied(s, Ok)
  }

  /** From the empty state the only event accepted is a registration, and it
      adds a locker that no later event removes: a non-empty log never
      replays to the empty projection. */
  lemma NonEmptyLogIsNotEmptyProjection(log: seq<Event>)
    requires log != []
    ensures !Consistent(log, Empty())
  {
  }

  /** The bootstrap: the store opens the log file as it finds it and the
      projection starts empty; nothing replays the existing records into it.
      The pair satisfies the projection invariant and is consistent exactly
      when the log is empty: with existing records, the store already knows
      their ids as duplicates while the projection has never seen them. */
  method Start(existing: Option<seq<Event>>) returns (store: EventStore, projection: Projection)
    ensures store.Valid() && store.file == existing
    ensures projection.Snapshot() == Empty()
    ensures Consistent(store.LoadAll(), projection.Snapshot()) <==> store.LoadAll() == []
    ensures Wf(projection.Snapshot()) && projection.faults.Keys <= store.eventIds
  {
    store := new EventStore(existing);
    projection := new Projection();
    if store.LoadAll() != [] {
      NonEmptyLogIsNotEmptyProjection(store.LoadAll());
    }
  }

  /** Append, then apply. A duplicate touches nothing; a new event is logged
      whatever its outcome and applied as `Step` says. While every new event is
      accepted, the live projection equals a rebuild from the log; the first
      rejected event makes that rebuild fail with the same error. */
  method Ingest(store: EventStore, projection: Projection, e: Event) returns (r: Response)
    requires store.Valid()
    modifies store, projection
    ensures store.Valid() && store.eventIds == old(store.eventIds) + {e.eventId}
    ensures r == Duplicate <==> e.eventId in old(store.eventIds)
    ensures r == Duplicate ==>
      && store.file == old(store.file) && store.eventIds == old(store.eventIds)
      && projection.Snapshot() == old(projection.Snapshot())
    ensures r != Duplicate ==>
      var a := Step(old(projection.Snapshot()), e);
      && store.LoadAll() == old(store.LoadAll()) + [e]
      && projection.Snapshot() == a.state
      && (r == Accepted <==> a.outcome == Ok)
      && (r.Conflict? ==> r.reason == a.outcome && r.reason != Ok)
    ensures Consistent(old(store.LoadAll()), old(projection.Snapshot())) ==>
      && (!r.Conflict? ==> Consistent(store.LoadAll(), projection.Snapshot()))
      && (r.Conflict? ==> Replay(Empty(), store.LoadAll()).outcome == r.reason)
    ensures Wf(old(projection.Snapshot())) && old(projection.faults.Keys <= store.eventIds) ==>
      Wf(projection.Snapshot()) && projection.faults.Keys <= store.eventIds
  {
    ghost var log := store.LoadAll();
    ghost var before := projection.Snapshot();
    var stored := store.Append(e);
    if !stored {
      return Duplicate;
    }
    var outcome := projection.Apply(e);
    if Consistent(log, before) {
      ReplaySnoc(log, e);
    }
    if Wf(before) && before.faults.Keys <= Ids(log) {
      StepPreservesWf(before, e);
    }
    if outcome == Ok {
      r := Accepted;
    } else {
      r := Conflict(outcome);
    }
  }

  /** Submitting the same event twice: the second submission is reported as
      a duplicate, and log and projection are as after the first. */
  method IngestTwice(store: EventStore, projection: Projection, e: Event) returns (first: Response, second: Response)
    requires store.Valid() && e.eventId !in store.eventIds
    modifies store, projection
    ensures first != Duplicate && second == Duplicate
    ensures store.LoadAll() == old(store.LoadAll()) + [e]
    ensures projection.Snapshot() == Step(old(projection.Snapshot()), e).state
  {
    first := Ingest(store, projection, e);
    ghost var log, after := store.LoadAll(), projection.Snapshot();
    assert e.eventId in store.eventIds;
    second := Ingest(store, projection, e);
    assert store.LoadAll() == log && projection.Snapshot() == after;
  }

  /** A projection rebuilt from the log of a consistent pair matches the live
      one: same lockers, reservations and faults, hence the same state hash. */
  method RebuildFromLog(store: EventStore, live: Projection, digest: View -> string) returns (rebuilt: Projection, outcome: Outcome)
    requires Consistent(store.LoadAll(), live.Snapshot())
    ensures outcome == Ok
    ensures rebuilt.Snapshot() == live.Snapshot()
    ensures rebuilt.StateHash(digest) == live.StateHash(digest)
  {
    rebuilt := new Projection();
    outcome := rebuilt.Rebuild(store.LoadAll());
  }
}
