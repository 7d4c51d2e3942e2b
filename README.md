# Smart-locker event log and projection, in Dafny

This project models the event-sourced core of a smart parcel locker service:

- the **projection** (`app/structure/projection.py`), a deterministic state
  machine that folds locker events into three dictionaries: lockers
  (locker → compartment → active reservation, degraded flag, open fault ids),
  reservation states, and fault records keyed by the id of the reporting event;
- the **event log** (`app/structure/event_store.py`), an append-only store
  that deduplicates events by `event_id` and replays them in append order;
- the ingestion step of the request handler (`app/api/routes.py`), which
  appends first and applies second.

Layout:

| file | module | contents |
|---|---|---|
| `domain.dfy` | `Domain` | the event record, the seven event kinds (as payload constructors), reservation states, the outcome `Ok \| InvalidTransition \| FaultReferenceError` |
| `projection.dfy` | `LockerProjection` | pure `State`, `Step` (one `apply`), `Replay` (a fold that stops at the first rejection), `ViewOf` (what `state_hash` digests), and the class `Projection` whose methods mutate three map fields and are proved equal to `Step`/`Replay` |
| `projection_lemmas.dfy` | `ProjectionLemmas` | per-kind outcome rules, rejection before mutation, reservation lifecycle, the degraded-iff-open-severe-fault invariant, replay/incremental equivalence |
| `event_store.dfy` | `EventLog` | class `EventStore` over the log file (a sequence of parsed records), order-preserving filter by locker |
| `ingestion.dfy` | `Ingestion` | append-then-apply, rebuild equivalence of a live projection and a rebuilt one, the effect of a rejected-but-logged event |
| `scenarios.dfy` | `Scenarios` | concrete histories: documented scenarios and behaviours that follow from the code |

Modelling choices:

- A compartment is a datatype value inside the `lockers` map field; the
  source's in-place update of a compartment dict becomes reassignment of that
  map entry.
- The source's `defaultdict` inserts an empty locker entry whenever a locker
  is looked up (`_get_compartment`, `_clear_reservation_from_compartment`,
  registration). `Touch` models that insertion, including for events that are
  then rejected; the inserted entry is part of the view that is hashed.
- The occupancy test is truthiness: `Occupied` treats an empty-string
  reservation id as vacant.
- A fault record keeps the locker, compartment and severity of the
  `FaultReported` event that created it (the source keeps the whole event).
  The source reads the compartment and the severity; the model also keeps
  the locker, which only the fault-lineage invariant uses.
- `rebuild` aborts with the exception raised by `apply`; the model's
  `Rebuild` returns that outcome and leaves the state where the loop stopped.
- `state_hash` takes the digest function as a parameter; the view it digests
  is a Dafny map, which has no key order, so the sorting of keys in the source
  is built in.

Where the design description and the code disagree, the model follows the code:

- Re-registering a compartment resets it, dropping its reservation and open
  faults (`Scenarios.ReRegistrationResets`).
- `ReservationCreated` never looks at a reservation's previous state, so a
  reservation id can return to `Created` after being picked up or expired
  (`ProjectionLemmas.ReservationLifecycle` states the moves exactly,
  `Scenarios.PickedUpReservationCanBeRecreated` exhibits one).
- Pickup and expiry release the reservation only from compartments of the
  event's own locker (`Scenarios.PickupUnderOtherLockerKeepsCompartmentOccupied`).
- A fault is cleared by looking its compartment up under the clearing event's
  locker (`ProjectionLemmas.ClearingFromAnotherLockerFails`).
- The handler persists an event before validating it, so a rejected event
  stays in the log and every later rebuild stops at it (`Ingestion.Ingest` for the rebuild right
  after it, `ProjectionLemmas.ReplayConcat` for any longer log).
- At startup the handler opens the existing log but never rebuilds the
  projection from it, so after a restart with a non-empty log the projection
  is empty while the store treats the old ids as duplicates
  (`Ingestion.Start`).

## Model

| member | source | states |
|---|---|---|
| `LockerProjection.Projection.constructor` | app/structure/projection.py:10-13 | a new projection has no lockers, reservations or faults |
| `LockerProjection.Projection.Reset` | app/structure/projection.py:16 | re-initialising empties all three maps |
| `LockerProjection.Projection.Rebuild` | app/structure/projection.py:15-18 | after reset, the fields and the returned outcome are those of replaying the events in order from the empty state, stopping at the first rejection |
| `LockerProjection.Projection.Apply` | app/structure/projection.py:20-95 | the new fields and the outcome are exactly `Step` of the old fields and the event, for all seven kinds |
| `LockerProjection.Projection.GetCompartment` | app/structure/projection.py:97-100 | the lookup inserts an empty entry for an unknown locker and finds the compartment iff it is registered there; nothing else changes |
| `LockerProjection.Projection.ClearReservationFromCompartment` | app/structure/projection.py:106-109 | after walking the locker's compartments, the locker's map is `Cleared` of the reservation; other lockers, reservations and faults are unchanged |
| `LockerProjection.Cleared` | app/structure/projection.py:106-109 | same compartments; a compartment that held the reservation now has none and is otherwise unchanged; compartments that did not hold it are unchanged |
| `LockerProjection.Touch` | app/structure/projection.py:98 | a locker lookup leaves every existing locker as it was and adds the looked-up locker with no compartments if it was missing |
| `LockerProjection.HasState` | app/structure/projection.py:102-104 | an unknown reservation id never passes the check; a known one passes exactly when it is in the expected state |
| `LockerProjection.Step` | app/structure/projection.py:20-95 | registration is never rejected; only a clear can fail with a fault reference error; a rejected event leaves reservations and fault records as they were |
| `LockerProjection.Replay` | app/structure/projection.py:15-18 | folding events in order never removes a locker, a reservation or a fault record |
| `LockerProjection.Projection.StateHash` | app/structure/projection.py:111-130 | the hash depends on the normalised view only: any state with the same view has the same hash |
| `LockerProjection.ViewOf` | app/structure/projection.py:111-129 | the hashed view has the same lockers and compartments as the state and keeps exactly each compartment's (active reservation, degraded) pair |
| `ProjectionLemmas.RegistrationResets` | app/structure/projection.py:26-32 | registration always succeeds and sets the compartment to vacant, not degraded, no open faults, overwriting an existing one; reservations and faults unchanged |
| `ProjectionLemmas.ReservationCreatedRules` | app/structure/projection.py:34-47 | rejected with InvalidTransition iff the compartment is unregistered in the event's locker, degraded, or occupied (truthy id); on success it holds the reservation, whose state is Created, and nothing else changes |
| `ProjectionLemmas.ReservationMoves` | app/structure/projection.py:49-64 | deposit needs Created, pickup Deposited, expiry Created (unknown ids rejected); on success the state moves to Deposited/PickedUp/Expired, and pickup/expiry release the reservation only in the event's own locker |
| `ProjectionLemmas.FaultReportedRules` | app/structure/projection.py:66-75 | needs a registered compartment; stores the fault under its own event id, opens it on the compartment, degraded becomes old degraded or severity ≥ 3; the whole lockers map is the touched map with only that compartment replaced |
| `ProjectionLemmas.FaultClearedRules` | app/structure/projection.py:77-95 | unknown reference → FaultReferenceError; compartment not registered under the clearing locker → InvalidTransition; not open → FaultReferenceError; on success the id leaves the open set, the record stays, degraded iff a remaining open fault has severity ≥ 3; the whole lockers map is the touched map with only that compartment replaced |
| `ProjectionLemmas.RejectionLeavesOnlyResidue` | app/structure/projection.py:38-99 | a rejected event changes no reservation, fault or compartment; the only residue is an empty entry for a previously unknown locker, which also appears in the hashed view |
| `ProjectionLemmas.ReservationLifecycle` | app/structure/projection.py:34-64 | every reservation-state change is Created→Deposited, Deposited→PickedUp, Created→Expired for the event's own id, or (re)creation by ReservationCreated of that id; no reservation disappears |
| `ProjectionLemmas.WfAfterReservationCreated` | app/structure/projection.py:34-47 | a reservation event keeps the degraded invariant and fault lineage |
| `ProjectionLemmas.WfAfterRelease` | app/structure/projection.py:54-64 | pickup and expiry keep the degraded invariant and fault lineage |
| `ProjectionLemmas.WfAfterFaultReported` | app/structure/projection.py:66-75 | a fault report with a fresh event id keeps every compartment degraded iff it has an open severe fault, and every open fault traced to its own locker and compartment |
| `ProjectionLemmas.WfAfterFaultCleared` | app/structure/projection.py:77-95 | recomputing degraded on clear keeps the degraded invariant and fault lineage |
| `ProjectionLemmas.StepKeepsOpenFaultsRecorded` | app/structure/projection.py:66-95 | every application keeps each open fault id backed by a fault record, with no condition on event ids |
| `ProjectionLemmas.ReplayKeepsOpenFaultsRecorded` | app/structure/projection.py:15-18 | a replay keeps every open fault id backed by a fault record, so the unguarded record lookup in the `FaultCleared` recomputation always succeeds |
| `ProjectionLemmas.StepPreservesWf` | app/structure/projection.py:20-95 | every application, accepted or rejected, keeps the degraded-iff-open-severe-fault invariant and lineage (given a fresh fault id) and adds at most the event's own id to the fault records |
| `ProjectionLemmas.ReplayPreservesWf` | app/structure/projection.py:15-18 | replaying events with distinct ids that are not yet fault ids keeps the invariant |
| `ProjectionLemmas.RebuildIsWf` | app/structure/projection.py:15-18 | every state rebuilt from a log with distinct ids satisfies the invariant |
| `ProjectionLemmas.ClearingFromAnotherLockerFails` | app/structure/projection.py:82-87 | a fault reported on one locker can never be cleared by an event of another locker |
| `ProjectionLemmas.InternalChangesKeepView` | app/structure/projection.py:111-129 | a deposit leaves the hashed view unchanged; a fault report changes it iff it newly degrades its compartment |
| `ProjectionLemmas.ReplayConcat` | app/structure/projection.py:15-18 | replaying a+b is replaying a and, if that succeeded, replaying b from its result |
| `ProjectionLemmas.ReplaySnoc` | app/structure/projection.py:17-18 | applying one more event to a successfully replayed state equals replaying the extended log |
| `EventLog.EventStore.constructor` | app/structure/event_store.py:8-15 | the id set is rebuilt record by record and equals the ids of the existing file's records; with no file the log is empty |
| `EventLog.EventStore.Append` | app/structure/event_store.py:17-25 | a known id returns false and changes neither log nor id set; a new id adds exactly one record at the end, adds its id, returns true; the id set stays the log's ids and a duplicate-free log stays duplicate-free |
| `EventLog.EventStore.LoadAll` | app/structure/event_store.py:27-30 | no records when the file does not exist, otherwise every stored record in append order |
| `EventLog.EventStore.LoadByLocker` | app/structure/event_store.py:32-33 | every returned record is a stored record of that locker, and every stored record of that locker is returned |
| `EventLog.OfLocker` | app/structure/event_store.py:33 | the filter returns only records of the locker, all of them, and never more records than the log |
| `EventLog.OfLockerConcat` | app/structure/event_store.py:32-33 | the filter of a concatenation is the concatenation of the filters, so append order is preserved |
| `EventLog.OfLockerSnoc` | app/structure/event_store.py:32-33 | appending a record extends its own locker's filtered log by exactly that record and leaves other lockers' filtered logs unchanged |
| `EventLog.AppendTwice` | app/structure/event_store.py:17-25 | appending the same new event twice returns true then false and stores one copy |
| `Ingestion.Start` | app/api/routes.py:8-9 | the store opens the log as found and the projection starts empty without a rebuild; the pair satisfies the invariant and is consistent exactly when the log is empty |
| `Ingestion.NonEmptyLogIsNotEmptyProjection` | app/api/routes.py:8-9 | no non-empty log replays to the empty projection, so a projection left empty beside an existing log is out of step with it |
| `Ingestion.Ingest` | app/api/routes.py:11-23 | duplicate iff the id was known, and then nothing changes; otherwise the event is logged and applied whatever its outcome; from a consistent pair an accepted event keeps live projection = rebuild of log, a rejected one makes that rebuild fail with the same error; the invariant is kept because logged ids are never reused |
| `Ingestion.IngestTwice` | tests/test_app.py:62-83 | the same event submitted twice is stored then reported duplicate, with log and projection as after the first |
| `Ingestion.RebuildFromLog` | tests/test_app.py:211-281 | rebuilding a fresh projection from a consistent log succeeds and gives the live projection's state and hence its state hash |
| `Scenarios.ScenarioPickupLifecycle` | app/structure/projection.py:34-64 | register, create, deposit, pick up: all accepted, compartment vacant, reservation picked up |
| `Scenarios.ScenarioDepositWithoutReservation` | tests/test_app.py:90-106 | a deposit for an unknown reservation is rejected with no change at all |
| `Scenarios.PickupBeforeDepositFails` | tests/test_app.py:109-150 | pickup right after creation is rejected |
| `Scenarios.ScenarioFaultLifecycle` | tests/test_app.py:156-205 | a severity-3 fault degrades, clearing it restores, clearing again is a fault reference error, the record is kept |
| `Scenarios.ReRegistrationResets` | app/structure/projection.py:26-32 | re-registration leaves the compartment vacant with no faults, whatever it held |
| `Scenarios.EmptyReservationIdCountsAsVacant` | app/structure/projection.py:43-44 | a compartment holding the empty reservation id accepts a new reservation |
| `Scenarios.RejectedEventAddsEmptyLocker` | app/structure/projection.py:97-100 | a rejected reservation on an unknown locker adds that locker, empty, to the hashed view |
| `Scenarios.PickupUnderOtherLockerKeepsCompartmentOccupied` | app/structure/projection.py:106-109 | a pickup sent under another locker is accepted but leaves the original compartment occupied |
| `Scenarios.PickedUpReservationCanBeRecreated` | app/structure/projection.py:34-47 | a picked-up reservation id can be created again and is back in Created |
| `Scenarios.ClearUsesClearingEventsLocker` | app/structure/projection.py:82-87 | clearing from another locker with a same-named compartment is a reference error, from a locker without it an invalid transition |

## Left out

- File I/O, JSON encoding and decoding (including `default=str`), and path existence: the log file is an optional sequence of already-parsed records, and a record reads back as the event that was written.
- SHA-256 and JSON canonicalisation in `state_hash`: the digest is a function parameter applied to the normalised view.
- Schema validation (UUID and timestamp parsing, the 422 path), HTTP status mapping and the locker summary read route: boundary code. `occurred_at` is never read by the core and is not modelled.
- Missing or misspelled payload keys (a `KeyError` in the source) and payload values of the wrong type: each event kind carries exactly its payload fields, with a string id and an integer severity. A non-integer severity would make the source's `severity >= 3` comparison raise `TypeError` after the fault has already been recorded and opened, the one path where the source writes state before failing; the model has no such path.
- `NotFoundError`: never raised by `apply`, so it is not part of the outcome type.
- The source stores the whole `FaultReported` event as the fault record; the model keeps its locker, compartment and severity.
- On `FaultCleared`, the recomputation of `degraded` guards the fault-record lookup, where the source indexes without a guard. The guard never matters: fault records are never deleted and a fault is opened together with its record, so every open fault id has one (`ProjectionLemmas.ReplayKeepsOpenFaultsRecorded`, for any log).
- Concurrency and locking of ingestion: the source has none; the model is sequential.
- The unused `Event` dataclass in `app/domain/event.py` is not part of this model.
