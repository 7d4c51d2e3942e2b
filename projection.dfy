/** The event-sourced projection: a deterministic state machine that folds
    locker events into a materialised view of lockers, compartments,
    reservations and faults.

    The pure part (State, Step, Replay, View) is the specification; the class
    `Projection` is the object the system mutates in place, and each of its
    methods is proved to move its fields exactly as the pure part says. */
module LockerProjection {
  import opened Domain

  /** One compartment entry. `openFaults` holds the event ids of the faults
      reported on it and not yet cleared. */
  datatype Compartment = Compartment(activeReservation: Option<string>, degraded: bool, openFaults: set<string>)

  /** What the projection keeps of a `FaultReported` event, keyed by that
      event's id: where it was reported and its severity. */
  datatype FaultRecord = FaultRecord(lockerId: string, compartmentId: string, severity: int)

  type Lockers = map<string, map<string, Compartment>>

  datatype State = State(lockers: Lockers, reservations: map<string, ReservationState>, faults: map<string, FaultRecord>)

  /** The state after an application together with its outcome. A rejected
      event can still leave a residue in the state (see `Touch`). */
  datatype Applied = Applied(state: State, outcome: Outcome)

  /** The externally visible part of one compartment. */
  datatype Visible = Visible(activeReservation: Option<string>, degraded: bool)

  type View = map<string, map<string, Visible>>

  /** A freshly registered compartment. */
  const Vacant := Compartment(None, false, {})

  function Empty(): State
  {
    State(map[], map[], map[])
  }

  /** Severity from which a fault degrades its compartment. */
  const SevereFrom := 3

  /** Looking a locker up in the source's `defaultdict` inserts an empty
      compartment map for an unknown locker, even when the caller then
      rejects the event. */
  function Touch(lockers: Lockers, l: string): (r: Lockers)
    ensures l in r && r[l] == (if l in lockers then lockers[l] else map[])
    ensures forall k | k in lockers :: k in r && r[k] == lockers[k]
    ensures forall k | k in r :: k in lockers || k == l
  {
    if l in lockers then lockers else lockers[l := map[]]
  }

  /** The occupancy test is Python truthiness: no reservation and an
      empty-string reservation id both count as vacant. */
  predicate Occupied(c: Compartment)
  {
    c.activeReservation.Some? && c.activeReservation.value != ""
  }

  /** `_ensure_reservation_state` succeeds: the reservation is known and in
      the expected state (an unknown id never matches). */
  predicate HasState(reservations: map<string, ReservationState>, r: string, expected: ReservationState)
    ensures r !in reservations ==> !HasState(reservations, r, expected)
    ensures r in reservations ==> (HasState(reservations, r, expected) <==> reservations[r] == expected)
  {
    r in reservations && reservations[r] == expected
  }

  /** Some open fault id refers to a recorded fault of severity at least 3. */
  predicate HasSevereFault(open: set<string>, faults: map<string, FaultRecord>)
  {
    exists f | f in open :: f in faults && faults[f].severity >= SevereFrom
  }

  /** One compartment after the reservation `r` is released from it. */
  function Release(c: Compartment, r: string): Compartment
  {
    if c.activeReservation == Some(r) then c.(activeReservation := None) else c
  }

  /** `_clear_reservation_from_compartment` on one locker's compartments:
      a compartment holding `r` is left with no reservation, and nothing else
      changes. */
  function Cleared(comps: map<string, Compartment>, r: string): (m: map<string, Compartment>)
    ensures m.Keys == comps.Keys
    ensures forall c | c in m :: m[c].activeReservation != Some(r)
    ensures forall c | c in m :: m[c].degraded == comps[c].degraded && m[c].openFaults == comps[c].openFaults
    ensures forall c | c in m && comps[c].activeReservation == Some(r) :: m[c] == comps[c].(activeReservation := None)
    ensures forall c | c in m && comps[c].activeReservation != Some(r) :: m[c] == comps[c]
  {
    map c | c in comps :: Release(comps[c], r)
  }

  /** The state after a reservation moves from `from` to `to`, releasing it
      from the compartments of locker `l` when `release` holds; rejected with
      no residue when the reservation is not in state `from`. */
  function Advance(s: State, l: string, r: string, from: ReservationState, to: ReservationState, release: bool): Applied
  {
    if !HasState(s.reservations, r, from) then Applied(s, InvalidTransition)
    else
      var lockers := if release then s.lockers[l := Cleared(Touch(s.lockers, l)[l], r)] else s.lockers;
      Applied(State(lockers, s.reservations[r := to], s.faults), Ok)
  }

  /** `Projection.apply` on the pure state. Only the event's own locker can
      change; no locker, reservation or fault record is ever removed; only a
      `FaultReported` event, under its own id, writes a fault record; a
      rejection writes no reservation and no fault record. */
  function Step(s: State, e: Event): (a: Applied)
    ensures e.payload.CompartmentRegistered? ==> a.outcome == Ok
    ensures a.outcome == FaultReferenceError ==> e.payload.FaultCleared?
    ensures a.outcome != Ok ==> a.state.reservations == s.reservations && a.state.faults == s.faults
  {
    var l := e.lockerId;
    var touched := s.(lockers := Touch(s.lockers, l));
    var comps := touched.lockers[l];
    match e.payload
    case CompartmentRegistered(c) =>
      Applied(touched.(lockers := touched.lockers[l := comps[c := Vacant]]), Ok)
    case ReservationCreated(c, r) =>
      if c !in comps || comps[c].degraded || Occupied(comps[c]) then Applied(touched, InvalidTransition)
      else
        var comp := comps[c].(activeReservation := Some(r));
        Applied(State(touched.lockers[l := comps[c := comp]], s.reservations[r := Created], s.faults), Ok)
    case ParcelDeposited(r) =>
      Advance(s, l, r, Created, Deposited, false)
    case ParcelPickedUp(r) =>
      Advance(s, l, r, Deposited, PickedUp, true)
    case ReservationExpired(r) =>
      Advance(s, l, r, Created, Expired, true)
    case FaultReported(c, severity) =>
      if c !in comps then Applied(touched, InvalidTransition)
      else
        var comp := comps[c].(openFaults := comps[c].openFaults + {e.eventId},
                              degraded := comps[c].degraded || severity >= SevereFrom);
        Applied(State(touched.lockers[l := comps[c := comp]], s.reservations,
                      s.faults[e.eventId := FaultRecord(l, c, severity)]), Ok)
    case FaultCleared(ref) =>
      if ref !in s.faults then Applied(s, FaultReferenceError)
      else
        var c := s.faults[ref].compartmentId;
        if c !in comps then Applied(touched, InvalidTransition)
        else if ref !in comps[c].openFaults then Applied(touched, FaultReferenceError)
        else
          var open := comps[c].openFaults - {ref};
          var comp := comps[c].(openFaults := open, degraded := HasSevereFault(open, s.faults));
          Applied(touched.(lockers := touched.lockers[l := comps[c := comp]]), Ok)
  }

  /** Applies the events in order, stopping at the first rejection (the
      source's `apply` raises and aborts the loop of `rebuild`). Lockers,
      reservations and fault records accumulate: none is ever removed. */
  function Replay(s: State, es: seq<Event>): (a: Applied)
    ensures s.lockers.Keys <= a.state.lockers.Keys
    ensures s.reservations.Keys <= a.state.reservations.Keys
    ensures s.faults.Keys <= a.state.faults.Keys
    decreases |es|
  {
    if es == [] then Applied(s, Ok)
    else
      var a := Step(s, es[0]);
      if a.outcome != Ok then a else Replay(a.state, es[1..])
  }

  /** The normalised view `state_hash` digests: per locker and compartment,
      only the pair (active reservation, degraded). A Dafny map has no key
      order, which is what sorting the keys achieves in the source. */
  function ViewOf(s: State): (v: View)
    ensures v.Keys == s.lockers.Keys
    ensures forall l | l in v :: v[l].Keys == s.lockers[l].Keys
    ensures forall l, c | l in v && c in v[l] ::
              v[l][c] == Visible(s.lockers[l][c].activeReservation, s.lockers[l][c].degraded)
  {
    map l | l in s.lockers ::
      map c | c in s.lockers[l] :: Visible(s.lockers[l][c].activeReservation, s.lockers[l][c].degraded)
  }

  /** The projection as the mutable object of the source: three maps,
      updated in place by `Apply`. */
  class Projection {
    var lockers: Lockers
    var reservations: map<string, ReservationState>
    var faults: map<string, FaultRecord>

    /** The fields as a pure state. */
    function Snapshot(): State
      reads this
    {
      State(lockers, reservations, faults)
    }

    constructor ()
      ensures Snapshot() == Empty()
    {
      lockers, reservations, faults := map[], map[], map[];
    }

    /** Re-runs the initialiser on an existing object. */
    method Reset()
      modifies this
      ensures Snapshot() == Empty()
    {
      lockers, reservations, faults := map[], map[], map[];
    }

    /** `rebuild`: reset, then apply the events in order; the first
      rejection stops the loop and is returned. */
    method Rebuild(events: seq<Event>) returns (outcome: Outcome)
      modifies this
      ensures Applied(Snapshot(), outcome) == Replay(Empty(), events)
    {
      Reset();
      outcome := Ok;
      var i := 0;
      while i < |events|
        invariant 0 <= i <= |events|
        invariant outcome == Ok
        invariant Replay(Empty(), events) == Replay(Snapshot(), events[i..])
      {
        assert events[i..][1..] == events[i + 1..];
        outcome := Apply(events[i]);
        if outcome != Ok {
          return;
        }
        i := i + 1;
      }
    }

    /** `_get_compartment`: the lookup inserts an empty entry for an unknown
      locker, then yields the compartment if it is registered there. */
    method GetCompartment(l: string, c: string) returns (found: Option<Compartment>)
      modifies this
      ensures lockers == Touch(old(lockers), l)
      ensures reservations == old(reservations) && faults == old(faults)
      ensures found.Some? <==> c in lockers[l]
      ensures found.Some? ==> found.value == lockers[l][c]
    {
      if l !in lockers {
        lockers := lockers[l := map[]];
      }
      if c !in lockers[l] {
        return None;
      }
      return Some(lockers[l][c]);
    }

    /** `_clear_reservation_from_compartment`: walks the compartments of
      locker `l` and releases `r` wherever it is the active reservation. */
    method ClearReservationFromCompartment(l: string, r: string)
      modifies this
      ensures lockers == old(lockers)[l := Cleared(Touch(old(lockers), l)[l], r)]
      ensures reservations == old(reservations) && faults == old(faults)
    {
      if l !in lockers {
        lockers := lockers[l := map[]];
      }
      ghost var before := lockers;
      var comps := lockers[l];
      var pending := comps.Keys;
      while pending != {}
        invariant pending <= comps.Keys
        invariant l in lockers && lockers == before[l := lockers[l]]
        invariant lockers[l].Keys == comps.Keys
        invariant forall c | c in comps :: lockers[l][c] == if c in pending then comps[c] else Release(comps[c], r)
        invariant reservations == old(reservations) && faults == old(faults)
        decreases pending
      {
        var c :| c in pending;
        if lockers[l][c].activeReservation == Some(r) {
          lockers := lockers[l := lockers[l][c := lockers[l][c].(activeReservation := None)]];
        }
        pending := pending - {c};
      }
      assert lockers[l] == Cleared(comps, r);
    }

    /** `apply`: one event, in place. A rejection is returned before any
      compartment field, reservation state or fault record is written. */
    method Apply(e: Event) returns (outcome: Outcome)
      modifies this
      ensures Applied(Snapshot(), outcome) == Step(old(Snapshot()), e)
    {
      var l := e.lockerId;
      match e.payload {
        case CompartmentRegistered(c) =>
          var comps := if l in lockers then lockers[l] else map[];
          lockers := lockers[l := comps[c := Vacant]];
          outcome := Ok;

        case ReservationCreated(c, r) =>
          var found := GetCompartment(l, c);
          if found.None? || found.value.degraded || Occupied(found.value) {
            return InvalidTransition;
          }
          lockers := lockers[l := lockers[l][c := found.value.(activeReservation := Some(r))]];
          reservations := reservations[r := Created];
          outcome := Ok;

        case ParcelDeposited(r) =>
          if !HasState(reservations, r, Created) {
            return InvalidTransition;
          }
          reservations := reservations[r := Deposited];
          outcome := Ok;

        case ParcelPickedUp(r) =>
          if !HasState(reservations, r, Deposited) {
            return InvalidTransition;
          }
          reservations := reservations[r := PickedUp];
          ClearReservationFromCompartment(l, r);
          outcome := Ok;

        case ReservationExpired(r) =>
          if !HasState(reservations, r, Created) {
            return InvalidTransition;
          }
          reservations := reservations[r := Expired];
          ClearReservationFromCompartment(l, r);
          outcome := Ok;

        case FaultReported(c, severity) =>
          var found := GetCompartment(l, c);
          if found.None? {
            return InvalidTransition;
          }
          faults := faults[e.eventId := FaultRecord(l, c, severity)];
          var comp := found.value.(openFaults := found.value.openFaults + {e.eventId});
          if severity >= SevereFrom {
            comp := comp.(degraded := true);
          }
          lockers := lockers[l := lockers[l][c := comp]];
          outcome := Ok;

        case FaultCleared(ref) =>
          if ref !in faults {
            return FaultReferenceError;
          }
          var c := faults[ref].compartmentId;
          var found := GetCompartment(l, c);
          if found.None? {
            return InvalidTransition;
          }
          if ref !in found.value.openFaults {
            return FaultReferenceError;
          }
          var open := found.value.openFaults - {ref};
          var degraded := exists f | f in open :: f in faults && faults[f].severity >= SevereFrom;
          lockers := lockers[l := lockers[l][c := found.value.(openFaults := open, degraded := degraded)]];
          outcome := Ok;
      }
    }

    /** `state_hash`: the digest (SHA-256 over canonical JSON in the source,
      a parameter here) of the normalised view only: any state with the same
      view has the same hash. */
    function StateHash(digest: View -> string): (h: string)
      reads this
      ensures forall t: State :: ViewOf(t) == ViewOf(Snapshot()) ==> h == digest(ViewOf(t))
    {
      digest(ViewOf(Snapshot()))
    }
  }
}
