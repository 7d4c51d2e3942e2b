/** What the projection promises, proved about its pure specification:
    the outcome of each event kind, rejection before mutation, the reservation
    lifecycle, the degraded-iff-open-severe-fault invariant, and that a replay
    of a log is the same as applying its events one at a time. */
module ProjectionLemmas {
  import opened Domain
  import opened LockerProjection

  // ---------------------------------------------------------------------
  // Invariants
  // ---------------------------------------------------------------------

  /** Every registered compartment is degraded exactly when one of its open
      faults has severity at least 3. */
  ghost predicate DegradedReflectsFaults(s: State)
  {
    forall l, c | l in s.lockers && c in s.lockers[l] ::
      s.lockers[l][c].degraded == HasSevereFault(s.lockers[l][c].openFaults, s.faults)
  }

  /** Every open fault id names a fault record reported on that very locker
      and compartment. */
  ghost predicate FaultLineage(s: State)
  {
    forall l, c, f | l in s.lockers && c in s.lockers[l] && f in s.lockers[l][c].openFaults ::
      f in s.faults && s.faults[f].lockerId == l && s.faults[f].compartmentId == c
  }

  /** Every open fault id has a fault record. Unlike `FaultLineage` this
      needs no assumption about event ids: records are never deleted, and a
      fault is opened together with its record. */
  ghost predicate OpenFaultsRecorded(s: State)
  {
    forall l, c | l in s.lockers && c in s.lockers[l] :: s.lockers[l][c].openFaults <= s.faults.Keys
  }

  ghost predicate Wf(s: State)
  {
    DegradedReflectsFaults(s) && FaultLineage(s)
  }

  // ---------------------------------------------------------------------
  // Outcome of each event kind
  // ---------------------------------------------------------------------

  /** `CompartmentRegistered` always succeeds and (re)sets the compartment to
      vacant, not degraded, with no open faults, discarding whatever it held;
      every other compartment, reservation and fault is untouched. */
  lemma RegistrationResets(s: State, e: Event)
    requires e.payload.CompartmentRegistered?
    ensures var a := Step(s, e);
      && a.outcome == Ok
      && a.state.lockers == Touch(s.lockers, e.lockerId)[e.lockerId := Touch(s.lockers, e.lockerId)[e.lockerId][e.payload.compartmentId := Vacant]]
      && a.state.reservations == s.reservations && a.state.faults == s.faults
  {
  }

  /** `ReservationCreated` is rejected with `InvalidTransition` exactly when the
      compartment is unregistered in the event's locker, degraded, or holds a
      (non-empty) reservation; on success the compartment holds the
      reservation and its state is `Created`. */
  lemma ReservationCreatedRules(s: State, e: Event)
    requires e.payload.ReservationCreated?
    ensures var a := Step(s, e);
      var l, c, r := e.lockerId, e.payload.compartmentId, e.payload.reservationId;
      var comps := Touch(s.lockers, l)[l];
      && a.outcome in {Ok, InvalidTransition}
      && (a.outcome == Ok <==> c in comps && !comps[c].degraded && !Occupied(comps[c]))
      && (a.outcome == Ok ==>
            && a.state.lockers == Touch(s.lockers, l)[l := comps[c := comps[c].(activeReservation := Some(r))]]
            && a.state.reservations == s.reservations[r := Created]
            && a.state.faults == s.faults)
  {
  }

  /** Deposit, pickup and expiry each require one reservation state (an
      unknown reservation is rejected), move to the next one, and pickup and
      expiry release the reservation from the compartments of the event's own
      locker only. */
  lemma ReservationMoves(s: State, e: Event)
    requires e.payload.ParcelDeposited? || e.payload.ParcelPickedUp? || e.payload.ReservationExpired?
    ensures var a := Step(s, e);
      var l, r := e.lockerId, e.payload.reservationId;
      var from := if e.payload.ParcelPickedUp? then Deposited else Created;
      var to := if e.payload.ParcelDeposited? then Deposited else if e.payload.ParcelPickedUp? then PickedUp else Expired;
      && a.outcome in {Ok, InvalidTransition}
      && (a.outcome == Ok <==> r in s.reservations && s.reservations[r] == from)
      && (a.outcome == Ok ==>
            && a.state.reservations == s.reservations[r := to]
            && a.state.faults == s.faults
            && (e.payload.ParcelDeposited? ==> a.state.lockers == s.lockers)
            && (!e.payload.ParcelDeposited? ==>
                  && a.state.lockers.Keys == s.lockers.Keys + {l}
                  && (forall k | k in s.lockers && k != l :: a.state.lockers[k] == s.lockers[k])
                  && a.state.lockers[l] == Cleared(Touch(s.lockers, l)[l], r)))
  {
  }

  /** `FaultReported` requires a registered compartment; it records the fault
      under the event's own id, opens it on the compartment, and degrades the
      compartment when the severity is at least 3, never undoing an earlier
      degradation; no other compartment or locker changes. */
  lemma FaultReportedRules(s: State, e: Event)
    requires e.payload.FaultReported?
    ensures var a := Step(s, e);
      var l, c, sev := e.lockerId, e.payload.compartmentId, e.payload.severity;
      var comps := Touch(s.lockers, l)[l];
      && a.outcome in {Ok, InvalidTransition}
      && (a.outcome == Ok <==> c in comps)
      && (a.outcome == Ok ==>
            && a.state.faults == s.faults[e.eventId := FaultRecord(l, c, sev)]
            && a.state.reservations == s.reservations
            && a.state.lockers == Touch(s.lockers, l)[l := comps[c := comps[c].(openFaults := comps[c].openFaults + {e.eventId},
                                                                              degraded := comps[c].degraded || sev >= 3)]]
            && a.state.lockers[l][c].openFaults == comps[c].openFaults + {e.eventId}
            && a.state.lockers[l][c].activeReservation == comps[c].activeReservation
            && a.state.lockers[l][c].degraded == (comps[c].degraded || sev >= 3))
  {
  }

  /** `FaultCleared`: an unknown reference is a `FaultReferenceError`; the
      fault's compartment must be registered under the CLEARING event's
      locker (`InvalidTransition` otherwise); a fault no longer open there is a
      `FaultReferenceError`. On success the fault is closed, its record kept,
      and the compartment is degraded exactly when a remaining open fault is
      severe; no other compartment or locker changes. */
  lemma FaultClearedRules(s: State, e: Event)
    requires e.payload.FaultCleared?
    ensures var a := Step(s, e);
      var l, ref := e.lockerId, e.payload.referenceEventId;
      var comps := Touch(s.lockers, l)[l];
      && (ref !in s.faults ==> a.outcome == FaultReferenceError)
      && (ref in s.faults ==>
            var c := s.faults[ref].compartmentId;
            && (c !in comps ==> a.outcome == InvalidTransition)
            && (c in comps && ref !in comps[c].openFaults ==> a.outcome == FaultReferenceError)
            && (a.outcome == Ok <==> c in comps && ref in comps[c].openFaults)
            && (a.outcome == Ok ==>
                  && a.state.faults == s.faults
                  && a.state.reservations == s.reservations
                  && a.state.lockers == Touch(s.lockers, l)[l := comps[c := comps[c].(openFaults := comps[c].openFaults - {ref},
                                                                                    degraded := HasSevereFault(comps[c].openFaults - {ref}, s.faults))]]
                  && a.state.lockers[l][c].openFaults == comps[c].openFaults - {ref}
                  && a.state.lockers[l][c].activeReservation == comps[c].activeReservation
                  && (a.state.lockers[l][c].degraded <==>
                        exists f | f in comps[c].openFaults - {ref} :: f in s.faults && s.faults[f].severity >= 3)))
  {
  }

  // ---------------------------------------------------------------------
  // Rejection before mutation
  // ---------------------------------------------------------------------

  /** A rejected event writes no compartment field, reservation state or
      fault record. Its only residue is the empty locker entry the
      `defaultdict` lookup inserts, which is visible in the view. */
  lemma RejectionLeavesOnlyResidue(s: State, e: Event)
    requires Step(s, e).outcome != Ok
    ensures var st := Step(s, e).state;
      && st.reservations == s.reservations
      && st.faults == s.faults
      && (st.lockers == s.lockers || (e.lockerId !in s.lockers && st.lockers == s.lockers[e.lockerId := map[]]))
      && (ViewOf(st) == ViewOf(s) || (e.lockerId !in ViewOf(s) && ViewOf(st) == ViewOf(s)[e.lockerId := map[]]))
  {
    var st := Step(s, e).state;
    assert st.lockers == s.lockers || st.lockers == Touch(s.lockers, e.lockerId);
    if st.lockers != s.lockers {
      assert ViewOf(st) == ViewOf(s)[e.lockerId := map[]];
    }
  }

  // ---------------------------------------------------------------------
  // Reservation lifecycle
  // ---------------------------------------------------------------------

  /** The reservation moves an event may make: the three lifecycle edges, and
      (re)creation by `ReservationCreated`, which does not look at the
      reservation's previous state. */
  ghost predicate LegalMove(p: Payload, r: string, before: Option<ReservationState>, after: ReservationState)
  {
    || (p == ParcelDeposited(r) && before == Some(Created) && after == Deposited)
    || (p == ParcelPickedUp(r) && before == Some(Deposited) && after == PickedUp)
    || (p == ReservationExpired(r) && before == Some(Created) && after == Expired)
    || (p.ReservationCreated? && p.reservationId == r && after == Created)
  }

  function Lookup(m: map<string, ReservationState>, r: string): Option<ReservationState>
  {
    if r in m then Some(m[r]) else None
  }

  /** Every reservation state an event changes or introduces follows a legal
      move for that event's own reservation id; no reservation is forgotten. */
  lemma ReservationLifecycle(s: State, e: Event)
    ensures var st := Step(s, e).state;
      && s.reservations.Keys <= st.reservations.Keys
      && forall r | r in st.reservations && Lookup(s.reservations, r) != Some(st.reservations[r]) ::
           LegalMove(e.payload, r, Lookup(s.reservations, r), st.reservations[r])
  {
  }

  // ---------------------------------------------------------------------
  // Degradation invariant
  // ---------------------------------------------------------------------

  lemma SevereFaultIgnoresOtherKeys(open: set<string>, faults: map<string, FaultRecord>, k: string, v: FaultRecord)
    requires k !in open
    ensures HasSevereFault(open, faults[k := v]) == HasSevereFault(open, faults)
  {
    if HasSevereFault(open, faults) {
      var f :| f in open && f in faults && faults[f].severity >= SevereFrom;
      assert f in faults[k := v];
    }
  }

  lemma SevereFaultAdded(open: set<string>, faults: map<string, FaultRecord>, k: string, v: FaultRecord)
    requires k !in faults
    ensures HasSevereFault(open + {k}, faults[k := v]) == (HasSevereFault(open, faults) || v.severity >= SevereFrom)
  {
    var faults' := faults[k := v];
    if v.severity >= SevereFrom {
      assert k in open + {k} && k in faults' && faults'[k].severity >= SevereFrom;
    }
    if HasSevereFault(open, faults) {
      var f :| f in open && f in faults && faults[f].severity >= SevereFrom;
      assert f in open + {k} && f in faults';
    }
  }

  lemma WfTouched(s: State, l: string)
    requires Wf(s)
    ensures Wf(s.(lockers := Touch(s.lockers, l)))
  {
  }

  /** Overwriting one compartment with an entry that itself satisfies the
      invariant keeps the invariant. */
  lemma WfSetCompartment(s: State, l: string, c: string, comp: Compartment)
    requires Wf(s) && l in s.lockers
    requires comp.degraded == HasSevereFault(comp.openFaults, s.faults)
    requires forall f | f in comp.openFaults :: f in s.faults && s.faults[f].lockerId == l && s.faults[f].compartmentId == c
    ensures Wf(s.(lockers := s.lockers[l := s.lockers[l][c := comp]]))
  {
  }

  /** Changing only the active reservations of one locker keeps the
      invariant. */
  lemma WfSetReservations(s: State, l: string, comps: map<string, Compartment>)
    requires Wf(s) && l in s.lockers
    requires comps.Keys == s.lockers[l].Keys
    requires forall c | c in comps :: comps[c].degraded == s.lockers[l][c].degraded && comps[c].openFaults == s.lockers[l][c].openFaults
    ensures Wf(s.(lockers := s.lockers[l := comps]))
  {
    var s' := s.(lockers := s.lockers[l := comps]);
    forall l', c' | l' in s'.lockers && c' in s'.lockers[l']
      ensures s'.lockers[l'][c'].degraded == HasSevereFault(s'.lockers[l'][c'].openFaults, s'.faults)
    {
      if l' == l {
        assert s'.lockers[l'][c'] == comps[c'];
      }
    }
  }

  /** Recording a fault under an id no compartment has open keeps the
      invariant. */
  lemma WfRecordFault(s: State, k: string, v: FaultRecord)
    requires Wf(s) && k !in s.faults
    ensures Wf(s.(faults := s.faults[k := v]))
  {
    var s' := s.(faults := s.faults[k := v]);
    forall l, c | l in s.lockers && c in s.lockers[l]
      ensures s'.lockers[l][c].degraded == HasSevereFault(s'.lockers[l][c].openFaults, s'.faults)
    {
      SevereFaultIgnoresOtherKeys(s.lockers[l][c].openFaults, s.faults, k, v);
    }
  }

  lemma WfAfterReservationCreated(s: State, e: Event)
    requires Wf(s) && e.payload.ReservationCreated?
    ensures Wf(Step(s, e).state)
  {
    var l, c, r := e.lockerId, e.payload.compartmentId, e.payload.reservationId;
    var touched := s.(lockers := Touch(s.lockers, l));
    var comps := touched.lockers[l];
    WfTouched(s, l);
    if c in comps && !comps[c].degraded && !Occupied(comps[c]) {
      WfSetCompartment(touched, l, c, comps[c].(activeReservation := Some(r)));
      assert Step(s, e).state == touched.(lockers := touched.lockers[l := comps[c := comps[c].(activeReservation := Some(r))]],
                                         reservations := s.reservations[r := Created]);
    }
  }

  lemma WfAfterRelease(s: State, e: Event)
    requires Wf(s) && (e.payload.ParcelPickedUp? || e.payload.ReservationExpired?)
    ensures Wf(Step(s, e).state)
  {
    var l, r := e.lockerId, e.payload.reservationId;
    var touched := s.(lockers := Touch(s.lockers, l));
    WfTouched(s, l);
    WfSetReservations(touched, l, Cleared(touched.lockers[l], r));
  }

  lemma WfAfterFaultReported(s: State, e: Event)
    requires Wf(s) && e.payload.FaultReported? && e.eventId !in s.faults
    ensures Wf(Step(s, e).state)
  {
    var l, c, sev := e.lockerId, e.payload.compartmentId, e.payload.severity;
    var touched := s.(lockers := Touch(s.lockers, l));
    var comps := touched.lockers[l];
    WfTouched(s, l);
    if c in comps {
      var rec := FaultRecord(l, c, sev);
      var recorded := touched.(faults := s.faults[e.eventId := rec]);
      WfRecordFault(touched, e.eventId, rec);
      SevereFaultAdded(comps[c].openFaults, s.faults, e.eventId, rec);
      var comp := comps[c].(openFaults := comps[c].openFaults + {e.eventId},
                            degraded := comps[c].degraded || sev >= SevereFrom);
      WfSetCompartment(recorded, l, c, comp);
      assert Step(s, e).state == recorded.(lockers := recorded.lockers[l := comps[c := comp]]);
    }
  }

  lemma WfAfterFaultCleared(s: State, e: Event)
    requires Wf(s) && e.payload.FaultCleared?
    ensures Wf(Step(s, e).state)
  {
    var l, ref := e.lockerId, e.payload.referenceEventId;
    var touched := s.(lockers := Touch(s.lockers, l));
    var comps := touched.lockers[l];
    WfTouched(s, l);
    if ref in s.faults {
      var c := s.faults[ref].compartmentId;
      if c in comps && ref in comps[c].openFaults {
        var open := comps[c].openFaults - {ref};
        WfSetCompartment(touched, l, c, comps[c].(openFaults := open, degraded := HasSevereFault(open, s.faults)));
      }
    }
  }

  /** Every application, accepted or rejected, preserves the degraded
      invariant and fault lineage, provided a reported fault's event id is
      fresh (the log's deduplication guarantees it). */
  lemma StepPreservesWf(s: State, e: Event)
    requires Wf(s)
    requires e.payload.FaultReported? ==> e.eventId !in s.faults
    ensures Wf(Step(s, e).state)
    ensures Step(s, e).state.faults.Keys <= s.faults.Keys + {e.eventId}
  {
    var l := e.lockerId;
    match e.payload
    case CompartmentRegistered(c) =>
      WfTouched(s, l);
      WfSetCompartment(s.(lockers := Touch(s.lockers, l)), l, c, Vacant);
    case ReservationCreated(_, _) =>
      WfAfterReservationCreated(s, e);
    case ParcelDeposited(_) =>
    case ParcelPickedUp(_) =>
      WfAfterRelease(s, e);
    case ReservationExpired(_) =>
      WfAfterRelease(s, e);
    case FaultReported(_, _) =>
      WfAfterFaultReported(s, e);
    case FaultCleared(_) =>
      WfAfterFaultCleared(s, e);
  }

  /** Every application, accepted or rejected, keeps each open fault id
      backed by a fault record, whatever the event's id. */
  lemma StepKeepsOpenFaultsRecorded(s: State, e: Event)
    requires OpenFaultsRecorded(s)
    ensures OpenFaultsRecorded(Step(s, e).state)
  {
  }

  /** From any start state whose open fault ids all have records (the empty
      state among them), a replay keeps it so: the lookup of an open fault's
      record (the source indexes `faults` without a guard when it recomputes
      `degraded`) always finds it. */
  lemma {:induction false} ReplayKeepsOpenFaultsRecorded(s: State, es: seq<Event>)
    requires OpenFaultsRecorded(s)
    ensures OpenFaultsRecorded(Replay(s, es).state)
    decreases |es|
  {
    if es != [] {
      StepKeepsOpenFaultsRecorded(s, es[0]);
      if Step(s, es[0]).outcome == Ok {
        ReplayKeepsOpenFaultsRecorded(Step(s, es[0]).state, es[1..]);
      }
    }
  }

  /** Replaying a log whose event ids are distinct and unused as fault ids
      keeps the degraded invariant and fault lineage. */
  lemma {:induction false} ReplayPreservesWf(s: State, es: seq<Event>)
    requires Wf(s)
    requires UniqueIds(es)
    requires forall i | 0 <= i < |es| :: es[i].eventId !in s.faults
    ensures Wf(Replay(s, es).state)
    decreases |es|
  {
    if es != [] {
      StepPreservesWf(s, es[0]);
      var a := Step(s, es[0]);
      if a.outcome == Ok {
        forall i | 0 <= i < |es[1..]|
          ensures es[1..][i].eventId !in a.state.faults
        {
          assert es[1..][i] == es[i + 1];
        }
        ReplayPreservesWf(a.state, es[1..]);
      }
    }
  }

  /** Compartments are registered with no open fault, so the empty state and
      every state a log replays to from it satisfy the invariant. */
  lemma RebuildIsWf(es: seq<Event>)
    requires UniqueIds(es)
    ensures Wf(Replay(Empty(), es).state)
  {
    ReplayPreservesWf(Empty(), es);
  }

  /** Fault lineage makes the clearing event's locker matter: a fault reported
      on one locker can never be cleared by an event of another locker. */
  lemma ClearingFromAnotherLockerFails(s: State, e: Event)
    requires FaultLineage(s)
    requires e.payload.FaultCleared? && e.payload.referenceEventId in s.faults
    requires e.lockerId != s.faults[e.payload.referenceEventId].lockerId
    ensures Step(s, e).outcome != Ok
  {
  }

  // ---------------------------------------------------------------------
  // Visible state
  // ---------------------------------------------------------------------

  /** A deposit changes only internal bookkeeping, and a fault report changes
      the visible state exactly when it newly degrades its compartment. */
  lemma InternalChangesKeepView(s: State, e: Event)
    requires Step(s, e).outcome == Ok
    ensures e.payload.ParcelDeposited? ==> ViewOf(Step(s, e).state) == ViewOf(s)
    ensures e.payload.FaultReported? ==>
      var c := e.payload.compartmentId;
      (ViewOf(Step(s, e).state) == ViewOf(s) <==> !(e.payload.severity >= 3 && !s.lockers[e.lockerId][c].degraded))
  {
    if e.payload.FaultReported? {
      var st := Step(s, e).state;
      var l, c := e.lockerId, e.payload.compartmentId;
      assert l in s.lockers;
      if e.payload.severity >= 3 && !s.lockers[l][c].degraded {
        assert ViewOf(st)[l][c] != ViewOf(s)[l][c];
      } else {
        assert st.lockers == s.lockers[l := s.lockers[l][c := st.lockers[l][c]]];
        assert ViewOf(st)[l] == ViewOf(s)[l];
      }
    }
  }

  // ---------------------------------------------------------------------
  // Rebuild equivalence
  // ---------------------------------------------------------------------

  /** Replaying `a + b` is replaying `a`, then, if that succeeded, replaying
      `b` from where `a` left off. */
  lemma {:induction false} ReplayConcat(s: State, a: seq<Event>, b: seq<Event>)
    ensures Replay(s, a + b) ==
      (var ra := Replay(s, a); if ra.outcome == Ok then Replay(ra.state, b) else ra)
    decreases |a|
  {
    if a == [] {
      assert a + b == b;
    } else {
      assert (a + b)[0] == a[0];
      assert (a + b)[1..] == a[1..] + b;
      var st := Step(s, a[0]);
      if st.outcome == Ok {
        ReplayConcat(st.state, a[1..], b);
      }
    }
  }

  /** Incremental application: once a log has replayed without rejection,
      applying one more event to the resulting state is the same as replaying
      the extended log. */
  lemma ReplaySnoc(es: seq<Event>, e: Event)
    requires Replay(Empty(), es).outcome == Ok
    ensures Replay(Empty(), es + [e]) == Step(Replay(Empty(), es).state, e)
  {
    ReplayConcat(Empty(), es, [e]);
    assert [e][1..] == [];
  }
}
