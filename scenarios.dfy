/** Concrete event histories: the documented scenarios and the behaviours of
    the projection that follow from its code rather than from its design
    notes, each computed on the pure specification. */
module Scenarios {
  import opened Domain
  import opened LockerProjection

  function Register(id: string, l: string, c: string): Event
  {
    Event(id, l, CompartmentRegistered(c))
  }

  /** Register C1 on L1, create R1 on it, deposit, pick up: all four are
      accepted, C1 ends vacant and R1 is picked up. */
  lemma ScenarioPickupLifecycle()
    ensures var a := Replay(Empty(), [Register("e1", "L1", "C1"),
                                      Event("e2", "L1", ReservationCreated("C1", "R1")),
                                      Event("e3", "L1", ParcelDeposited("R1")),
                                      Event("e4", "L1", ParcelPickedUp("R1"))]);
      && a.outcome == Ok
      && a.state.lockers["L1"]["C1"].activeReservation == None
      && a.state.reservations["R1"] == PickedUp
  {
    var s1 := Step(Empty(), Register("e1", "L1", "C1")).state;
    var s2 := Step(s1, Event("e2", "L1", ReservationCreated("C1", "R1"))).state;
    var s3 := Step(s2, Event("e3", "L1", ParcelDeposited("R1"))).state;
    assert s3.lockers["L1"]["C1"].activeReservation == Some("R1");
  }

  /** A deposit with no prior reservation is rejected and leaves the state,
      and so the view of every locker, exactly as it was. */
  lemma ScenarioDepositWithoutReservation(s: State)
    requires "R9" !in s.reservations
    ensures Step(s, Event("e1", "L1", ParcelDeposited("R9"))) == Applied(s, InvalidTransition)
  {
  }

  /** Picking up a reservation that was created but never deposited is
      rejected. */
  lemma PickupBeforeDepositFails()
    ensures Replay(Empty(), [Register("e1", "L1", "C1"),
                             Event("e2", "L1", ReservationCreated("C1", "R2")),
                             Event("e3", "L1", ParcelPickedUp("R2"))]).outcome == InvalidTransition
  {
  }

  /** A severity-3 fault degrades C1; clearing it restores C1; clearing it a
      second time is a fault reference error. */
  lemma ScenarioFaultLifecycle()
    ensures var s1 := Replay(Empty(), [Register("e1", "L1", "C1"), Event("F1", "L1", FaultReported("C1", 3))]);
      var s2 := Step(s1.state, Event("e3", "L1", FaultCleared("F1")));
      && s1.outcome == Ok && s1.state.lockers["L1"]["C1"].degraded
      && s2.outcome == Ok && !s2.state.lockers["L1"]["C1"].degraded
      && "F1" in s2.state.faults
      && Step(s2.state, Event("e4", "L1", FaultCleared("F1"))).outcome == FaultReferenceError
  {
    var s1 := Replay(Empty(), [Register("e1", "L1", "C1"), Event("F1", "L1", FaultReported("C1", 3))]);
    assert s1.state.lockers["L1"]["C1"].openFaults == {"F1"};
    var s2 := Step(s1.state, Event("e3", "L1", FaultCleared("F1")));
    assert s2.state.lockers["L1"]["C1"].openFaults == {};
  }

  /** Re-registering a compartment wipes its reservation and open faults. */
  lemma ReRegistrationResets(s: State, l: string, c: string)
    ensures Step(s, Register("e", l, c)).state.lockers[l][c] == Vacant
  {
  }

  /** Occupancy is truthiness: a compartment whose reservation id is the empty
      string accepts another reservation. */
  lemma EmptyReservationIdCountsAsVacant()
    ensures Replay(Empty(), [Register("e1", "L1", "C1"),
                             Event("e2", "L1", ReservationCreated("C1", "")),
                             Event("e3", "L1", ReservationCreated("C1", "R2"))]).outcome == Ok
  {
  }

  /** A rejected reservation on an unknown locker still adds that locker,
      empty, to the view the state hash digests. */
  lemma RejectedEventAddsEmptyLocker()
    ensures var a := Step(Empty(), Event("e1", "L9", ReservationCreated("C1", "R1")));
      a.outcome == InvalidTransition && ViewOf(a.state) == map["L9" := map[]]
  {
  }

  /** A pickup submitted under another locker is accepted but releases the
      compartment only in that other locker: C1 on L1 stays occupied. */
  lemma PickupUnderOtherLockerKeepsCompartmentOccupied()
    ensures var a := Replay(Empty(), [Register("e1", "L1", "C1"),
                                      Event("e2", "L1", ReservationCreated("C1", "R1")),
                                      Event("e3", "L1", ParcelDeposited("R1")),
                                      Event("e4", "L2", ParcelPickedUp("R1"))]);
      && a.outcome == Ok
      && a.state.reservations["R1"] == PickedUp
      && a.state.lockers["L1"]["C1"].activeReservation == Some("R1")
  {
  }

  /** `ReservationCreated` does not look at the reservation's previous state:
      a picked-up reservation id can be created again, going back to
      `Created`. */
  lemma PickedUpReservationCanBeRecreated()
    ensures var a := Replay(Empty(), [Register("e1", "L1", "C1"),
                                      Event("e2", "L1", ReservationCreated("C1", "R1")),
                                      Event("e3", "L1", ParcelDeposited("R1")),
                                      Event("e4", "L1", ParcelPickedUp("R1")),
                                      Event("e5", "L1", ReservationCreated("C1", "R1"))]);
      a.outcome == Ok && a.state.reservations["R1"] == Created
  {
    var s3 := Replay(Empty(), [Register("e1", "L1", "C1"),
                               Event("e2", "L1", ReservationCreated("C1", "R1")),
                               Event("e3", "L1", ParcelDeposited("R1"))]);
    assert s3.state.lockers["L1"]["C1"].activeReservation == Some("R1");
  }

  /** The fault's compartment is looked up under the clearing event's locker:
      from a locker with a same-named compartment the clear is a reference
      error, from a locker without it an invalid transition. */
  lemma ClearUsesClearingEventsLocker()
    ensures var a := Replay(Empty(), [Register("e1", "L1", "C1"), Register("e2", "L2", "C1"),
                                      Event("F1", "L1", FaultReported("C1", 5))]);
      && a.outcome == Ok
      && Step(a.state, Event("e4", "L2", FaultCleared("F1"))).outcome == FaultReferenceError
      && Step(a.state, Event("e5", "L3", FaultCleared("F1"))).outcome == InvalidTransition
  {
  }
}
