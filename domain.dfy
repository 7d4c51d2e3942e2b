/** Shared vocabulary of the locker system: the event record the projection
    consumes, the reservation lifecycle states, and the closed set of outcomes
    an application of one event can have. */
module Domain {

  datatype Option<+T> = None | Some(value: T)

  /** Lifecycle states of a reservation (`ReservationState`). */
  datatype ReservationState = Created | Deposited | PickedUp | Expired

  /** The kind-specific payload of an event. Its seven constructors are the
      seven event types; each carries exactly the payload keys the projection
      reads for that type. */
  datatype Payload =
    | CompartmentRegistered(compartmentId: string)
    | ReservationCreated(compartmentId: string, reservationId: string)
    | ParcelDeposited(reservationId: string)
    | ParcelPickedUp(reservationId: string)
    | ReservationExpired(reservationId: string)
    | FaultReported(compartmentId: string, severity: int)
    | FaultCleared(referenceEventId: string)

  /** An immutable domain fact. `occurred_at` is never read by the core and
      is not modelled. */
  datatype Event = Event(eventId: string, lockerId: string, payload: Payload)

  /** Result of applying one event: success, or one of the two domain errors
      the projection raises. */
  datatype Outcome = Ok | InvalidTransition | FaultReferenceError

  /** No two events of the sequence share an event id. */
  ghost predicate UniqueIds(es: seq<Event>)
  {
    forall i, j | 0 <= i < j < |es| :: es[i].eventId != es[j].eventId
  }
}
