/** The queries over the event_reservations table (EventReservationRepository.kt), as filters of its rows. */
module EventReservationRepository {
  import opened Wrappers
  import opened Model
  import opened Seqs
  import JavaTime

  /** The statuses that hold a room: the `IN ('APPROVED', 'ADVISOR_APPROVED', 'PENDING')` list. */
  predicate Occupying(status: ReservationStatus)
  {
    status in {Approved, AdvisorApproved, Pending}
  }

  /** `findById` (inherited from JpaRepository): the position of the row stored under `id`, if any. */
  function IndexOfId(reservations: seq<EventReservation>, id: int): (r: Option<nat>)
    ensures r.Some? ==> r.value < |reservations| && reservations[r.value].id == Some(id)
    ensures r.None? <==> forall e :: e in reservations ==> e.id != Some(id)
  {
    IndexWhere(reservations, (e: EventReservation) => e.id == Some(id))
  }

  /** `findById`: the reservation stored under `id`, if any. */
  function FindById(reservations: seq<EventReservation>, id: int): (r: Option<EventReservation>)
    ensures r.Some? ==> r.value in reservations && r.value.id == Some(id)
    ensures r.None? <==> forall e :: e in reservations ==> e.id != Some(id)
  {
    match IndexOfId(reservations, id)
    case None => None
    case Some(i) => Some(reservations[i])
  }

  /** `findByStatus`: exactly the reservations in that status, in table order. */
  function FindByStatus(reservations: seq<EventReservation>, status: ReservationStatus): (r: seq<EventReservation>)
    ensures forall e :: e in r ==> e in reservations && e.status == status
    ensures forall e :: e in reservations && e.status == status ==> e in r
  {
    Filter(reservations, (e: EventReservation) => e.status == status)
  }

  /** The `WHERE` clause of `findConflictingReservations`. */
  predicate ConflictingReservation(e: EventReservation, roomId: int, eventDate: JavaTime.LocalDate,
                                   startTime: JavaTime.LocalTime, endTime: JavaTime.LocalTime)
  {
    && e.room.id == Some(roomId)
    && e.eventDate == eventDate
    && Occupying(e.status)
    && Overlaps(e.startTime, e.endTime, startTime, endTime)
  }

  /**
   * `findConflictingReservations`: exactly the pending or (advisor-)approved
   * reservations of the room on that date whose interval overlaps the requested
   * one, in table order.
   */
  function FindConflictingReservations(reservations: seq<EventReservation>, roomId: int,
                                       eventDate: JavaTime.LocalDate,
                                       startTime: JavaTime.LocalTime, endTime: JavaTime.LocalTime)
    : (r: seq<EventReservation>)
    ensures forall e :: e in r ==>
      && e in reservations && e.room.id == Some(roomId) && e.eventDate == eventDate
      && e.status in {Pending, AdvisorApproved, Approved}
      && e.startTime < endTime && e.endTime > startTime
    ensures forall e ::
      (&& e in reservations && e.room.id == Some(roomId) && e.eventDate == eventDate
       && e.status in {Pending, AdvisorApproved, Approved}
       && e.startTime < endTime && e.endTime > startTime) ==> e in r
  {
    Filter(reservations, (e: EventReservation) => ConflictingReservation(e, roomId, eventDate, startTime, endTime))
  }

  /** A rejected or cancelled reservation never conflicts, whatever its times. */
  lemma InactiveReservationsNeverConflict(reservations: seq<EventReservation>, roomId: int,
                                          eventDate: JavaTime.LocalDate,
                                          startTime: JavaTime.LocalTime, endTime: JavaTime.LocalTime,
                                          e: EventReservation)
    requires e.status == Rejected || e.status == Cancelled
    ensures e !in FindConflictingReservations(reservations, roomId, eventDate, startTime, endTime)
  {
  }

  /** A booking that ends exactly when the window starts, or starts exactly when it ends, is not a conflict. */
  lemma BackToBackReservationsDoNotConflict(reservations: seq<EventReservation>, roomId: int,
                                            eventDate: JavaTime.LocalDate,
                                            startTime: JavaTime.LocalTime, endTime: JavaTime.LocalTime,
                                            e: EventReservation)
    requires e.endTime == startTime || e.startTime == endTime
    ensures e !in FindConflictingReservations(reservations, roomId, eventDate, startTime, endTime)
  {
  }

  /** The `ORDER BY e.eventDate, e.startTime` comparison. */
  predicate EarlierOrSame(a: EventReservation, b: EventReservation)
  {
    a.eventDate < b.eventDate || (a.eventDate == b.eventDate && a.startTime <= b.startTime)
  }

  lemma EarlierOrSameIsTotalPreorder()
    ensures TotalPreorder(EarlierOrSame)
  {
  }

  /** The `WHERE` clause of `findApprovedReservationsBetween`: both bounds inclusive, PENDING excluded. */
  predicate ApprovedBetween(e: EventReservation, startDate: JavaTime.LocalDate, endDate: JavaTime.LocalDate)
  {
    startDate <= e.eventDate <= endDate && e.status in {Approved, AdvisorApproved}
  }

  /**
   * `findApprovedReservationsBetween`: the approved and advisor-approved
   * reservations dated from `startDate` to `endDate` inclusive, each exactly as
   * often as it is stored, ordered by date and then by start time.
   */
  function FindApprovedReservationsBetween(reservations: seq<EventReservation>,
                                           startDate: JavaTime.LocalDate, endDate: JavaTime.LocalDate)
    : (r: seq<EventReservation>)
    ensures forall e :: e in r ==>
      e in reservations && startDate <= e.eventDate <= endDate && e.status in {Approved, AdvisorApproved}
    ensures forall e ::
      (e in reservations && startDate <= e.eventDate <= endDate && e.status in {Approved, AdvisorApproved})
      ==> e in r
    ensures multiset(r) == multiset(Filter(reservations, (e: EventReservation) => ApprovedBetween(e, startDate, endDate)))
    ensures forall i, j :: 0 <= i < j < |r| ==>
      r[i].eventDate < r[j].eventDate || (r[i].eventDate == r[j].eventDate && r[i].startTime <= r[j].startTime)
  {
    var matching := Filter(reservations, (e: EventReservation) => ApprovedBetween(e, startDate, endDate));
    EarlierOrSameIsTotalPreorder();
    var r := SortBy(matching, EarlierOrSame);
    assert forall e :: e in r <==> e in matching by {
      forall e ensures e in r <==> e in matching {
        assert e in r <==> e in multiset(r);
      }
    }
    r
  }
}
