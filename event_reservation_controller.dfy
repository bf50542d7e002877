/**
 * The creation guard of the reservations endpoint (EventReservationController.kt):
 * a request is stored only when its room resolves and the conflict engine
 * finds nothing in the way, which is what keeps the store free of double
 * bookings and of bookings over classes.
 */
module EventReservationController {
  import opened Wrappers
  import opened Model
  import opened Persistence
  import JavaTime
  import ConflictService
  import RoomRepository
  import Schedules = AcademicScheduleRepository
  import Reservations = EventReservationRepository

  /** The body of a conflict-check request. */
  datatype ConflictCheckRequest = ConflictCheckRequest(
    roomId: int,
    eventDate: JavaTime.LocalDate,
    startTime: JavaTime.LocalTime,
    endTime: JavaTime.LocalTime)

  /** The three answers of `createReservation`: 400, 409 and 201. */
  datatype CreateResponse =
    | BadRequest(error: string)
    | ConflictResponse(error: string, conflicts: ConflictService.ConflictResult)
    | Created(reservation: EventReservation)

  /**
   * `createReservation` on the reservations table `rows`, the rooms table and
   * the class timetable: the response and the reservations table after it. The
   * request is stored, with its room replaced by the stored room, exactly when
   * it names a stored room that is free for the requested window.
   */
  function Creation(rows: seq<EventReservation>, rooms: seq<Room>, schedules: seq<AcademicSchedule>,
                    request: EventReservation): (o: (CreateResponse, seq<EventReservation>))
    requires KeyedRows(rows)
    ensures request.room.id.None? ==> o == (BadRequest("Room ID is required"), rows)
    ensures request.room.id.Some? && RoomRepository.FindById(rooms, request.room.id.value).None? ==>
      o == (BadRequest("Room not found"), rows)
    ensures !o.0.Created? ==> o.1 == rows
    ensures o.0.ConflictResponse? ==>
      && request.room.id.Some?
      && o.0.error == "Room is not available at the requested time"
      && o.0.conflicts.hasConflict
      && o.0.conflicts == ConflictService.FindConflicts(schedules, rows, request.room.id.value,
                                                        request.eventDate, request.startTime, request.endTime)
    ensures && request.room.id.Some?
            && RoomRepository.FindById(rooms, request.room.id.value).Some?
            && ConflictService.RoomOccupied(schedules, rows, request.room.id.value,
                                            request.eventDate, request.startTime, request.endTime)
            ==> o.0.ConflictResponse?
    ensures o.0.Created? <==>
      && request.room.id.Some?
      && RoomRepository.FindById(rooms, request.room.id.value).Some?
      && !ConflictService.RoomOccupied(schedules, rows, request.room.id.value,
                                       request.eventDate, request.startTime, request.endTime)
    ensures o.0.Created? ==>
      var room := RoomRepository.FindById(rooms, request.room.id.value).value;
      && room.id == request.room.id
      && o.0.reservation == request.(room := room, id := o.0.reservation.id)
      && (o.1, o.0.reservation) == Upsert(rows, request.(room := room))
  {
    if request.room.id.None? then (BadRequest("Room ID is required"), rows)
    else
      var roomId := request.room.id.value;
      match RoomRepository.FindById(rooms, roomId)
      case None => (BadRequest("Room not found"), rows)
      case Some(room) =>
        var conflicts := ConflictService.FindConflicts(schedules, rows, roomId, request.eventDate,
                                                       request.startTime, request.endTime);
        if conflicts.hasConflict then
          (ConflictResponse("Room is not available at the requested time", conflicts), rows)
        else
          var written := Upsert(rows, request.(room := room));
          (Created(written.1), written.0)
  }

  /**
   * Storing a reservation that no occupying reservation of its room and date,
   * and no class slot of its room and weekday, overlaps keeps both store
   * invariants, whether the store inserts it or replaces a row with it.
   */
  lemma SavingFreeReservationKeepsInvariants(schedules: seq<AcademicSchedule>, rows: seq<EventReservation>,
                                             x: EventReservation)
    requires KeyedRows(rows)
    requires NoDoubleBooking(rows) && ClearOfClasses(schedules, rows)
    requires x.room.id.Some?
    requires !ConflictService.RoomOccupied(schedules, rows, x.room.id.value, x.eventDate, x.startTime, x.endTime)
    ensures NoDoubleBooking(Upsert(rows, x).0)
    ensures ClearOfClasses(schedules, Upsert(rows, x).0)
  {
    var (written, saved) := Upsert(rows, x);
    var roomId := x.room.id.value;
    assert forall e :: e in rows ==> !Clash(e, saved) && !Clash(saved, e) by {
      forall e | e in rows ensures !Clash(e, saved) && !Clash(saved, e) {
        assert !Reservations.ConflictingReservation(e, roomId, x.eventDate, x.startTime, x.endTime);
      }
    }
    // Each stored row is either the saved entity or the row already at that place.
    assert forall k :: 0 <= k < |written| ==> written[k] == saved || (k < |rows| && written[k] == rows[k]);
    forall j, k | 0 <= j < |written| && 0 <= k < |written| && j != k
      ensures !Clash(written[j], written[k])
    {
      if written[j] == saved && written[k] == saved {
        assert false;  // the saved entity occupies one place only, the key being unique
      } else if written[j] == saved {
        assert written[k] in rows;
      } else if written[k] == saved {
        assert written[j] in rows;
      } else {
        assert !Clash(rows[j], rows[k]);
      }
    }
    forall s, e | s in schedules && e in written
      ensures !ClassClash(s, e)
    {
      if e == saved {
        assert !Schedules.ConflictingSchedule(s, roomId, ConflictService.ConvertToDayOfWeek(x.eventDate),
                                              x.startTime, x.endTime);
      } else {
        var k :| 0 <= k < |written| && written[k] == e;
        assert rows[k] in rows;
      }
    }
  }

  /**
   * The guard keeps the store invariants: after `createReservation`, still no
   * two reservations hold a room at once and none holds it during a class.
   */
  lemma CreationKeepsInvariants(rows: seq<EventReservation>, rooms: seq<Room>,
                                schedules: seq<AcademicSchedule>, request: EventReservation)
    requires KeyedRows(rows)
    requires NoDoubleBooking(rows) && ClearOfClasses(schedules, rows)
    ensures NoDoubleBooking(Creation(rows, rooms, schedules, request).1)
    ensures ClearOfClasses(schedules, Creation(rows, rooms, schedules, request).1)
  {
    var o := Creation(rows, rooms, schedules, request);
    if o.0.Created? {
      var room := RoomRepository.FindById(rooms, request.room.id.value).value;
      SavingFreeReservationKeepsInvariants(schedules, rows, request.(room := room));
    }
  }

  /**
   * A created reservation is stored under the returned id, and no occupying
   * reservation of its room and date, and no class of its room and weekday,
   * overlaps its window, whatever status the request itself carries.
   */
  lemma CreatedReservationIsFree(rows: seq<EventReservation>, rooms: seq<Room>,
                                 schedules: seq<AcademicSchedule>, request: EventReservation)
    requires KeyedRows(rows)
    requires Creation(rows, rooms, schedules, request).0.Created?
    ensures var o := Creation(rows, rooms, schedules, request);
            && o.0.reservation in o.1
            && o.0.reservation.room.id == request.room.id
            && (forall e :: e in rows ==> !Clash(e, o.0.reservation))
            && (forall s :: s in schedules ==> !ClassClash(s, o.0.reservation))
            && (forall e :: e in rows ==>
                  !Reservations.ConflictingReservation(e, request.room.id.value, o.0.reservation.eventDate,
                                                       o.0.reservation.startTime, o.0.reservation.endTime))
            && (forall s :: s in schedules ==>
                  !Schedules.ConflictingSchedule(s, request.room.id.value,
                                                 ConflictService.ConvertToDayOfWeek(o.0.reservation.eventDate),
                                                 o.0.reservation.startTime, o.0.reservation.endTime))
  {
    var o := Creation(rows, rooms, schedules, request);
    var saved := o.0.reservation;
    var roomId := request.room.id.value;
    forall e | e in rows ensures !Clash(e, saved) {
      assert !Reservations.ConflictingReservation(e, roomId, request.eventDate, request.startTime, request.endTime);
    }
    forall s | s in schedules ensures !ClassClash(s, saved) {
      assert !Schedules.ConflictingSchedule(s, roomId, ConflictService.ConvertToDayOfWeek(request.eventDate),
                                            request.startTime, request.endTime);
    }
  }

  /** `createReservation`, as one write to the store. */
  method CreateReservation(store: ReservationStore, rooms: seq<Room>, schedules: seq<AcademicSchedule>,
                           request: EventReservation)
    returns (response: CreateResponse)
    requires store.Valid()
    modifies store`reservations
    ensures store.Valid()
    ensures Creation(old(store.reservations), rooms, schedules, request) == (response, store.reservations)
    ensures old(NoDoubleBooking(store.reservations) && ClearOfClasses(schedules, store.reservations)) ==>
      NoDoubleBooking(store.reservations) && ClearOfClasses(schedules, store.reservations)
  {
    ghost var before := store.reservations;
    if request.room.id.None? {
      return BadRequest("Room ID is required");
    }
    var roomId := request.room.id.value;
    var found := RoomRepository.FindById(rooms, roomId);
    if found.None? {
      return BadRequest("Room not found");
    }
    var room := found.value;
    var conflicts := ConflictService.FindConflicts(schedules, store.reservations, roomId, request.eventDate,
                                                   request.startTime, request.endTime);
    if conflicts.hasConflict {
      return ConflictResponse("Room is not available at the requested time", conflicts);
    }
    var reservationToSave := request.(room := room);
    var saved := store.Save(reservationToSave);
    response := Created(saved);
    if NoDoubleBooking(before) && ClearOfClasses(schedules, before) {
      CreationKeepsInvariants(before, rooms, schedules, request);
    }
  }

  /** `checkConflicts`: the conflict engine's answer for the request, with nothing written. */
  method CheckConflicts(store: ReservationStore, schedules: seq<AcademicSchedule>, request: ConflictCheckRequest)
    returns (r: ConflictService.ConflictResult)
    ensures r == ConflictService.FindConflicts(schedules, store.reservations, request.roomId, request.eventDate,
                                               request.startTime, request.endTime)
    ensures r.hasConflict <==> ConflictService.RoomOccupied(schedules, store.reservations, request.roomId,
                                                            request.eventDate, request.startTime, request.endTime)
  {
    r := ConflictService.FindConflicts(schedules, store.reservations, request.roomId, request.eventDate,
                                       request.startTime, request.endTime);
  }
}
