/**
 * The reservation and approval-log tables as one mutable store: what the JPA
 * repositories' `save` does to the rows, and the store invariants the
 * workflow is meant to keep.
 */
module Persistence {
  import opened Wrappers
  import opened Model
  import ConflictService
  import Reservations = EventReservationRepository

  /** The primary key of the reservations table: every stored row has an id, and no two rows share one. */
  predicate KeyedRows(rows: seq<EventReservation>)
  {
    && (forall i :: 0 <= i < |rows| ==> rows[i].id.Some?)
    && (forall i, j :: 0 <= i < j < |rows| ==> rows[i].id != rows[j].id)
  }

  /** The largest id in use when some id is positive, otherwise 0: an upper bound, at least 0, of the ids in use. */
  function MaxId(rows: seq<EventReservation>): (m: int)
    requires forall i :: 0 <= i < |rows| ==> rows[i].id.Some?
    ensures m >= 0
    ensures forall i :: 0 <= i < |rows| ==> rows[i].id.value <= m
    ensures m == 0 || exists i :: 0 <= i < |rows| && rows[i].id.value == m
  {
    if rows == [] then 0
    else
      var rest := MaxId(rows[1..]);
      assert forall i :: 1 <= i < |rows| ==> rows[i] == rows[1..][i - 1];
      if rows[0].id.value > rest then rows[0].id.value else rest
  }

  /** The id the identity column hands out next: positive and not held by any stored row. */
  function NextId(rows: seq<EventReservation>): (id: int)
    requires forall i :: 0 <= i < |rows| ==> rows[i].id.Some?
    ensures id > 0
    ensures forall i :: 0 <= i < |rows| ==> rows[i].id != Some(id)
  {
    MaxId(rows) + 1
  }

  /**
   * `save`: an entity whose id names a stored row replaces that row in place;
   * any other entity is inserted at the end under a fresh id. Returns the new
   * rows and the entity as saved. The key is kept, every other row keeps its
   * place, and the saved entity differs from the given one at most in its id.
   */
  function Upsert(rows: seq<EventReservation>, e: EventReservation): (r: (seq<EventReservation>, EventReservation))
    requires KeyedRows(rows)
    ensures KeyedRows(r.0)
    ensures r.1 in r.0 && r.1.id.Some?
    ensures r.1 == e.(id := r.1.id)
    ensures |r.0| >= |rows|
    ensures forall k :: 0 <= k < |rows| ==> r.0[k] == (if rows[k].id == r.1.id then r.1 else rows[k])
    ensures |r.0| == |rows| <==> e.id.Some? && exists k :: 0 <= k < |rows| && rows[k].id == e.id
    ensures |r.0| == |rows| ==> r.1 == e
    ensures |r.0| != |rows| ==> r.0 == rows + [r.1]
  {
    var found := if e.id.Some? then Reservations.IndexOfId(rows, e.id.value) else None;
    match found
    case Some(i) =>
      assert rows[i].id == e.id;
      assert rows[i := e][i] == e;
      (rows[i := e], e)
    case None =>
      var saved := e.(id := Some(NextId(rows)));
      assert forall k :: 0 <= k < |rows| ==> rows[k] in rows;
      (rows + [saved], saved)
  }

  /** Two reservations that hold the same room on the same date at overlapping times. */
  predicate Clash(a: EventReservation, b: EventReservation)
  {
    && a.room.id.Some?
    && a.room.id == b.room.id
    && a.eventDate == b.eventDate
    && Reservations.Occupying(a.status)
    && Reservations.Occupying(b.status)
    && Overlaps(a.startTime, a.endTime, b.startTime, b.endTime)
  }

  /** No two stored reservations hold the same room at the same time. */
  predicate NoDoubleBooking(rows: seq<EventReservation>)
  {
    forall i, j :: 0 <= i < |rows| && 0 <= j < |rows| && i != j ==> !Clash(rows[i], rows[j])
  }

  /** A class slot and a reservation that hold the same room on the slot's weekday at overlapping times. */
  predicate ClassClash(s: AcademicSchedule, e: EventReservation)
  {
    && e.room.id.Some?
    && s.room.id == e.room.id
    && s.dayOfWeek == ConflictService.ConvertToDayOfWeek(e.eventDate)
    && Reservations.Occupying(e.status)
    && Overlaps(s.startTime, s.endTime, e.startTime, e.endTime)
  }

  /** No stored reservation holds a room during one of its class slots. */
  predicate ClearOfClasses(schedules: seq<AcademicSchedule>, rows: seq<EventReservation>)
  {
    forall s, e :: s in schedules && e in rows ==> !ClassClash(s, e)
  }

  /**
   * Changing one stored reservation in a way that keeps its room, date and
   * times, and that does not make it hold the room if it did not already,
   * keeps both store invariants.
   */
  lemma ReplacingWithoutActivatingKeepsInvariants(schedules: seq<AcademicSchedule>,
                                                  rows: seq<EventReservation>, i: nat, x: EventReservation)
    requires i < |rows|
    requires NoDoubleBooking(rows) && ClearOfClasses(schedules, rows)
    requires x.room == rows[i].room && x.eventDate == rows[i].eventDate
    requires x.startTime == rows[i].startTime && x.endTime == rows[i].endTime
    requires Reservations.Occupying(x.status) ==> Reservations.Occupying(rows[i].status)
    ensures NoDoubleBooking(rows[i := x])
    ensures ClearOfClasses(schedules, rows[i := x])
  {
    var updated := rows[i := x];
    forall j, k | 0 <= j < |updated| && 0 <= k < |updated| && j != k
      ensures !Clash(updated[j], updated[k])
    {
      assert !Clash(rows[j], rows[k]);
    }
    forall s, e | s in schedules && e in updated
      ensures !ClassClash(s, e)
    {
      var k :| 0 <= k < |updated| && updated[k] == e;
      assert rows[k] in rows;
    }
  }

  /**
   * The two tables the approval workflow writes. `reservations` holds the rows
   * in storage order, which is the order unsorted queries return them in;
   * `logs` is append-only and its identity column counts from 1.
   */
  class ReservationStore {
    var reservations: seq<EventReservation>
    var logs: seq<ApprovalLog>

    ghost predicate Valid()
      reads this
    {
      && KeyedRows(reservations)
      && forall i :: 0 <= i < |logs| ==> logs[i].id == Some(i + 1)
    }

    /** A store over the given reservation rows and an empty log. */
    constructor(rows: seq<EventReservation>)
      requires KeyedRows(rows)
      ensures Valid()
      ensures reservations == rows && logs == []
    {
      reservations := rows;
      logs := [];
    }

    /** `EventReservationRepository.save`. */
    method Save(e: EventReservation) returns (saved: EventReservation)
      requires Valid()
      modifies this`reservations
      ensures Valid()
      ensures (reservations, saved) == Upsert(old(reservations), e)
    {
      var r := Upsert(reservations, e);
      reservations := r.0;
      saved := r.1;
    }

    /** `ApprovalLogRepository.save` of a new log: appended under the next id. */
    method AppendLog(log: ApprovalLog) returns (saved: ApprovalLog)
      requires Valid()
      modifies this`logs
      ensures Valid()
      ensures saved == log.(id := Some(|old(logs)| + 1))
      ensures logs == old(logs) + [saved]
    {
      saved := log.(id := Some(|logs| + 1));
      logs := logs + [saved];
    }
  }
}
