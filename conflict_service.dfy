/**
 * The conflict engine (ConflictService.kt): whether a room is free on a date
 * for a time window, judged against the room's weekly class slots and its
 * one-off reservations. The two tables are passed in as snapshots of the
 * store, as the service reads them through its two injected repositories.
 */
module ConflictService {
  import opened Wrappers
  import opened Model
  import opened Seqs
  import JavaTime
  import Schedules = AcademicScheduleRepository
  import Reservations = EventReservationRepository

  /** `convertToDayOfWeek`: the calendar weekday of the date, as the schedule enum. */
  function ConvertToDayOfWeek(date: JavaTime.LocalDate): (d: DayOfWeek)
    ensures d.Name() == JavaTime.DayOfWeekOf(date).Name()
  {
    match JavaTime.DayOfWeekOf(date)
    case Monday => Monday
    case Tuesday => Tuesday
    case Wednesday => Wednesday
    case Thursday => Thursday
    case Friday => Friday
    case Saturday => Saturday
    case Sunday => Sunday
  }

  /** Two dates get the same schedule weekday exactly when the calendar gives them the same weekday. */
  lemma ConvertToDayOfWeekIsOneToOne(date1: JavaTime.LocalDate, date2: JavaTime.LocalDate)
    ensures ConvertToDayOfWeek(date1) == ConvertToDayOfWeek(date2)
        <==> JavaTime.DayOfWeekOf(date1) == JavaTime.DayOfWeekOf(date2)
  {
  }

  /** Every schedule weekday is the weekday of some date in any week (here, the week of 1970-01-01). */
  lemma ConvertToDayOfWeekIsOnto(d: DayOfWeek)
    ensures exists date: JavaTime.LocalDate :: 0 <= date < 7 && ConvertToDayOfWeek(date) == d
  {
    // 1970-01-05 (epoch day 4) was a Monday.
    var date: JavaTime.LocalDate := match d
      case Monday => 4
      case Tuesday => 5
      case Wednesday => 6
      case Thursday => 0
      case Friday => 1
      case Saturday => 2
      case Sunday => 3;
    assert ConvertToDayOfWeek(date) == d;
  }

  /** What a conflict list entry reports about the record it describes. */
  datatype ConflictDescription =
    | CourseConflict(courseCode: string, dayOfWeek: DayOfWeek,
                     startTime: JavaTime.LocalTime, endTime: JavaTime.LocalTime)
    | EventConflict(eventTitle: string, organizationName: string, eventDate: JavaTime.LocalDate,
                    startTime: JavaTime.LocalTime, endTime: JavaTime.LocalTime, status: ReservationStatus)

  /** "Course <code> on <day> from <start> to <end>" */
  function DescribeSchedule(s: AcademicSchedule): ConflictDescription
  {
    CourseConflict(s.courseCode, s.dayOfWeek, s.startTime, s.endTime)
  }

  /** "<title> by <organization> on <date> from <start> to <end> (<status>)" */
  function DescribeReservation(e: EventReservation): ConflictDescription
  {
    EventConflict(e.eventTitle, e.organizationName, e.eventDate, e.startTime, e.endTime, e.status)
  }

  datatype ConflictResult = ConflictResult(
    hasConflict: bool,
    academicConflicts: seq<ConflictDescription>,
    reservationConflicts: seq<ConflictDescription>)

  /**
   * The meaning of "the room is taken": some class slot of the room on the
   * date's weekday, or some pending or (advisor-)approved reservation of the
   * room on that date, overlaps the window.
   */
  ghost predicate RoomOccupied(schedules: seq<AcademicSchedule>, reservations: seq<EventReservation>,
                               roomId: int, date: JavaTime.LocalDate,
                               startTime: JavaTime.LocalTime, endTime: JavaTime.LocalTime)
  {
    || (exists s :: s in schedules
          && Schedules.ConflictingSchedule(s, roomId, ConvertToDayOfWeek(date), startTime, endTime))
    || (exists e :: e in reservations
          && Reservations.ConflictingReservation(e, roomId, date, startTime, endTime))
  }

  /**
   * `hasConflict`: fails on an empty or inverted window before reading any
   * table; otherwise whether the room is occupied. Reservations are only read
   * when no class slot conflicts.
   */
  function HasConflict(schedules: seq<AcademicSchedule>, reservations: seq<EventReservation>,
                       roomId: int, requestedDate: JavaTime.LocalDate,
                       startTime: JavaTime.LocalTime, endTime: JavaTime.LocalTime): (r: Result<bool>)
    ensures startTime >= endTime ==> r == Err(InvalidTimeRange)
    ensures startTime < endTime ==> r == Ok(RoomOccupied(schedules, reservations, roomId, requestedDate, startTime, endTime))
  {
    if !(startTime < endTime) then Err(InvalidTimeRange)
    else
      var dayOfWeek := ConvertToDayOfWeek(requestedDate);
      var academicConflicts := Schedules.FindConflictingSchedules(schedules, roomId, dayOfWeek, startTime, endTime);
      if |academicConflicts| > 0 then
        assert academicConflicts[0] in academicConflicts;
        Ok(true)
      else
        var reservationConflicts :=
          Reservations.FindConflictingReservations(reservations, roomId, requestedDate, startTime, endTime);
        assert |reservationConflicts| > 0 ==> reservationConflicts[0] in reservationConflicts;
        Ok(|reservationConflicts| > 0)
  }

  /**
   * `findConflicts`: both match lists, each described entry by entry in query
   * order, and whether either is non-empty. Unlike `hasConflict` it does not
   * check the window.
   */
  function FindConflicts(schedules: seq<AcademicSchedule>, reservations: seq<EventReservation>,
                         roomId: int, requestedDate: JavaTime.LocalDate,
                         startTime: JavaTime.LocalTime, endTime: JavaTime.LocalTime): (r: ConflictResult)
    ensures r.hasConflict <==> RoomOccupied(schedules, reservations, roomId, requestedDate, startTime, endTime)
    ensures r.hasConflict <==> r.academicConflicts != [] || r.reservationConflicts != []
    ensures var matches := Schedules.FindConflictingSchedules(
              schedules, roomId, ConvertToDayOfWeek(requestedDate), startTime, endTime);
            && |r.academicConflicts| == |matches|
            && forall i :: 0 <= i < |matches| ==> r.academicConflicts[i] == DescribeSchedule(matches[i])
    ensures var matches := Reservations.FindConflictingReservations(
              reservations, roomId, requestedDate, startTime, endTime);
            && |r.reservationConflicts| == |matches|
            && forall i :: 0 <= i < |matches| ==> r.reservationConflicts[i] == DescribeReservation(matches[i])
  {
    var dayOfWeek := ConvertToDayOfWeek(requestedDate);
    var academicConflicts := Schedules.FindConflictingSchedules(schedules, roomId, dayOfWeek, startTime, endTime);
    var reservationConflicts :=
      Reservations.FindConflictingReservations(reservations, roomId, requestedDate, startTime, endTime);
    assert |academicConflicts| > 0 ==> academicConflicts[0] in academicConflicts;
    assert |reservationConflicts| > 0 ==> reservationConflicts[0] in reservationConflicts;
    ConflictResult(
      hasConflict := |academicConflicts| > 0 || |reservationConflicts| > 0,
      academicConflicts := seq(|academicConflicts|, i requires 0 <= i < |academicConflicts| =>
                               DescribeSchedule(academicConflicts[i])),
      reservationConflicts := seq(|reservationConflicts|, i requires 0 <= i < |reservationConflicts| =>
                                  DescribeReservation(reservationConflicts[i])))
  }

  /** On a proper window the boolean shortcut and the detailed search agree. */
  lemma HasConflictAgreesWithFindConflicts(schedules: seq<AcademicSchedule>, reservations: seq<EventReservation>,
                                           roomId: int, date: JavaTime.LocalDate,
                                           startTime: JavaTime.LocalTime, endTime: JavaTime.LocalTime)
    requires startTime < endTime
    ensures HasConflict(schedules, reservations, roomId, date, startTime, endTime)
         == Ok(FindConflicts(schedules, reservations, roomId, date, startTime, endTime).hasConflict)
  {
  }

  /** An inverted or empty window fails whatever the tables hold: no table is read. */
  lemma InvalidWindowFailsBeforeAnyLookup(schedules1: seq<AcademicSchedule>, reservations1: seq<EventReservation>,
                                          schedules2: seq<AcademicSchedule>, reservations2: seq<EventReservation>,
                                          roomId: int, date: JavaTime.LocalDate,
                                          startTime: JavaTime.LocalTime, endTime: JavaTime.LocalTime)
    requires startTime >= endTime
    ensures HasConflict(schedules1, reservations1, roomId, date, startTime, endTime) == Err(InvalidTimeRange)
    ensures HasConflict(schedules1, reservations1, roomId, date, startTime, endTime)
         == HasConflict(schedules2, reservations2, roomId, date, startTime, endTime)
  {
  }

  /** A conflicting class slot settles the answer: the reservations are never consulted. */
  lemma AcademicConflictShortCircuits(schedules: seq<AcademicSchedule>,
                                      reservations1: seq<EventReservation>, reservations2: seq<EventReservation>,
                                      roomId: int, date: JavaTime.LocalDate,
                                      startTime: JavaTime.LocalTime, endTime: JavaTime.LocalTime)
    requires startTime < endTime
    requires Schedules.FindConflictingSchedules(schedules, roomId, ConvertToDayOfWeek(date), startTime, endTime) != []
    ensures HasConflict(schedules, reservations1, roomId, date, startTime, endTime) == Ok(true)
    ensures HasConflict(schedules, reservations1, roomId, date, startTime, endTime)
         == HasConflict(schedules, reservations2, roomId, date, startTime, endTime)
  {
  }

  /** With no conflicting class slot, the answer is whether a holding reservation overlaps. */
  lemma NoAcademicConflictDefersToReservations(schedules: seq<AcademicSchedule>, reservations: seq<EventReservation>,
                                               roomId: int, date: JavaTime.LocalDate,
                                               startTime: JavaTime.LocalTime, endTime: JavaTime.LocalTime)
    requires startTime < endTime
    requires Schedules.FindConflictingSchedules(schedules, roomId, ConvertToDayOfWeek(date), startTime, endTime) == []
    ensures HasConflict(schedules, reservations, roomId, date, startTime, endTime)
         == Ok(exists e :: e in reservations && e.room.id == Some(roomId) && e.eventDate == date
                 && Reservations.Occupying(e.status) && e.startTime < endTime && e.endTime > startTime)
  {
  }

  /**
   * Adding a rejected or cancelled reservation to the store changes nothing
   * that the conflict search reports.
   */
  lemma {:induction false} InactiveReservationIsInvisible(schedules: seq<AcademicSchedule>,
                                                          reservations: seq<EventReservation>, extra: EventReservation,
                                                          roomId: int, date: JavaTime.LocalDate,
                                                          startTime: JavaTime.LocalTime, endTime: JavaTime.LocalTime)
    requires !Reservations.Occupying(extra.status)
    ensures FindConflicts(schedules, reservations + [extra], roomId, date, startTime, endTime)
         == FindConflicts(schedules, reservations, roomId, date, startTime, endTime)
  {
    var p := (e: EventReservation) => Reservations.ConflictingReservation(e, roomId, date, startTime, endTime);
    FilterAppend(reservations, [extra], p);
    assert Filter([extra], p) == [];
    assert Reservations.FindConflictingReservations(reservations + [extra], roomId, date, startTime, endTime)
        == Reservations.FindConflictingReservations(reservations, roomId, date, startTime, endTime);
  }

  /** Class slots recur weekly: a date and the same weekday a week later meet the same slots. */
  lemma ClassSlotsRecurWeekly(schedules: seq<AcademicSchedule>, reservations: seq<EventReservation>,
                              roomId: int, date: JavaTime.LocalDate,
                              startTime: JavaTime.LocalTime, endTime: JavaTime.LocalTime)
    ensures FindConflicts(schedules, reservations, roomId, date + 7, startTime, endTime).academicConflicts
         == FindConflicts(schedules, reservations, roomId, date, startTime, endTime).academicConflicts
  {
    JavaTime.DayOfWeekRepeatsWeekly(date);
  }

  /**
   * Back-to-back bookings do not clash: when every slot of the room on the
   * date's weekday and every reservation of the room on that date ends by the
   * window's start or begins at or after its end, nothing conflicts.
   */
  lemma TouchingIntervalsDoNotConflict(schedules: seq<AcademicSchedule>, reservations: seq<EventReservation>,
                                       roomId: int, date: JavaTime.LocalDate,
                                       startTime: JavaTime.LocalTime, endTime: JavaTime.LocalTime)
    requires forall s :: s in schedules && s.room.id == Some(roomId) && s.dayOfWeek == ConvertToDayOfWeek(date)
                         ==> s.endTime <= startTime || s.startTime >= endTime
    requires forall e :: e in reservations && e.room.id == Some(roomId) && e.eventDate == date
                         ==> e.endTime <= startTime || e.startTime >= endTime
    ensures !FindConflicts(schedules, reservations, roomId, date, startTime, endTime).hasConflict
  {
  }
}
