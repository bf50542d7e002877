/**
 * The persistent entities of the room-booking backend (the files under model/) and the
 * enums they use. Ids are generated by the store, so every `id` is optional
 * until a row is saved; an entity refers to its room (and a room to its
 * building) by value, as the JPA entities hold the referenced row.
 */
module Model {
  import opened Wrappers
  import JavaTime

  /** The lifecycle of an event reservation. */
  datatype ReservationStatus = Pending | AdvisorApproved | Approved | Rejected | Cancelled
  {
    function Name(): string
    {
      match this
      case Pending => "PENDING"
      case AdvisorApproved => "ADVISOR_APPROVED"
      case Approved => "APPROVED"
      case Rejected => "REJECTED"
      case Cancelled => "CANCELLED"
    }
  }

  /** The weekday of a recurring class slot. */
  datatype DayOfWeek = Monday | Tuesday | Wednesday | Thursday | Friday | Saturday | Sunday
  {
    function Name(): string
    {
      match this
      case Monday => "MONDAY"
      case Tuesday => "TUESDAY"
      case Wednesday => "WEDNESDAY"
      case Thursday => "THURSDAY"
      case Friday => "FRIDAY"
      case Saturday => "SATURDAY"
      case Sunday => "SUNDAY"
    }
  }

  /** The category of a room; only `CLASSROOM` is named in the core, the others stand by their name. */
  datatype RoomType = Classroom | OtherRoomType(name: string)

  datatype Building = Building(id: Option<int>, name: string, location: Option<string>)

  datatype Room = Room(
    id: Option<int>,
    building: Building,
    roomNumber: string,
    roomType: RoomType,
    capacity: Option<int>,
    floor: Option<int>,
    description: Option<string>,
    isAvailable: bool,
    hasProjector: bool)

  /** A class that occupies a room every week on one weekday. */
  datatype AcademicSchedule = AcademicSchedule(
    id: Option<int>,
    room: Room,
    courseCode: string,
    courseName: Option<string>,
    dayOfWeek: DayOfWeek,
    startTime: JavaTime.LocalTime,
    endTime: JavaTime.LocalTime,
    semester: Option<string>,
    academicYear: Option<string>,
    instructor: Option<string>)

  /** A one-off booking of a room on one date. */
  datatype EventReservation = EventReservation(
    id: Option<int>,
    room: Room,
    organizationName: string,
    eventTitle: string,
    eventDate: JavaTime.LocalDate,
    startTime: JavaTime.LocalTime,
    endTime: JavaTime.LocalTime,
    status: ReservationStatus,
    requestedBy: Option<string>,
    requestedAt: JavaTime.LocalDateTime,
    approvedBy: Option<string>,
    approvedAt: Option<JavaTime.LocalDateTime>,
    purpose: Option<string>,
    expectedAttendees: Option<int>,
    documentUrl: Option<string>)

  /** One audit record of a status change; `reservation` is the reservation as saved by that change. */
  datatype ApprovalLog = ApprovalLog(
    id: Option<int>,
    reservation: EventReservation,
    previousStatus: ReservationStatus,
    newStatus: ReservationStatus,
    approvedBy: Option<string>,
    approvedAt: JavaTime.LocalDateTime,
    comments: Option<string>,
    approverRole: Option<string>)

  /**
   * The overlap test both conflict queries use: an existing interval meets the
   * requested one when it starts before the requested end and ends after the
   * requested start. Intervals that only touch do not overlap.
   */
  predicate Overlaps(start: JavaTime.LocalTime, end: JavaTime.LocalTime,
                     requestedStart: JavaTime.LocalTime, requestedEnd: JavaTime.LocalTime)
  {
    start < requestedEnd && end > requestedStart
  }

  /** Exceptions the core throws to its caller. */
  datatype Error =
    | InvalidTimeRange                         // "Start time must be before end time"
    | ReservationNotFound(reservationId: int)  // "Reservation not found: <id>"

  datatype Result<+T> = Ok(value: T) | Err(error: Error)
}
