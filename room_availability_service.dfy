/**
 * The availability service (RoomAvailabilityService.kt): which rooms are free
 * for a window, and whether one given room is. It reads the rooms table and
 * asks the conflict engine about each room.
 */
module RoomAvailabilityService {
  import opened Wrappers
  import opened Model
  import opened Seqs
  import JavaTime
  import RoomRepository
  import opened ConflictService

  datatype AvailableRoomInfo = AvailableRoomInfo(
    roomId: int,
    roomNumber: string,
    buildingName: string,
    roomType: RoomType,
    capacity: Option<int>,
    floor: Option<int>,
    description: Option<string>)

  datatype RoomAvailabilityStatus = RoomAvailabilityStatus(
    isAvailable: bool,
    reason: Option<string>,
    conflicts: seq<ConflictDescription>)

  /**
   * `getCandidateRooms`: exactly one repository query runs, the first that the
   * supplied filters select in the order building and type, building, type,
   * minimum capacity, none. Filters of lower precedence are ignored.
   */
  function GetCandidateRooms(rooms: seq<Room>, minCapacity: Option<int>, roomType: Option<RoomType>,
                             buildingId: Option<int>): (r: seq<Room>)
    ensures forall room :: room in r ==> room in rooms && room.isAvailable
  {
    if buildingId.Some? && roomType.Some? then
      RoomRepository.FindAvailableRoomsByBuildingAndType(rooms, buildingId.value, roomType.value)
    else if buildingId.Some? then
      RoomRepository.FindByBuildingIdAndIsAvailableTrue(rooms, buildingId.value)
    else if roomType.Some? then
      RoomRepository.FindByRoomTypeAndIsAvailableTrue(rooms, roomType.value)
    else if minCapacity.Some? then
      RoomRepository.FindByCapacityGreaterThanEqualAndIsAvailableTrue(rooms, minCapacity.value)
    else
      RoomRepository.FindByIsAvailableTrue(rooms)
  }

  /** The filter that the precedence rule applies to a single room. */
  predicate SelectedByFilters(room: Room, minCapacity: Option<int>, roomType: Option<RoomType>, buildingId: Option<int>)
  {
    if buildingId.Some? && roomType.Some? then room.building.id == buildingId && room.roomType == roomType.value
    else if buildingId.Some? then room.building.id == buildingId
    else if roomType.Some? then room.roomType == roomType.value
    else if minCapacity.Some? then room.capacity.Some? && room.capacity.value >= minCapacity.value
    else true
  }

  /** A room is a candidate exactly when it is stored, flagged available and passes the selected filter. */
  lemma CandidatesFollowPrecedence(rooms: seq<Room>, minCapacity: Option<int>, roomType: Option<RoomType>,
                                   buildingId: Option<int>, room: Room)
    ensures room in GetCandidateRooms(rooms, minCapacity, roomType, buildingId)
        <==> room in rooms && room.isAvailable && SelectedByFilters(room, minCapacity, roomType, buildingId)
  {
  }

  /**
   * Coarse filtering: the minimum capacity is ignored whenever a building or a
   * type is given, and the type is honoured only alongside a building or alone.
   */
  lemma LowerPrecedenceFiltersAreIgnored(rooms: seq<Room>, minCapacity: Option<int>, roomType: Option<RoomType>,
                                         buildingId: Option<int>)
    ensures buildingId.Some? || roomType.Some? ==>
      GetCandidateRooms(rooms, minCapacity, roomType, buildingId) == GetCandidateRooms(rooms, None, roomType, buildingId)
  {
  }

  /** The summary of a free room, copied field by field. */
  function ToInfo(room: Room): (info: AvailableRoomInfo)
    requires room.id.Some?
  {
    AvailableRoomInfo(room.id.value, room.roomNumber, room.building.name, room.roomType,
                      room.capacity, room.floor, room.description)
  }

  /** A candidate survives the filter when it has an id and nothing occupies it in the window. */
  ghost predicate Free(schedules: seq<AcademicSchedule>, reservations: seq<EventReservation>, room: Room,
                       date: JavaTime.LocalDate, startTime: JavaTime.LocalTime, endTime: JavaTime.LocalTime)
  {
    room.id.Some? && !RoomOccupied(schedules, reservations, room.id.value, date, startTime, endTime)
  }

  /**
   * The `filter { !hasConflict(...) }` step: keeps the conflict-free candidates
   * in order; the first `hasConflict` call fails on an empty or inverted
   * window, so the step fails exactly when there is a candidate to ask about.
   */
  function KeepConflictFree(schedules: seq<AcademicSchedule>, reservations: seq<EventReservation>,
                            candidates: seq<Room>, date: JavaTime.LocalDate,
                            startTime: JavaTime.LocalTime, endTime: JavaTime.LocalTime): (r: Result<seq<Room>>)
    requires forall room :: room in candidates ==> room.id.Some?
    ensures r.Err? <==> candidates != [] && startTime >= endTime
    ensures r.Err? ==> r.error == InvalidTimeRange
    ensures r.Ok? ==> r.value == Filter(candidates,
                                        (room: Room) => Free(schedules, reservations, room, date, startTime, endTime))
  {
    if candidates == [] then Ok([])
    else
      var room := candidates[0];
      match HasConflict(schedules, reservations, room.id.value, date, startTime, endTime)
      case Err(e) => Err(e)
      case Ok(busy) =>
        match KeepConflictFree(schedules, reservations, candidates[1..], date, startTime, endTime)
        case Err(e) => Err(e)
        case Ok(rest) => Ok(if busy then rest else [room] + rest)
  }

  /**
   * `findAvailableRooms`: one summary per conflict-free candidate, in candidate
   * order. It fails, with the time-range error, on an empty or inverted window
   * only when there are candidates.
   */
  function FindAvailableRooms(rooms: seq<Room>, schedules: seq<AcademicSchedule>, reservations: seq<EventReservation>,
                              date: JavaTime.LocalDate, startTime: JavaTime.LocalTime, endTime: JavaTime.LocalTime,
                              minCapacity: Option<int>, roomType: Option<RoomType>, buildingId: Option<int>)
    : (r: Result<seq<AvailableRoomInfo>>)
    requires forall room :: room in rooms ==> room.id.Some?
    ensures var candidates := GetCandidateRooms(rooms, minCapacity, roomType, buildingId);
            r.Err? <==> candidates != [] && startTime >= endTime
    ensures r.Err? ==> r.error == InvalidTimeRange
    ensures var candidates := GetCandidateRooms(rooms, minCapacity, roomType, buildingId);
            var free := Filter(candidates, (room: Room) => Free(schedules, reservations, room, date, startTime, endTime));
            r.Ok? ==> && |r.value| == |free|
                      && forall i :: 0 <= i < |free| ==> r.value[i] == ToInfo(free[i])
  {
    var candidates := GetCandidateRooms(rooms, minCapacity, roomType, buildingId);
    match KeepConflictFree(schedules, reservations, candidates, date, startTime, endTime)
    case Err(e) => Err(e)
    case Ok(free) => Ok(seq(|free|, i requires 0 <= i < |free| => ToInfo(free[i])))
  }

  /** Every summary returned describes a candidate room for which `hasConflict` answers no. */
  lemma AvailableRoomsAreConflictFreeCandidates(rooms: seq<Room>, schedules: seq<AcademicSchedule>,
                                                reservations: seq<EventReservation>, date: JavaTime.LocalDate,
                                                startTime: JavaTime.LocalTime, endTime: JavaTime.LocalTime,
                                                minCapacity: Option<int>, roomType: Option<RoomType>,
                                                buildingId: Option<int>, info: AvailableRoomInfo)
    requires forall room :: room in rooms ==> room.id.Some?
    requires FindAvailableRooms(rooms, schedules, reservations, date, startTime, endTime,
                                minCapacity, roomType, buildingId).Ok?
    requires info in FindAvailableRooms(rooms, schedules, reservations, date, startTime, endTime,
                                        minCapacity, roomType, buildingId).value
    ensures exists room :: && room in GetCandidateRooms(rooms, minCapacity, roomType, buildingId)
                           && room.isAvailable && info == ToInfo(room)
                           && HasConflict(schedules, reservations, info.roomId, date, startTime, endTime) == Ok(false)
  {
    var result := FindAvailableRooms(rooms, schedules, reservations, date, startTime, endTime,
                                     minCapacity, roomType, buildingId).value;
    var candidates := GetCandidateRooms(rooms, minCapacity, roomType, buildingId);
    var free := Filter(candidates, (room: Room) => Free(schedules, reservations, room, date, startTime, endTime));
    var i :| 0 <= i < |result| && result[i] == info;
    assert free[i] in free;
    assert startTime < endTime;
  }

  /**
   * `isRoomAvailable`: an unknown room and a room flagged unavailable are
   * reported before any conflict search; otherwise the room is available
   * exactly when nothing occupies it, and an occupied room lists its class
   * conflicts followed by its reservation conflicts.
   */
  function IsRoomAvailable(rooms: seq<Room>, schedules: seq<AcademicSchedule>, reservations: seq<EventReservation>,
                           roomId: int, date: JavaTime.LocalDate,
                           startTime: JavaTime.LocalTime, endTime: JavaTime.LocalTime): (r: RoomAvailabilityStatus)
    ensures var found := RoomRepository.FindById(rooms, roomId);
            r.isAvailable <==> && found.Some? && found.value.isAvailable
                               && !RoomOccupied(schedules, reservations, roomId, date, startTime, endTime)
    ensures r.isAvailable ==> r.reason == None && r.conflicts == []
    ensures !r.isAvailable ==> r.reason.Some?
  {
    match RoomRepository.FindById(rooms, roomId)
    case None => RoomAvailabilityStatus(false, Some("Room not found"), [])
    case Some(room) =>
      if !room.isAvailable then
        RoomAvailabilityStatus(false, Some("Room is marked as unavailable"), [])
      else
        var conflictResult := FindConflicts(schedules, reservations, roomId, date, startTime, endTime);
        if conflictResult.hasConflict then
          RoomAvailabilityStatus(false, Some("Room has conflicts"),
                                 conflictResult.academicConflicts + conflictResult.reservationConflicts)
        else
          RoomAvailabilityStatus(true, None, [])
  }

  /** An id that names no room is reported as not found, with no conflicts. */
  lemma UnknownRoomIsNotFound(rooms: seq<Room>, schedules: seq<AcademicSchedule>, reservations: seq<EventReservation>,
                              roomId: int, date: JavaTime.LocalDate,
                              startTime: JavaTime.LocalTime, endTime: JavaTime.LocalTime)
    requires forall room :: room in rooms ==> room.id != Some(roomId)
    ensures IsRoomAvailable(rooms, schedules, reservations, roomId, date, startTime, endTime)
         == RoomAvailabilityStatus(false, Some("Room not found"), [])
  {
  }

  /**
   * A room flagged unavailable is reported as such whatever the schedule and
   * reservation tables hold: no conflict search is made.
   */
  lemma FlaggedRoomSkipsConflictSearch(rooms: seq<Room>,
                                       schedules1: seq<AcademicSchedule>, reservations1: seq<EventReservation>,
                                       schedules2: seq<AcademicSchedule>, reservations2: seq<EventReservation>,
                                       roomId: int, date: JavaTime.LocalDate,
                                       startTime: JavaTime.LocalTime, endTime: JavaTime.LocalTime)
    requires RoomRepository.FindById(rooms, roomId).Some?
    requires !RoomRepository.FindById(rooms, roomId).value.isAvailable
    ensures IsRoomAvailable(rooms, schedules1, reservations1, roomId, date, startTime, endTime)
         == RoomAvailabilityStatus(false, Some("Room is marked as unavailable"), [])
    ensures IsRoomAvailable(rooms, schedules1, reservations1, roomId, date, startTime, endTime)
         == IsRoomAvailable(rooms, schedules2, reservations2, roomId, date, startTime, endTime)
  {
  }

  /**
   * An occupied room is reported with reason "Room has conflicts" and one
   * entry per conflicting class slot, then one per conflicting reservation.
   */
  lemma OccupiedRoomListsItsConflicts(rooms: seq<Room>, schedules: seq<AcademicSchedule>,
                                      reservations: seq<EventReservation>, roomId: int, date: JavaTime.LocalDate,
                                      startTime: JavaTime.LocalTime, endTime: JavaTime.LocalTime)
    requires RoomRepository.FindById(rooms, roomId).Some?
    requires RoomRepository.FindById(rooms, roomId).value.isAvailable
    requires RoomOccupied(schedules, reservations, roomId, date, startTime, endTime)
    ensures var status := IsRoomAvailable(rooms, schedules, reservations, roomId, date, startTime, endTime);
            var found := FindConflicts(schedules, reservations, roomId, date, startTime, endTime);
            && status.reason == Some("Room has conflicts")
            && status.conflicts == found.academicConflicts + found.reservationConflicts
            && |status.conflicts| > 0
  {
  }

  /**
   * Under the rooms table's key, a summary identifies its room: a stored room's
   * summary is among the summaries of some stored rooms exactly when the room is.
   */
  lemma SummariesIdentifyRooms(rooms: seq<Room>, kept: seq<Room>, summaries: seq<AvailableRoomInfo>, room: Room)
    requires RoomRepository.KeyedRooms(rooms)
    requires room in rooms && room.id.Some?
    requires forall x :: x in kept ==> x in rooms && x.id.Some?
    requires |summaries| == |kept|
    requires forall i :: 0 <= i < |kept| ==> summaries[i] == ToInfo(kept[i])
    ensures ToInfo(room) in summaries <==> room in kept
  {
    if ToInfo(room) in summaries {
      var i :| 0 <= i < |summaries| && summaries[i] == ToInfo(room);
      assert kept[i] in kept;
      RoomRepository.FindByIdFindsStoredRoom(rooms, kept[i]);
      RoomRepository.FindByIdFindsStoredRoom(rooms, room);
    }
    if room in kept {
      var i :| 0 <= i < |kept| && kept[i] == room;
      assert summaries[i] == ToInfo(room);
    }
  }

  /** Under the rooms table's key, a candidate's summary is returned exactly when the candidate is free. */
  lemma SummaryReturnedIffFree(rooms: seq<Room>, schedules: seq<AcademicSchedule>,
                               reservations: seq<EventReservation>, date: JavaTime.LocalDate,
                               startTime: JavaTime.LocalTime, endTime: JavaTime.LocalTime,
                               minCapacity: Option<int>, roomType: Option<RoomType>,
                               buildingId: Option<int>, room: Room)
    requires RoomRepository.KeyedRooms(rooms)
    requires startTime < endTime
    requires room in GetCandidateRooms(rooms, minCapacity, roomType, buildingId)
    ensures forall x :: x in rooms ==> x.id.Some?
    ensures room.id.Some?
    ensures FindAvailableRooms(rooms, schedules, reservations, date, startTime, endTime,
                               minCapacity, roomType, buildingId).Ok?
    ensures ToInfo(room) in FindAvailableRooms(rooms, schedules, reservations, date, startTime, endTime,
                                               minCapacity, roomType, buildingId).value
        <==> Free(schedules, reservations, room, date, startTime, endTime)
  {
    assert forall x :: x in rooms ==> x.id.Some? by {
      forall x | x in rooms ensures x.id.Some? {
        var i :| 0 <= i < |rooms| && rooms[i] == x;
      }
    }
    var candidates := GetCandidateRooms(rooms, minCapacity, roomType, buildingId);
    var free := Filter(candidates, (x: Room) => Free(schedules, reservations, x, date, startTime, endTime));
    var result := FindAvailableRooms(rooms, schedules, reservations, date, startTime, endTime,
                                     minCapacity, roomType, buildingId).value;
    SummariesIdentifyRooms(rooms, free, result, room);
  }

  /** Under the rooms table's key, `isRoomAvailable` on a candidate's id says whether the candidate is free. */
  lemma CandidateAvailableIffFree(rooms: seq<Room>, schedules: seq<AcademicSchedule>,
                                  reservations: seq<EventReservation>, date: JavaTime.LocalDate,
                                  startTime: JavaTime.LocalTime, endTime: JavaTime.LocalTime,
                                  minCapacity: Option<int>, roomType: Option<RoomType>,
                                  buildingId: Option<int>, room: Room)
    requires RoomRepository.KeyedRooms(rooms)
    requires room in GetCandidateRooms(rooms, minCapacity, roomType, buildingId)
    ensures room.id.Some?
    ensures IsRoomAvailable(rooms, schedules, reservations, room.id.value, date, startTime, endTime).isAvailable
        <==> Free(schedules, reservations, room, date, startTime, endTime)
  {
    var i :| 0 <= i < |rooms| && rooms[i] == room;
    RoomRepository.FindByIdFindsStoredRoom(rooms, room);
  }

  /**
   * The two query paths agree: on a proper window, with the rooms table keyed
   * by id, a candidate room is among `findAvailableRooms`' results exactly
   * when `isRoomAvailable` reports it available.
   */
  lemma FindAvailableRoomsAgreesWithIsRoomAvailable(rooms: seq<Room>, schedules: seq<AcademicSchedule>,
                                                    reservations: seq<EventReservation>, date: JavaTime.LocalDate,
                                                    startTime: JavaTime.LocalTime, endTime: JavaTime.LocalTime,
                                                    minCapacity: Option<int>, roomType: Option<RoomType>,
                                                    buildingId: Option<int>, room: Room)
    requires RoomRepository.KeyedRooms(rooms)
    requires startTime < endTime
    requires room in GetCandidateRooms(rooms, minCapacity, roomType, buildingId)
    ensures forall x :: x in rooms ==> x.id.Some?
    ensures room.id.Some?
    ensures FindAvailableRooms(rooms, schedules, reservations, date, startTime, endTime,
                               minCapacity, roomType, buildingId).Ok?
    ensures ToInfo(room) in FindAvailableRooms(rooms, schedules, reservations, date, startTime, endTime,
                                               minCapacity, roomType, buildingId).value
        <==> IsRoomAvailable(rooms, schedules, reservations, room.id.value, date, startTime, endTime).isAvailable
  {
    SummaryReturnedIffFree(rooms, schedules, reservations, date, startTime, endTime,
                           minCapacity, roomType, buildingId, room);
    CandidateAvailableIffFree(rooms, schedules, reservations, date, startTime, endTime,
                              minCapacity, roomType, buildingId, room);
  }
}
