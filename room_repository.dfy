/**
 * The queries over the rooms table (RoomRepository.kt), as filters of its rows.
 * Every candidate query keeps only rooms flagged available.
 */
module RoomRepository {
  import opened Wrappers
  import opened Model
  import opened Seqs

  /** `findById` (inherited from JpaRepository): the room stored under `id`, if any. */
  function FindById(rooms: seq<Room>, id: int): (r: Option<Room>)
    ensures r.Some? ==> r.value in rooms && r.value.id == Some(id)
    ensures r.None? <==> forall room :: room in rooms ==> room.id != Some(id)
  {
    match IndexWhere(rooms, (room: Room) => room.id == Some(id))
    case None => None
    case Some(i) => Some(rooms[i])
  }

  /** `findByIsAvailableTrue`: exactly the rooms flagged available. */
  function FindByIsAvailableTrue(rooms: seq<Room>): (r: seq<Room>)
    ensures forall room :: room in r ==> room in rooms && room.isAvailable
    ensures forall room :: room in rooms && room.isAvailable ==> room in r
  {
    Filter(rooms, (room: Room) => room.isAvailable)
  }

  /** `findByBuildingIdAndIsAvailableTrue`: exactly the available rooms of the building. */
  function FindByBuildingIdAndIsAvailableTrue(rooms: seq<Room>, buildingId: int): (r: seq<Room>)
    ensures forall room :: room in r ==> room in rooms && room.isAvailable && room.building.id == Some(buildingId)
    ensures forall room :: room in rooms && room.isAvailable && room.building.id == Some(buildingId) ==> room in r
  {
    Filter(rooms, (room: Room) => room.building.id == Some(buildingId) && room.isAvailable)
  }

  /** `findByRoomTypeAndIsAvailableTrue`: exactly the available rooms of the type. */
  function FindByRoomTypeAndIsAvailableTrue(rooms: seq<Room>, roomType: RoomType): (r: seq<Room>)
    ensures forall room :: room in r ==> room in rooms && room.isAvailable && room.roomType == roomType
    ensures forall room :: room in rooms && room.isAvailable && room.roomType == roomType ==> room in r
  {
    Filter(rooms, (room: Room) => room.roomType == roomType && room.isAvailable)
  }

  /**
   * `findByCapacityGreaterThanEqualAndIsAvailableTrue`: the available rooms
   * holding at least `minCapacity`; a room without a capacity never qualifies
   * (SQL compares NULL as unknown).
   */
  function FindByCapacityGreaterThanEqualAndIsAvailableTrue(rooms: seq<Room>, minCapacity: int): (r: seq<Room>)
    ensures forall room :: room in r ==>
      room in rooms && room.isAvailable && room.capacity.Some? && room.capacity.value >= minCapacity
    ensures forall room ::
      (room in rooms && room.isAvailable && room.capacity.Some? && room.capacity.value >= minCapacity) ==> room in r
  {
    Filter(rooms, (room: Room) => room.capacity.Some? && room.capacity.value >= minCapacity && room.isAvailable)
  }

  /** `findAvailableRoomsByBuildingAndType`: the available rooms matching both the building and the type. */
  function FindAvailableRoomsByBuildingAndType(rooms: seq<Room>, buildingId: int, roomType: RoomType): (r: seq<Room>)
    ensures forall room :: room in r ==>
      room in rooms && room.isAvailable && room.building.id == Some(buildingId) && room.roomType == roomType
    ensures forall room ::
      (room in rooms && room.isAvailable && room.building.id == Some(buildingId) && room.roomType == roomType)
      ==> room in r
  {
    Filter(rooms, (room: Room) => room.building.id == Some(buildingId) && room.roomType == roomType && room.isAvailable)
  }

  /** The rooms table's primary key: every stored room has its id, and no two share one. */
  predicate KeyedRooms(rooms: seq<Room>)
  {
    && (forall i :: 0 <= i < |rooms| ==> rooms[i].id.Some?)
    && (forall i, j :: 0 <= i < j < |rooms| ==> rooms[i].id != rooms[j].id)
  }

  /** Under the primary key, looking a stored room up by its own id finds that very room. */
  lemma FindByIdFindsStoredRoom(rooms: seq<Room>, room: Room)
    requires KeyedRooms(rooms)
    requires room in rooms
    ensures FindById(rooms, room.id.value) == Some(room)
  {
    var i :| 0 <= i < |rooms| && rooms[i] == room;
    var found := FindById(rooms, room.id.value);
    var j :| 0 <= j < |rooms| && rooms[j] == found.value;
    assert rooms[i].id == rooms[j].id;
  }
}
