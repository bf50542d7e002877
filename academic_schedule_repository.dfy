/** The queries over the academic_schedules table (AcademicScheduleRepository.kt), as filters of its rows. */
module AcademicScheduleRepository {
  import opened Wrappers
  import opened Model
  import opened Seqs
  import JavaTime

  /** `findByRoomId`: exactly the slots of the room, in table order. */
  function FindByRoomId(schedules: seq<AcademicSchedule>, roomId: int): (r: seq<AcademicSchedule>)
    ensures forall s :: s in r ==> s in schedules && s.room.id == Some(roomId)
    ensures forall s :: s in schedules && s.room.id == Some(roomId) ==> s in r
  {
    Filter(schedules, (s: AcademicSchedule) => s.room.id == Some(roomId))
  }

  /** `findByDayOfWeek`: exactly the slots held on that weekday, in table order. */
  function FindByDayOfWeek(schedules: seq<AcademicSchedule>, dayOfWeek: DayOfWeek): (r: seq<AcademicSchedule>)
    ensures forall s :: s in r ==> s in schedules && s.dayOfWeek == dayOfWeek
    ensures forall s :: s in schedules && s.dayOfWeek == dayOfWeek ==> s in r
  {
    Filter(schedules, (s: AcademicSchedule) => s.dayOfWeek == dayOfWeek)
  }

  /** The `WHERE` clause of `findConflictingSchedules`. */
  predicate ConflictingSchedule(s: AcademicSchedule, roomId: int, dayOfWeek: DayOfWeek,
                                startTime: JavaTime.LocalTime, endTime: JavaTime.LocalTime)
  {
    && s.room.id == Some(roomId)
    && s.dayOfWeek == dayOfWeek
    && Overlaps(s.startTime, s.endTime, startTime, endTime)
  }

  /**
   * `findConflictingSchedules`: exactly the slots of the room on that weekday
   * whose interval overlaps the requested one, in table order.
   */
  function FindConflictingSchedules(schedules: seq<AcademicSchedule>, roomId: int, dayOfWeek: DayOfWeek,
                                    startTime: JavaTime.LocalTime, endTime: JavaTime.LocalTime)
    : (r: seq<AcademicSchedule>)
    ensures forall s :: s in r ==>
      && s in schedules && s.room.id == Some(roomId) && s.dayOfWeek == dayOfWeek
      && s.startTime < endTime && s.endTime > startTime
    ensures forall s ::
      (&& s in schedules && s.room.id == Some(roomId) && s.dayOfWeek == dayOfWeek
       && s.startTime < endTime && s.endTime > startTime) ==> s in r
  {
    Filter(schedules, (s: AcademicSchedule) => ConflictingSchedule(s, roomId, dayOfWeek, startTime, endTime))
  }

  /** A slot that ends exactly when the window starts, or starts exactly when it ends, is not a conflict. */
  lemma BackToBackSlotsDoNotConflict(schedules: seq<AcademicSchedule>, roomId: int, dayOfWeek: DayOfWeek,
                                     startTime: JavaTime.LocalTime, endTime: JavaTime.LocalTime,
                                     s: AcademicSchedule)
    requires s.endTime == startTime || s.startTime == endTime
    ensures s !in FindConflictingSchedules(schedules, roomId, dayOfWeek, startTime, endTime)
  {
  }
}
