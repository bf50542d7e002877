/**
 * The part of java.time the core depends on. A `LocalDate` is its epoch-day
 * number (days since 1970-01-01, as `LocalDate.toEpochDay` gives it), a
 * `LocalTime` is an ordered time of day (for instance minutes since midnight)
 * and a `LocalDateTime` is an ordered clock reading.
 */
module JavaTime {

  type LocalDate = int
  type LocalTime = int
  type LocalDateTime = int

  /** java.time.DayOfWeek: the seven calendar weekdays, Monday first. */
  datatype DayOfWeek = Monday | Tuesday | Wednesday | Thursday | Friday | Saturday | Sunday
  {
    /** The enum constant's name. */
    function Name(): string
    {
      match this
      case Monday => "MONDAY"
      case Tuesday => "TUESDAY"
      case Wednesday => "WEDNESDAY"
      case Thursday => "THURSDAY"
      case Friday => "FRIDAY"
      case Saturday => "SATURDAY"
      case Sunday => "SUNDAY"
    }
  }

  /** `DayOfWeek.of(index + 1)`: index 0 is Monday, 6 is Sunday. */
  function DayOfWeekAt(index: int): DayOfWeek
    requires 0 <= index < 7
  {
    match index
    case 0 => Monday
    case 1 => Tuesday
    case 2 => Wednesday
    case 3 => Thursday
    case 4 => Friday
    case 5 => Saturday
    case _ => Sunday
  }

  /**
   * `LocalDate.getDayOfWeek`: 1970-01-01 was a Thursday, so the weekday index
   * is floorMod(epochDay + 3, 7) (Dafny's `%` with a positive divisor is floorMod).
   */
  function DayOfWeekOf(date: LocalDate): DayOfWeek
  {
    DayOfWeekAt((date + 3) % 7)
  }

  /** The weekday of a date repeats every seven days. */
  lemma DayOfWeekRepeatsWeekly(date: LocalDate)
    ensures DayOfWeekOf(date + 7) == DayOfWeekOf(date)
  {
    assert (date + 7 + 3) % 7 == (date + 3) % 7;
  }
}
