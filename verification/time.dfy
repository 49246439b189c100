/**
  Date-times (`LocalDateTime`) are whole minutes on one global time line;
  times of day (`LocalTime`) are minutes since midnight.
*/
module Time {

  const MinutesPerHour: int := 60
  const MinutesPerDay: int := 1440

  type TimeOfDay = t: int | 0 <= t < 1440

  /** `LocalDateTime.toLocalTime`: the time-of-day part of a date-time. */
  function ToLocalTime(t: int): (r: TimeOfDay)
    ensures (t - r) % MinutesPerDay == 0
  {
    t % MinutesPerDay
  }

  /** Shifting a date-time by whole days does not change its time of day. */
  lemma DateIsDiscarded(t: int, days: int)
    ensures ToLocalTime(t + days * MinutesPerDay) == ToLocalTime(t)
  {
  }
}
