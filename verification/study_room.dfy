/**
  The StudyRoom entity: fixed daily operating hours and an availability flag
  that only `Enable` and `Disable` change. The room's id is its key in the
  store, not a field.
*/
module StudyRooms {
  import opened Results
  import opened Errors
  import opened Time

  datatype StudyRoom = StudyRoom(
    name: string,
    available: bool,
    description: string,
    openTime: TimeOfDay,
    closeTime: TimeOfDay)

  /** The construction invariant: the room opens before it closes. */
  predicate Valid(room: StudyRoom) {
    room.openTime < room.closeTime
  }

  /**
    The private open-before-close check. OperatingTimePolicy also calls a
    method of this name with the two times of day of a booking window, which
    is how the policy model uses it.
  */
  function ValidateOperatingTime(first: TimeOfDay, second: TimeOfDay): (r: Outcome<Error>)
    ensures r.Pass? <==> first < second
    ensures r.Fail? ==> r.error == InvalidOperatingTime
  {
    if first < second then Pass else Fail(InvalidOperatingTime)
  }

  /** The constructor: refuses a room that does not open before it closes. */
  function Create(name: string, available: bool, description: string,
                  openTime: TimeOfDay, closeTime: TimeOfDay): (r: Result<StudyRoom, Error>)
    ensures r.Ok? <==> openTime < closeTime
    ensures r.Err? ==> r.error == InvalidOperatingTime
    ensures r.Ok? ==> Valid(r.value)
    ensures r.Ok? ==> r.value.name == name && r.value.available == available
                      && r.value.description == description
                      && r.value.openTime == openTime && r.value.closeTime == closeTime
  {
    match ValidateOperatingTime(openTime, closeTime)
    case Fail(e) => Err(e)
    case Pass => Ok(StudyRoom(name, available, description, openTime, closeTime))
  }

  /** Makes the room bookable; a no-op on a room that already is. */
  function Enable(room: StudyRoom): (r: StudyRoom)
    ensures r.available
    ensures room.available ==> r == room
    ensures r.name == room.name && r.description == room.description
    ensures r.openTime == room.openTime && r.closeTime == room.closeTime
  {
    if room.available then room else room.(available := true)
  }

  /** Makes the room unbookable; a no-op on a room that already is. */
  function Disable(room: StudyRoom): (r: StudyRoom)
    ensures !r.available
    ensures !room.available ==> r == room
    ensures r.name == room.name && r.description == room.description
    ensures r.openTime == room.openTime && r.closeTime == room.closeTime
  {
    if !room.available then room else room.(available := false)
  }

  /** The availability gate every booking path passes through. */
  function EnsureAvailable(room: StudyRoom): (r: Outcome<Error>)
    ensures r.Pass? <==> room.available
    ensures r.Fail? ==> r.error == StudyRoomNotAvailable
  {
    if room.available then Pass else Fail(StudyRoomNotAvailable)
  }

  /**
    `isWithinOperatingTime` as written: the start is not before opening and
    not after the end. It never reads `closeTime`, and nothing calls it.
    A window it accepts therefore ends no earlier than opening, but may end
    after closing (see `WithinOperatingTimeIsNotContainment`).
  */
  function IsWithinOperatingTime(room: StudyRoom, start: TimeOfDay, end: TimeOfDay): (b: bool)
    ensures start < room.openTime ==> !b
    ensures end < start ==> !b
    ensures b ==> room.openTime <= end
    ensures ContainsWindow(room, start, end) && start <= end ==> b
    ensures b && end <= room.closeTime ==> ContainsWindow(room, start, end)
  {
    room.openTime <= start && start <= end
  }

  /**
    The containment reading of the operating-hours rule: the whole window
    lies between opening and closing. Not used by any operation; it exists to
    compare against the predicate above.
  */
  predicate ContainsWindow(room: StudyRoom, start: TimeOfDay, end: TimeOfDay) {
    room.openTime <= start && end <= room.closeTime
  }

  /** `IsWithinOperatingTime` does not depend on the closing time. */
  lemma WithinOperatingTimeIgnoresCloseTime(room: StudyRoom, close: TimeOfDay, start: TimeOfDay, end: TimeOfDay)
    ensures IsWithinOperatingTime(room.(closeTime := close), start, end)
            == IsWithinOperatingTime(room, start, end)
  {
  }

  /**
    The two readings differ: a room open 09:00-18:00 is "within operating
    time" for 10:00-20:00 although the window ends after closing.
  */
  lemma WithinOperatingTimeIsNotContainment()
    ensures var room := StudyRoom("A", true, "", 540, 1080);
            IsWithinOperatingTime(room, 600, 1200) && !ContainsWindow(room, 600, 1200)
  {
  }

  /** The availability gate admits an enabled room and refuses a disabled one. */
  lemma AvailabilityFollowsToggles(room: StudyRoom)
    ensures EnsureAvailable(Enable(room)).Pass?
    ensures EnsureAvailable(Disable(room)) == Fail(StudyRoomNotAvailable)
  {
  }

  /** Enabling and disabling keep the construction invariant. */
  lemma TogglesPreserveValid(room: StudyRoom)
    requires Valid(room)
    ensures Valid(Enable(room)) && Valid(Disable(room))
  {
  }

  /** Enable and Disable are idempotent. */
  lemma TogglesIdempotent(room: StudyRoom)
    ensures Enable(Enable(room)) == Enable(room)
    ensures Disable(Disable(room)) == Disable(room)
  {
  }
}
