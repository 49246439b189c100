/**
  The application's error codes (ExceptionCode) and their HTTP statuses.

  TooShortReservation, InvalidStatus and AlreadyExpired are thrown by the
  minimum-duration policy, Reservation.confirm and Reservation.canceled, but
  the enumeration does not declare them; they are added here and carry no
  HTTP status.
*/
module Errors {
  import opened Results

  datatype Error =
    | InvalidPassword
    | InvalidTimeRange
    | InvalidEmail
    | OutOfOperatingTime
    | InvalidOperatingTime
    | NotFoundStudyRoom
    | NotFoundUser
    | NotFoundReservation
    | StudyRoomNotAvailable
    | ScheduleConflict
    | TooShortReservation
    | InvalidStatus
    | AlreadyExpired

  /** True of the codes the enumeration actually declares. */
  predicate Declared(e: Error) {
    !(e.TooShortReservation? || e.InvalidStatus? || e.AlreadyExpired?)
  }

  /** The HTTP status code attached to an error, if the enumeration declares one. */
  function HttpStatus(e: Error): (r: Option<nat>)
    ensures r.Some? <==> Declared(e)
    ensures r.Some? ==> 400 <= r.value < 500
    ensures (e.InvalidPassword? || e.InvalidTimeRange? || e.InvalidEmail?
             || e.OutOfOperatingTime? || e.InvalidOperatingTime?) ==> r == Some(400)
    ensures (e.NotFoundStudyRoom? || e.NotFoundUser? || e.NotFoundReservation?) ==> r == Some(404)
    ensures e.StudyRoomNotAvailable? ==> r == Some(405)
    ensures e.ScheduleConflict? ==> r == Some(409)
  {
    match e
    case InvalidPassword => Some(400)
    case InvalidTimeRange => Some(400)
    case InvalidEmail => Some(400)
    case OutOfOperatingTime => Some(400)
    case InvalidOperatingTime => Some(400)
    case NotFoundStudyRoom => Some(404)
    case NotFoundUser => Some(404)
    case NotFoundReservation => Some(404)
    case StudyRoomNotAvailable => Some(405)
    case ScheduleConflict => Some(409)
    case TooShortReservation => None
    case InvalidStatus => None
    case AlreadyExpired => None
  }
}
