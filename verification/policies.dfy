/**
  The reservation policy chain. Every policy is abstracted as a check over
  (start, end, room, user); the chain runs them in list order and the first
  refusal wins.

  The source declares the policy interface with a `phase()` and a
  five-argument `validate`, while the implementations take four
  (minimum duration) and three (operating time) arguments. The payment
  policy's fifth argument, the reservation being paid for, is represented
  here by its status, the only part it reads.
*/
module Policies {
  import opened Results
  import opened Errors
  import opened Time
  import opened Reservations
  import opened Users
  import StudyRooms

  /** The phases a policy may declare; only the payment policy declares one. */
  datatype Phase = PaymentConfirm

  datatype Policy =
    | MinimumDuration
    | OperatingTime
    | Payment(reservationStatus: Status)

  /** The shortest bookable window, in minutes. */
  const MinimumDurationMinutes: int := 1 * MinutesPerHour

  /**
    The injected policy list. Only the minimum-duration and operating-time
    policies are annotated as components; the payment policy is not, and so
    is never in the list. Neither declares an order, so the list follows the
    container's registration order, which for classes found by scanning one
    package is in practice the order of their names: MinimumDurationPolicy
    first. The model fixes that order.
  */
  const DefaultChain: seq<Policy> := [MinimumDuration, OperatingTime]

  /** The injected list holds each registered policy once and nothing else. */
  lemma DefaultChainContents()
    ensures |DefaultChain| == 2
    ensures forall p :: p in DefaultChain <==> p.MinimumDuration? || p.OperatingTime?
    ensures forall p :: p in DefaultChain ==> PhaseOf(p).None?
  {
  }

  function PhaseOf(p: Policy): (r: Option<Phase>)
    ensures r.Some? <==> p.Payment?
    ensures p.Payment? ==> r.value == PaymentConfirm
  {
    match p
    case Payment(_) => Some(PaymentConfirm)
    case _ => None
  }

  /** MinimumDurationPolicy: the window lasts at least one hour. */
  function MinimumDurationCheck(startAt: int, endAt: int): (r: Outcome<Error>)
    ensures r.Pass? <==> endAt - startAt >= 60
    ensures r.Fail? ==> r.error == TooShortReservation
  {
    if endAt - startAt < MinimumDurationMinutes then Fail(TooShortReservation) else Pass
  }

  /**
    OperatingTimePolicy as written: only the times of day of the window are
    kept and handed to the room's open-before-close check. So the window is
    refused with InvalidOperatingTime exactly when its end time of day is not
    after its start time of day, whatever the room's hours are.

    This is one of two readings of the source. The policy calls a room
    method `validateOperatingTime(startTime, endTime)`, and the only method
    of that name is the room's private open-before-close check; the error
    OutOfOperatingTime, which a containment check against the room's hours
    would raise, is declared but never thrown.
  */
  function OperatingTimeCheck(startAt: int, endAt: int, room: StudyRooms.StudyRoom): (r: Outcome<Error>)
    ensures r.Pass? <==> ToLocalTime(startAt) < ToLocalTime(endAt)
    ensures r.Fail? ==> r.error == InvalidOperatingTime
  {
    var startTime := ToLocalTime(startAt);
    var endTime := ToLocalTime(endAt);
    StudyRooms.ValidateOperatingTime(startTime, endTime)
  }

  /** PaymentPolicy: the reservation must still be waiting for payment. */
  function PaymentCheck(reservationStatus: Status): (r: Outcome<Error>)
    ensures r.Pass? <==> reservationStatus == WaitPayment
    ensures r.Fail? ==> r.error == InvalidStatus
  {
    if reservationStatus != WaitPayment then Fail(InvalidStatus) else Pass
  }

  /**
    One policy's verdict on a window. Each policy refuses with its own error
    and none of them reads the user.
  */
  function Validate(p: Policy, startAt: int, endAt: int, room: StudyRooms.StudyRoom, user: User): (r: Outcome<Error>)
    ensures p.MinimumDuration? ==> (r.Pass? <==> endAt - startAt >= MinimumDurationMinutes)
    ensures p.OperatingTime? ==> (r.Pass? <==> ToLocalTime(startAt) < ToLocalTime(endAt))
    ensures p.Payment? ==> (r.Pass? <==> p.reservationStatus == WaitPayment)
    ensures r.Fail? ==> r.error == (match p
                                    case MinimumDuration => TooShortReservation
                                    case OperatingTime => InvalidOperatingTime
                                    case Payment(_) => InvalidStatus)
  {
    match p
    case MinimumDuration => MinimumDurationCheck(startAt, endAt)
    case OperatingTime => OperatingTimeCheck(startAt, endAt, room)
    case Payment(status) => PaymentCheck(status)
  }

  /** Runs the policies in order; the first refusal is the chain's refusal. */
  function RunChain(ps: seq<Policy>, startAt: int, endAt: int, room: StudyRooms.StudyRoom, user: User): (r: Outcome<Error>)
    ensures r.Pass? <==> forall i :: 0 <= i < |ps| ==> Validate(ps[i], startAt, endAt, room, user).Pass?
    ensures r.Fail? ==> exists i :: 0 <= i < |ps| && Validate(ps[i], startAt, endAt, room, user) == r
                                    && forall j :: 0 <= j < i ==> Validate(ps[j], startAt, endAt, room, user).Pass?
  {
    if |ps| == 0 then Pass
    else
      match Validate(ps[0], startAt, endAt, room, user)
      case Fail(e) => Fail(e)
      case Pass =>
        var rest := RunChain(ps[1..], startAt, endAt, room, user);
        if rest.Fail? then
          ghost var k :| 0 <= k < |ps| - 1 && Validate(ps[1..][k], startAt, endAt, room, user) == rest
                         && forall j :: 0 <= j < k ==> Validate(ps[1..][j], startAt, endAt, room, user).Pass?;
          assert Validate(ps[k + 1], startAt, endAt, room, user) == rest;
          assert forall j :: 0 <= j < k + 1 ==> Validate(ps[j], startAt, endAt, room, user).Pass? by {
            forall j | 0 <= j < k + 1
              ensures Validate(ps[j], startAt, endAt, room, user).Pass?
            {
              if j > 0 { assert ps[j] == ps[1..][j - 1]; }
            }
          }
          rest
        else
          assert forall i :: 0 <= i < |ps| ==> Validate(ps[i], startAt, endAt, room, user).Pass? by {
            forall i | 0 <= i < |ps|
              ensures Validate(ps[i], startAt, endAt, room, user).Pass?
            {
              if i > 0 { assert ps[i] == ps[1..][i - 1]; }
            }
          }
          rest
  }

  /** A window of exactly one hour passes the minimum-duration policy. */
  lemma OneHourIsEnough(startAt: int)
    ensures MinimumDurationCheck(startAt, startAt + 60).Pass?
  {
  }

  /** An empty or reversed window always fails the minimum-duration policy. */
  lemma EmptyWindowIsTooShort(startAt: int, endAt: int)
    requires endAt <= startAt
    ensures MinimumDurationCheck(startAt, endAt) == Fail(TooShortReservation)
  {
  }

  /**
    No policy looks at the user; the minimum-duration policy does not look
    at the room either, and the payment policy looks at nothing but the
    reservation's status.
  */
  lemma PolicyInputs(p: Policy, startAt: int, endAt: int, startAt': int, endAt': int,
                     room: StudyRooms.StudyRoom, room': StudyRooms.StudyRoom, u1: User, u2: User)
    ensures Validate(p, startAt, endAt, room, u1) == Validate(p, startAt, endAt, room, u2)
    ensures p.MinimumDuration? ==> Validate(p, startAt, endAt, room, u1) == Validate(p, startAt, endAt, room', u2)
    ensures p.Payment? ==> Validate(p, startAt, endAt, room, u1) == Validate(p, startAt', endAt', room', u2)
  {
  }

  /** The operating-time policy looks only at the times of day, not the dates. */
  lemma OperatingTimeIgnoresDates(startAt: int, endAt: int, d1: int, d2: int, room: StudyRooms.StudyRoom)
    ensures OperatingTimeCheck(startAt + d1 * MinutesPerDay, endAt + d2 * MinutesPerDay, room)
            == OperatingTimeCheck(startAt, endAt, room)
  {
    DateIsDiscarded(startAt, d1);
    DateIsDiscarded(endAt, d2);
  }

  /**
    As written, the operating-time policy refuses every window that crosses
    midnight, here 23:00 to 01:00 the next day, in any room.
  */
  lemma MidnightWindowRefused(day: int, room: StudyRooms.StudyRoom)
    ensures OperatingTimeCheck(day * MinutesPerDay + 1380, day * MinutesPerDay + 1500, room)
            == Fail(InvalidOperatingTime)
  {
    OperatingTimeIgnoresDates(1380, 1500, day, day, room);
  }

  /** With the default chain, a too-short window is refused as too short before any other policy is asked. */
  lemma DefaultChainDurationFirst(startAt: int, endAt: int, room: StudyRooms.StudyRoom, user: User)
    requires endAt - startAt < 60
    ensures RunChain(DefaultChain, startAt, endAt, room, user) == Fail(TooShortReservation)
  {
  }
}
