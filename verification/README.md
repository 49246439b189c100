# Study-room reservation admission, in Dafny

This project models the core of a study-room booking service. Registered
users reserve time windows in rooms, and the service must never admit two
reservations of the same room whose windows overlap. The model covers:

- the room entity: its opening-hours invariant, the enable/disable toggle and the availability gate;
- the reservation entity: its status machine (WAIT_PAYMENT, CONFIRMED, RESERVED, CANCELED, EXPIRED);
- the policy chain that screens a new booking;
- the overlap queries of the reservation repository;
- the service operations `reserve`, `reservationConfirm`, `update` and `cancel`, plus `join` and `leave` for users;
- the error codes and their HTTP statuses.

Everything is a pure function. Each operation takes the store (users and
rooms by id, reservations in insertion order) and returns either an error or
the new store with a response. An error carries no store, so a failed
operation changes nothing, as the transaction rollback guarantees in the
source. In production the exclusive room lock serialises bookings of a room.
Here operations run one at a time, and the lock's guarantee becomes an
invariant: no two distinct RESERVED reservations of the same room intersect.
`reserve`, `update` and `cancel` are proved to preserve it
(`BookingInvariants`).

Representation choices:
- A date-time is an integer number of minutes on one time line.
- A time of day is minutes since midnight, in [0, 1440).
- The projection from date-time to time of day is `t % 1440`.
- The injected clock is a parameter `now`.
- Ids are naturals. Users and rooms are map keys. A reservation's id is its position plus one, because reservations are never deleted.
- A reservation refers to its user and room by id. The repository's `r.studyRoom = :studyRoom` test becomes equality of room ids.

Files, one module each: `results.dfy`, `errors.dfy`, `time.dfy`,
`study_room.dfy`, `user.dfy`, `reservation.dfy`,
`reservation_repository.dfy`, `policies.dfy`, `store.dfy`,
`reservation_service.dfy`, `booking_invariants.dfy`, `user_service.dfy`,
`scenarios.dfy`.

## Where the source is inconsistent, and what the model does

1. **Status after booking.**
   - The reservation constructor sets WAIT_PAYMENT, and no code ever sets RESERVED.
   - Yet the overlap check and the listing only look at RESERVED reservations, and the service tests expect RESERVED after a booking.
   - The constructor is modelled faithfully (`Reservations.Create`). `ReservationService.Reserve` stores the new reservation as RESERVED.
   - `Reservations.NeverBecomesReserved` proves that no entity operation reaches RESERVED, which is the gap the service fills.
2. **Policy signatures.**
   - The policy interface declares `phase()` and a five-argument `validate`. The implementations take four arguments (minimum duration) and three (operating time).
   - Every policy is modelled as a check over (start, end, room, user).
   - The payment policy's fifth argument, the reservation, is represented by its status, the only part it reads.
   - The payment policy is not a registered component, so the injected list holds only the other two (`Policies.DefaultChainContents`). The chain itself is a parameter of `Reserve`.
   - No policy declares an order, so the list follows the container's registration order. For two classes scanned from one package that is in practice name order, and the model fixes `[MinimumDuration, OperatingTime]` (`Policies.DefaultChain`).
3. **Undeclared error codes.** TOO_SHORT_RESERVATION, INVALID_STATUS and ALREADY_EXPIRED are thrown but missing from the error enumeration. They are in `Errors.Error` and have no HTTP status.
4. **Missing room lookup.** `update` calls `getStudyRoomForUpdate`, which the common service does not define. It is modelled like the other room lookup: it fails NOT_FOUND_STUDYROOM (`Stores.GetStudyRoomForUpdate`).
5. **The operating-time check.**
   - The policy passes the two times of day of the window to a room method `validateOperatingTime`. The only such method is the room's private open-before-close check.
   - As written, then, the policy fails INVALID_OPERATING_TIME exactly when the window's end time of day is not after its start time of day. So it refuses every window that crosses midnight (`Policies.MidnightWindowRefused`) and ignores the room's hours.
   - The error enumeration declares OUT_OF_OPERATING_TIME ("not operating hours"), which nothing throws. Its natural use is a containment check: a window that does not lie within opening hours fails with it. The code as written performs no such check.
   - The public `isWithinOperatingTime` reads neither reading: it compares the start with the opening time and the end, and never reads the closing time. Nothing calls it.
   - The model follows the code (`Policies.OperatingTimeCheck`). It keeps `isWithinOperatingTime` as written and states the containment reading as a separate predicate (`StudyRooms.ContainsWindow`). `StudyRooms.WithinOperatingTimeIsNotContainment` shows that the two differ.
6. **Tests that do not match the code.** The service tests build rooms with a three-argument constructor that does not exist. The scenarios here use the five-argument one.

## Model

| member | source | states |
|---|---|---|
| Errors.HttpStatus | src/main/java/me/studyroom/global/exception/ExceptionCode.java:9-33 | the five input errors map to 400, the three not-found errors to 404, room-not-available to 405, schedule conflict to 409; a status exists exactly for the declared codes |
| Time.ToLocalTime | src/main/java/me/studyroom/domain/reservation/policy/OperatingTimePolicy.java:18-19 | the time of day of a date-time is in [0, 1440) and differs from it by whole days |
| Time.DateIsDiscarded | src/main/java/me/studyroom/domain/reservation/policy/OperatingTimePolicy.java:18-19 | shifting a date-time by whole days leaves its time of day unchanged |
| StudyRooms.ValidateOperatingTime | src/main/java/me/studyroom/domain/studyRoom/StudyRoom.java:54-58 | passes iff the first time is strictly before the second, else fails INVALID_OPERATING_TIME |
| StudyRooms.Create | src/main/java/me/studyroom/domain/studyRoom/StudyRoom.java:41-49 | construction succeeds iff open < close (equal times fail INVALID_OPERATING_TIME); the room stores its arguments and satisfies the invariant |
| StudyRooms.Enable | src/main/java/me/studyroom/domain/studyRoom/StudyRoom.java:62-67 | the room ends available, an available room is returned unchanged, and name, description and hours are kept |
| StudyRooms.Disable | src/main/java/me/studyroom/domain/studyRoom/StudyRoom.java:69-74 | the room ends unavailable, an unavailable room is returned unchanged, and name, description and hours are kept |
| StudyRooms.EnsureAvailable | src/main/java/me/studyroom/domain/studyRoom/StudyRoom.java:76-81 | passes iff the room is available, else fails STUDYROOM_NOT_AVAILABLE |
| StudyRooms.AvailabilityFollowsToggles | src/main/java/me/studyroom/domain/studyRoom/StudyRoom.java:62-81 | the availability gate passes an enabled room and refuses a disabled one with STUDYROOM_NOT_AVAILABLE |
| StudyRooms.IsWithinOperatingTime | src/main/java/me/studyroom/domain/studyRoom/StudyRoom.java:84-86 | a window starting before opening or ending before it starts is rejected, so an accepted window ends no earlier than opening; an ordered window inside the hours is accepted, and an accepted window that ends by closing time lies inside the hours |
| StudyRooms.WithinOperatingTimeIgnoresCloseTime | src/main/java/me/studyroom/domain/studyRoom/StudyRoom.java:84-86 | `isWithinOperatingTime` gives the same answer whatever the closing time |
| StudyRooms.WithinOperatingTimeIsNotContainment | src/main/java/me/studyroom/domain/studyRoom/StudyRoom.java:84-86 | a window ending after closing time is still "within operating time" as written, though not contained in the hours |
| StudyRooms.TogglesPreserveValid | src/main/java/me/studyroom/domain/studyRoom/StudyRoom.java:41-74 | enable and disable keep open < close |
| StudyRooms.TogglesIdempotent | src/main/java/me/studyroom/domain/studyRoom/StudyRoom.java:62-74 | enabling twice is enabling once, and likewise for disabling |
| Users.ValidatePassword | src/main/java/me/studyroom/domain/user/User.java:38-42 | passes iff the given password equals the stored one, else fails INVALID_PASSWORD |
| Users.ValidateEmail | src/main/java/me/studyroom/domain/user/User.java:44-48 | passes iff the given email equals the stored one, else fails INVALID_EMAIL |
| Reservations.Create | src/main/java/me/studyroom/domain/reservation/Reservation.java:50-56 | a new reservation keeps user, room and window as given and starts in WAIT_PAYMENT |
| Reservations.Update | src/main/java/me/studyroom/domain/reservation/Reservation.java:58-62 | room and window are replaced; id, owner and status are kept |
| Reservations.UpdateStudyRoom | src/main/java/me/studyroom/domain/reservation/Reservation.java:64-66 | only the room changes |
| Reservations.UpdateStartAt | src/main/java/me/studyroom/domain/reservation/Reservation.java:68-70 | only the start changes |
| Reservations.UpdateEndAt | src/main/java/me/studyroom/domain/reservation/Reservation.java:72-74 | only the end changes |
| Reservations.SingleFieldUpdatesCompose | src/main/java/me/studyroom/domain/reservation/Reservation.java:58-74 | applying the three single-field updaters equals one `update` |
| Reservations.Confirm | src/main/java/me/studyroom/domain/reservation/Reservation.java:76-81 | WAIT_PAYMENT becomes CONFIRMED; any other status fails INVALID_STATUS |
| Reservations.Expire | src/main/java/me/studyroom/domain/reservation/Reservation.java:83-87 | WAIT_PAYMENT becomes EXPIRED; any other status is left as it is |
| Reservations.Cancel | src/main/java/me/studyroom/domain/reservation/Reservation.java:89-94 | EXPIRED fails ALREADY_EXPIRED; any other status becomes CANCELED |
| Reservations.ExpireIdempotent | src/main/java/me/studyroom/domain/reservation/Reservation.java:83-87 | expiring twice is expiring once |
| Reservations.CancelIdempotent | src/main/java/me/studyroom/domain/reservation/Reservation.java:89-94 | cancelling a cancelled reservation succeeds and changes nothing |
| Reservations.StepTargets | src/main/java/me/studyroom/domain/reservation/Reservation.java:58-94 | one entity operation never enters RESERVED, enters CONFIRMED or EXPIRED only from WAIT_PAYMENT, and keeps id and owner |
| Reservations.NeverBecomesReserved | src/main/java/me/studyroom/domain/reservation/Reservation.java:58-94 | no sequence of entity operations turns a non-RESERVED reservation into a RESERVED one |
| Reservations.ConstructedNeverReserved | src/main/java/me/studyroom/domain/reservation/Reservation.java:50-94 | a constructed reservation never reaches RESERVED through entity operations |
| ReservationRepository.ExistsOverlapping | src/main/java/me/studyroom/domain/reservation/ReservationRepository.java:13-26 | true iff some stored reservation has the room and status and r.start < end and r.end > start |
| ReservationRepository.ExistsOverlappingExceptSelf | src/main/java/me/studyroom/domain/reservation/ReservationRepository.java:30-45 | the same, restricted to reservations whose id differs from the excluded one |
| ReservationRepository.FindByUserIdAndStatus | src/main/java/me/studyroom/domain/reservation/ReservationRepository.java:47 | a reservation is listed iff it is stored, owned by the user and in the status |
| ReservationRepository.ListingFollowsInsertion | src/main/java/me/studyroom/domain/reservation/ReservationRepository.java:47 | storing one more reservation appends it to the listing if it matches the user and status, and leaves the listing unchanged otherwise |
| ReservationRepository.FindIndex | src/main/java/me/studyroom/domain/reservation/ReservationRepository.java:49 | finds the first position holding that id with that owner, or reports that none does |
| ReservationRepository.FindByIdAndUserId | src/main/java/me/studyroom/domain/reservation/ReservationRepository.java:49 | yields a stored reservation only if both id and owner match, and yields nothing iff none does |
| ReservationRepository.IntersectsSymmetric | src/main/java/me/studyroom/domain/reservation/ReservationRepository.java:17-18 | the overlap test is symmetric in the two windows |
| ReservationRepository.TouchingWindowsDoNotIntersect | src/main/java/me/studyroom/domain/reservation/ReservationRepository.java:17-18 | windows that only share an endpoint do not overlap |
| ReservationRepository.ExceptSelfImpliesPlain | src/main/java/me/studyroom/domain/reservation/ReservationRepository.java:30-45 | a hit of the except-self query is a hit of the plain query |
| ReservationRepository.ExceptAbsentIdIsPlain | src/main/java/me/studyroom/domain/reservation/ReservationRepository.java:30-45 | excluding an id no reservation has gives the plain query |
| ReservationRepository.OtherStatusIsInvisible | src/main/java/me/studyroom/domain/reservation/ReservationRepository.java:13-45 | adding a reservation in another status changes neither query, for any queried room |
| Policies.PhaseOf | src/main/java/me/studyroom/domain/reservation/policy/PaymentPolicy.java:15-17 | the payment policy's phase is PAYMENT_CONFIRM; only it declares a phase |
| Policies.MinimumDurationCheck | src/main/java/me/studyroom/domain/reservation/policy/MinimumDurationPolicy.java:15-22 | passes iff the window lasts at least 60 minutes, else fails TOO_SHORT_RESERVATION |
| Policies.OperatingTimeCheck | src/main/java/me/studyroom/domain/reservation/policy/OperatingTimePolicy.java:17-25 | passes iff the start's time of day is before the end's, else fails INVALID_OPERATING_TIME (the code as written) |
| Policies.PaymentCheck | src/main/java/me/studyroom/domain/reservation/policy/PaymentPolicy.java:20-30 | passes iff the reservation is in WAIT_PAYMENT, else fails INVALID_STATUS |
| Policies.Validate | src/main/java/me/studyroom/domain/reservation/service/ReservationService.java:76-81 | each policy's verdict on a window: minimum duration passes iff it lasts at least an hour, operating time iff the start's time of day precedes the end's, payment iff the status is WAIT_PAYMENT; each refuses with its own error |
| Policies.DefaultChainContents | src/main/java/me/studyroom/domain/reservation/service/ReservationService.java:33 | the injected list holds the minimum-duration and operating-time policies once each and nothing else; none of them declares a phase |
| Policies.RunChain | src/main/java/me/studyroom/domain/reservation/service/ReservationService.java:75-82 | the chain passes iff every policy passes; a failure is the failure of the first failing policy, every earlier one having passed |
| Policies.OneHourIsEnough | src/main/java/me/studyroom/domain/reservation/policy/MinimumDurationPolicy.java:19 | a window of exactly one hour passes |
| Policies.EmptyWindowIsTooShort | src/main/java/me/studyroom/domain/reservation/policy/MinimumDurationPolicy.java:19-21 | an empty or reversed window fails TOO_SHORT_RESERVATION |
| Policies.PolicyInputs | src/main/java/me/studyroom/domain/reservation/policy/PaymentPolicy.java:20-30 | no policy's verdict depends on the user; the minimum-duration verdict does not depend on the room; the payment verdict depends only on the reservation's status |
| Policies.OperatingTimeIgnoresDates | src/main/java/me/studyroom/domain/reservation/policy/OperatingTimePolicy.java:18-19 | the operating-time verdict depends only on the times of day, not the dates |
| Policies.MidnightWindowRefused | src/main/java/me/studyroom/domain/reservation/policy/OperatingTimePolicy.java:17-25 | as written, 23:00 to 01:00 the next day fails INVALID_OPERATING_TIME in any room |
| Policies.DefaultChainDurationFirst | src/main/java/me/studyroom/domain/reservation/service/ReservationService.java:75-82 | with the registered policies, a window under an hour fails TOO_SHORT_RESERVATION whatever else is wrong with it |
| Stores.GetUserById | src/main/java/me/studyroom/global/service/CommonService.java:22-25 | yields the stored user iff the id is known, else fails NOT_FOUND_USER |
| Stores.GetStudyRoomForUpdate | src/main/java/me/studyroom/domain/reservation/service/ReservationService.java:61-62 | yields the stored room iff the id is known, else fails NOT_FOUND_STUDYROOM |
| Stores.NextReservationId | src/main/java/me/studyroom/domain/reservation/Reservation.java:28-30 | when ids are positions, the next id belongs to no stored reservation |
| ReservationService.TimeValidator | src/main/java/me/studyroom/domain/reservation/service/ReservationService.java:39-49 | passes iff start < end and start is strictly after now, else fails INVALID_TIME_RANGE |
| ReservationService.Reserve | src/main/java/me/studyroom/domain/reservation/service/ReservationService.java:52-108 | the first failing check decides the error, in the order user, time range, room, availability, policies, overlap; SCHEDULE_CONFLICT iff a RESERVED reservation of the room intersects the window; success iff every check passes, and it appends exactly one RESERVED reservation with the requested user, room and window and echoes user name, room name and window |
| ReservationService.ToRead | src/main/java/me/studyroom/domain/reservation/service/ReservationService.java:124-131 | the read response carries the owner's name, the room's name and the window |
| ReservationService.ReservationConfirm | src/main/java/me/studyroom/domain/reservation/service/ReservationService.java:114-119 | the listing holds exactly the responses of the user's RESERVED reservations: one per repository hit, in the repository's order, each carrying that reservation's owner name, room name and window |
| ReservationService.Update | src/main/java/me/studyroom/domain/reservation/service/ReservationService.java:141-195 | a non-matching (reservation, user) pair fails NOT_FOUND_RESERVATION before the password is looked at; then user, password, room and availability are checked in order; once those pass it fails iff another RESERVED reservation of the room intersects the window, and then only with SCHEDULE_CONFLICT; success changes only that reservation's room and window, keeps its status and adds no record |
| ReservationService.Cancel | src/main/java/me/studyroom/domain/reservation/service/ReservationService.java:198-211 | user and password are checked before ownership; it succeeds iff the user exists, the password matches and the first reservation with that id and owner has not expired; an owned reservation fails only with ALREADY_EXPIRED once user and password pass; success keeps the owned, non-expired reservation in the store with status CANCELED and changes nothing else |
| BookingInvariants.ReservePreservesConsistency | src/main/java/me/studyroom/domain/reservation/service/ReservationService.java:84-100 | a successful booking keeps ids distinct and no two RESERVED reservations of a room intersecting |
| BookingInvariants.UpdatePreservesConsistency | src/main/java/me/studyroom/domain/reservation/service/ReservationService.java:173-187 | a successful move keeps the same invariant |
| BookingInvariants.CancelPreservesConsistency | src/main/java/me/studyroom/domain/reservation/service/ReservationService.java:207-210 | a successful cancellation keeps the same invariant |
| BookingInvariants.BackToBackBothSucceed | src/main/java/me/studyroom/domain/reservation/service/ReservationService.java:84-100 | if [a, b) and [b, c) are each bookable, booking the first leaves the second bookable |
| BookingInvariants.ShrinkWithinOwnWindowSucceeds | src/main/java/me/studyroom/domain/reservation/service/ReservationService.java:157-187 | moving a RESERVED reservation to a window inside its own, in the same room, never conflicts with itself and succeeds for its owner |
| BookingInvariants.CancelFreesWindow | src/main/java/me/studyroom/domain/reservation/service/ReservationService.java:198-211 | after cancelling a RESERVED reservation it is still stored, as CANCELED, and a new booking of its window is not refused as a conflict |
| BookingInvariants.CanceledNotListed | src/main/java/me/studyroom/domain/reservation/service/ReservationService.java:114-119 | a cancelled reservation is no longer among its owner's RESERVED reservations |
| UserService.Join | src/main/java/me/studyroom/domain/user/service/UserService.java:18-28 | a user with the request's four fields is stored under the next id; every other user, room and reservation is kept |
| UserService.JoinAddsExactlyOne | src/main/java/me/studyroom/domain/user/service/UserService.java:18-28 | joining adds exactly one user |
| UserService.Leave | src/main/java/me/studyroom/domain/user/service/UserService.java:31-39 | unknown id fails NOT_FOUND_USER; a wrong email fails INVALID_EMAIL whatever the password; then a wrong password fails INVALID_PASSWORD; only when both match is exactly that user removed |
| UserService.LeaveRemovesExactlyOne | src/main/java/me/studyroom/domain/user/service/UserService.java:31-39 | leaving removes exactly one user |
| Scenarios.BoundaryBookingScenario | src/test/java/me/studyroom/domain/reservation/ReservationServiceTest.java:86-107 | booking one to two hours ahead and then two to three hours ahead both succeed, leaving two reservations |
| Scenarios.OverlapBookingScenario | src/test/java/me/studyroom/domain/reservation/ReservationServiceTest.java:109-132 | with two to three hours ahead booked, one to three hours ahead fails SCHEDULE_CONFLICT and one reservation remains |
| Scenarios.CancelThenRebookScenario | src/test/java/me/studyroom/domain/reservation/ReservationServiceTest.java:134-184 | user 1's cancelled booking stays stored as CANCELED, and user 2 then books the same window as the only RESERVED reservation |
| Scenarios.NonOwnerScenario | src/test/java/me/studyroom/domain/reservation/ReservationServiceTest.java:404-478 | the owner's cancel succeeds with status CANCELED; another user's update or cancel of the booking fails NOT_FOUND_RESERVATION |

## Left out

- Concurrency and the pessimistic room lock (`StudyRoomRepository.findByIdForUpdate`): operations run one at a time. The lock's guarantee is stated as the preserved no-overlap invariant. Lock timeouts are not modelled.
- The HTTP layer (controllers, exception handlers, the error response body, the empty confirm endpoint) and the empty `confirmPayment`: transport and placeholders with no logic.
- Security wiring: the authenticated user id is an input.
- The real clock and calendar: time is whole minutes, so sub-minute precision and time zones are gone.
- Persistence:
  - Id generation is modelled as positions.
  - Unique-column constraints (room name, user email and phone) are not modelled. Column lengths and request validation annotations belong to the transport layer.
  - The database's foreign keys are not modelled. So `UserService.Leave` removes a user even when they still own reservations, where the database would refuse the delete.
- ReservationService.ReservationConfirm: requires the user and room of each listed reservation to be in the store, which is what referential integrity gives the source.
- ReservationRepository.FindByUserIdAndStatus: the derived query has no ORDER BY, so the database may return its rows in any order. The model fixes insertion order; `ReservationRepository.ListingFollowsInsertion` states it. The function's own contract states membership in both directions and a length bound.
- The user entity's constructor has no member of its own: `UserService.Join` states that the four fields are stored verbatim.
- Java `String.equals` on a null argument: request validation guarantees non-blank passwords and emails, so the null case is not modelled.
