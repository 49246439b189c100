/**
  The reservation service: booking, listing, moving and cancelling
  reservations. Every operation is a function from the store to either an
  error or the new store and a response; an error carries no store, so a
  failed operation changes nothing. Operations are taken to run one at a
  time, which is what the exclusive room lock guarantees for operations on
  the same room.
*/
module ReservationService {
  import opened Results
  import opened Errors
  import opened Users
  import opened Reservations
  import opened ReservationRepository
  import opened Stores
  import StudyRooms
  import Policies

  /** The response of reserve, update and the listing: who, which room, when. */
  datatype Summary = Summary(userName: string, roomName: string, startAt: int, endAt: int)

  /** The window is non-empty and starts strictly after `now`. */
  predicate SaneWindow(startAt: int, endAt: int, now: int) {
    startAt < endAt && now < startAt
  }

  /** The private time check: a non-empty window that starts in the future. */
  function TimeValidator(startAt: int, endAt: int, now: int): (r: Outcome<Error>)
    ensures r.Pass? <==> SaneWindow(startAt, endAt, now)
    ensures r.Fail? ==> r.error == InvalidTimeRange
  {
    if !(startAt < endAt) then Fail(InvalidTimeRange)
    else if !(now < startAt) then Fail(InvalidTimeRange)
    else Pass
  }

  /** Some stored RESERVED reservation of the room intersects the window. */
  predicate Occupied(rs: seq<Reservation>, roomId: nat, startAt: int, endAt: int) {
    exists i :: 0 <= i < |rs| && Conflicts(rs[i], roomId, Reserved, startAt, endAt)
  }

  /** Every check `Reserve` makes before the overlap query passes. */
  predicate ReserveAdmissible(s: Store, policies: seq<Policies.Policy>, now: int,
                              roomId: nat, startAt: int, endAt: int, userId: nat) {
    && userId in s.users
    && SaneWindow(startAt, endAt, now)
    && roomId in s.rooms
    && s.rooms[roomId].available
    && Policies.RunChain(policies, startAt, endAt, s.rooms[roomId], s.users[userId]).Pass?
  }

  /**
    Books a room. The checks run in this order and the first failure is the
    result: the user exists, the window is sane, the room exists, the room is
    available, each policy in list order, no RESERVED reservation of the room
    intersects the window. On success one reservation is appended.

    The entity constructor sets WAIT_PAYMENT and nothing in the source ever
    sets RESERVED, yet the overlap query and the listing only look at
    RESERVED reservations and the service's tests expect RESERVED after a
    booking. The model stores the booking as RESERVED, the one status in
    which a booking blocks later bookings and appears in the listing.
  */
  function Reserve(s: Store, policies: seq<Policies.Policy>, now: int,
                   roomId: nat, startAt: int, endAt: int, userId: nat): (r: Result<(Store, Summary), Error>)
    ensures userId !in s.users ==> r == Err(NotFoundUser)
    ensures userId in s.users && !SaneWindow(startAt, endAt, now) ==> r == Err(InvalidTimeRange)
    ensures userId in s.users && SaneWindow(startAt, endAt, now) && roomId !in s.rooms
            ==> r == Err(NotFoundStudyRoom)
    ensures userId in s.users && SaneWindow(startAt, endAt, now) && roomId in s.rooms
            && !s.rooms[roomId].available
            ==> r == Err(StudyRoomNotAvailable)
    ensures userId in s.users && SaneWindow(startAt, endAt, now) && roomId in s.rooms
            && s.rooms[roomId].available
            && Policies.RunChain(policies, startAt, endAt, s.rooms[roomId], s.users[userId]).Fail?
            ==> r == Err(Policies.RunChain(policies, startAt, endAt, s.rooms[roomId], s.users[userId]).error)
    ensures ReserveAdmissible(s, policies, now, roomId, startAt, endAt, userId)
            ==> (r == Err(ScheduleConflict) <==> Occupied(s.reservations, roomId, startAt, endAt))
    ensures r.Ok? <==> ReserveAdmissible(s, policies, now, roomId, startAt, endAt, userId)
                       && !Occupied(s.reservations, roomId, startAt, endAt)
    ensures r.Ok? ==>
              && r.value.0.users == s.users && r.value.0.rooms == s.rooms
              && r.value.0.nextUserId == s.nextUserId
              && r.value.0.reservations
                 == s.reservations + [Reservation(|s.reservations| + 1, userId, roomId, startAt, endAt, Reserved)]
              && r.value.1 == Summary(s.users[userId].name, s.rooms[roomId].name, startAt, endAt)
  {
    var user :- GetUserById(s, userId);
    :- TimeValidator(startAt, endAt, now);
    var room :- GetStudyRoomForUpdate(s, roomId);
    :- StudyRooms.EnsureAvailable(room);
    :- Policies.RunChain(policies, startAt, endAt, room, user);
    if ExistsOverlapping(s.reservations, roomId, Reserved, startAt, endAt) then
      Err(ScheduleConflict)
    else
      var created := Reservations.Create(NextReservationId(s.reservations), userId, roomId, startAt, endAt);
      var booked := created.(status := Reserved);
      Ok((s.(reservations := s.reservations + [booked]),
          Summary(user.name, room.name, startAt, endAt)))
  }

  /** The user and room of every reservation the user holds in RESERVED status are in the store. */
  predicate ListingResolves(s: Store, userId: nat) {
    forall x :: x in s.reservations && x.userId == userId && x.status == Reserved
                ==> x.userId in s.users && x.roomId in s.rooms
  }

  /** The read response for one reservation. */
  function ToRead(s: Store, x: Reservation): (r: Summary)
    requires x.userId in s.users && x.roomId in s.rooms
    ensures r.startAt == x.startAt && r.endAt == x.endAt
    ensures r.userName == s.users[x.userId].name && r.roomName == s.rooms[x.roomId].name
  {
    Summary(s.users[x.userId].name, s.rooms[x.roomId].name, x.startAt, x.endAt)
  }

  /** The read responses for a list of reservations, in the list's order. */
  function ReadAll(s: Store, xs: seq<Reservation>): (r: seq<Summary>)
    requires forall x :: x in xs ==> x.userId in s.users && x.roomId in s.rooms
    ensures |r| == |xs|
    ensures forall i :: 0 <= i < |xs| ==> r[i] == ToRead(s, xs[i])
  {
    seq(|xs|, i requires 0 <= i < |xs| => ToRead(s, xs[i]))
  }

  /**
    Lists the user's reservations in RESERVED status, in insertion order.
    The requirement is the database's referential integrity: a reservation's
    user and room rows exist.
  */
  function ReservationConfirm(s: Store, userId: nat): (r: seq<Summary>)
    requires ListingResolves(s, userId)
    ensures forall y :: y in r ==> exists x :: x in s.reservations && x.userId == userId
                                              && x.status == Reserved && y == ToRead(s, x)
    ensures forall x :: x in s.reservations && x.userId == userId && x.status == Reserved
                        ==> ToRead(s, x) in r
    ensures |r| == |FindByUserIdAndStatus(s.reservations, userId, Reserved)|
    ensures forall i :: 0 <= i < |r| ==>
              var x := FindByUserIdAndStatus(s.reservations, userId, Reserved)[i];
              x in s.reservations && x.userId == userId && x.status == Reserved && r[i] == ToRead(s, x)
  {
    var listed := FindByUserIdAndStatus(s.reservations, userId, Reserved);
    ReadAll(s, listed)
  }

  /** Some reservation in the store has this id and owner. */
  predicate Owns(rs: seq<Reservation>, reservationId: nat, userId: nat) {
    exists i :: 0 <= i < |rs| && Owned(rs[i], reservationId, userId)
  }

  /** Some other stored RESERVED reservation of the room intersects the window. */
  predicate OccupiedByOther(rs: seq<Reservation>, roomId: nat, startAt: int, endAt: int, reservationId: nat) {
    exists i :: 0 <= i < |rs| && rs[i].id != reservationId && Conflicts(rs[i], roomId, Reserved, startAt, endAt)
  }

  /**
    Moves a reservation to a room and window. The checks run in this order:
    the (reservation, user) pair exists, the user exists, the password
    matches, the room exists, the room is available, and no other RESERVED
    reservation of the room intersects the window. Neither the window's
    sanity nor the policies nor the reservation's status are checked.
  */
  function Update(s: Store, reservationId: nat, roomId: nat, startAt: int, endAt: int,
                  userId: nat, password: string): (r: Result<(Store, Summary), Error>)
    ensures !Owns(s.reservations, reservationId, userId) ==> r == Err(NotFoundReservation)
    ensures Owns(s.reservations, reservationId, userId) && userId !in s.users ==> r == Err(NotFoundUser)
    ensures Owns(s.reservations, reservationId, userId) && userId in s.users
            && password != s.users[userId].password
            ==> r == Err(InvalidPassword)
    ensures Owns(s.reservations, reservationId, userId) && userId in s.users
            && password == s.users[userId].password && roomId !in s.rooms
            ==> r == Err(NotFoundStudyRoom)
    ensures Owns(s.reservations, reservationId, userId) && userId in s.users
            && password == s.users[userId].password && roomId in s.rooms && !s.rooms[roomId].available
            ==> r == Err(StudyRoomNotAvailable)
    ensures Owns(s.reservations, reservationId, userId) && userId in s.users
            && password == s.users[userId].password && roomId in s.rooms && s.rooms[roomId].available
            ==> && (r.Err? <==> OccupiedByOther(s.reservations, roomId, startAt, endAt, reservationId))
                && (r.Err? ==> r.error == ScheduleConflict)
    ensures r.Err? ==> r.error in {NotFoundReservation, NotFoundUser, InvalidPassword,
                                   NotFoundStudyRoom, StudyRoomNotAvailable, ScheduleConflict}
    ensures r.Ok? ==>
              && r.value.0.users == s.users && r.value.0.rooms == s.rooms
              && r.value.0.nextUserId == s.nextUserId
              && |r.value.0.reservations| == |s.reservations|
              && r.value.1 == Summary(s.users[userId].name, s.rooms[roomId].name, startAt, endAt)
              && exists i :: 0 <= i < |s.reservations| && Owned(s.reservations[i], reservationId, userId)
                             && r.value.0.reservations
                                == s.reservations[i := s.reservations[i].(roomId := roomId, startAt := startAt, endAt := endAt)]
  {
    match FindIndex(s.reservations, reservationId, userId)
    case None => Err(NotFoundReservation)
    case Some(i) =>
      var user :- GetUserById(s, userId);
      :- ValidatePassword(user, password);
      var room :- GetStudyRoomForUpdate(s, roomId);
      :- StudyRooms.EnsureAvailable(room);
      if ExistsOverlappingExceptSelf(s.reservations, roomId, Reserved, startAt, endAt, reservationId) then
        Err(ScheduleConflict)
      else
        var moved := Reservations.Update(s.reservations[i], roomId, startAt, endAt);
        Ok((s.(reservations := s.reservations[i := moved]),
            Summary(user.name, room.name, startAt, endAt)))
  }

  /**
    Cancels a reservation. The checks run in this order: the user exists, the
    password matches, the (reservation, user) pair exists, and the
    reservation has not expired. The reservation stays in the store with
    status CANCELED.
  */
  function Cancel(s: Store, reservationId: nat, userId: nat, password: string): (r: Result<Store, Error>)
    ensures userId !in s.users ==> r == Err(NotFoundUser)
    ensures userId in s.users && password != s.users[userId].password ==> r == Err(InvalidPassword)
    ensures userId in s.users && password == s.users[userId].password
            && !Owns(s.reservations, reservationId, userId)
            ==> r == Err(NotFoundReservation)
    ensures userId in s.users && password == s.users[userId].password
            && Owns(s.reservations, reservationId, userId) && r.Err?
            ==> r.error == AlreadyExpired
    ensures r.Ok? <==> && userId in s.users && password == s.users[userId].password
                       && FindIndex(s.reservations, reservationId, userId).Some?
                       && s.reservations[FindIndex(s.reservations, reservationId, userId).value].status != Expired
    ensures r.Err? ==> r.error in {NotFoundUser, InvalidPassword, NotFoundReservation, AlreadyExpired}
    ensures r.Err? && r.error == AlreadyExpired ==>
              exists i :: 0 <= i < |s.reservations| && Owned(s.reservations[i], reservationId, userId)
                          && s.reservations[i].status == Expired
    ensures r.Ok? ==>
              && userId in s.users && password == s.users[userId].password
              && r.value.users == s.users && r.value.rooms == s.rooms && r.value.nextUserId == s.nextUserId
              && exists i :: 0 <= i < |s.reservations| && Owned(s.reservations[i], reservationId, userId)
                             && s.reservations[i].status != Expired
                             && r.value.reservations
                                == s.reservations[i := s.reservations[i].(status := Canceled)]
  {
    var user :- GetUserById(s, userId);
    :- ValidatePassword(user, password);
    match FindIndex(s.reservations, reservationId, userId)
    case None => Err(NotFoundReservation)
    case Some(i) =>
      var canceled :- Reservations.Cancel(s.reservations[i]);
      Ok(s.(reservations := s.reservations[i := canceled]))
  }
}
