/**
  The persistent state the services work on: users and rooms by id, and the
  reservations in insertion order. Reservations are never physically
  deleted, so the store gives each one the id of its position plus one, as
  an identity column counting from one would.
*/
module Stores {
  import opened Results
  import opened Errors
  import opened Users
  import opened StudyRooms
  import opened Reservations
  import opened ReservationRepository

  datatype Store = Store(
    users: map<nat, User>,
    rooms: map<nat, StudyRoom>,
    reservations: seq<Reservation>,
    nextUserId: nat)

  /** The user lookup that throws NOT_FOUND_USER. */
  function GetUserById(s: Store, userId: nat): (r: Result<User, Error>)
    ensures r.Ok? <==> userId in s.users
    ensures r.Ok? ==> r.value == s.users[userId]
    ensures r.Err? ==> r.error == NotFoundUser
  {
    if userId in s.users then Ok(s.users[userId]) else Err(NotFoundUser)
  }

  /**
    The room lookup taken under the room's exclusive lock, which throws
    NOT_FOUND_STUDYROOM. The lock itself is not modelled: operations run one
    at a time.
  */
  function GetStudyRoomForUpdate(s: Store, roomId: nat): (r: Result<StudyRoom, Error>)
    ensures r.Ok? <==> roomId in s.rooms
    ensures r.Ok? ==> r.value == s.rooms[roomId]
    ensures r.Err? ==> r.error == NotFoundStudyRoom
  {
    if roomId in s.rooms then Ok(s.rooms[roomId]) else Err(NotFoundStudyRoom)
  }

  /** Every reservation's id is its position plus one; in particular ids are distinct. */
  predicate IdsArePositions(rs: seq<Reservation>) {
    forall i :: 0 <= i < |rs| ==> rs[i].id == i + 1
  }

  /** The id the store gives the next reservation. */
  function NextReservationId(rs: seq<Reservation>): (id: nat)
    ensures IdsArePositions(rs) ==> forall x :: x in rs ==> x.id != id
  {
    |rs| + 1
  }

  /** No two distinct RESERVED reservations of the same room intersect. */
  predicate NoOverlap(rs: seq<Reservation>) {
    forall i, j :: 0 <= i < |rs| && 0 <= j < |rs| && i != j
                   && rs[i].status == Reserved && rs[j].status == Reserved
                   && rs[i].roomId == rs[j].roomId
                   ==> !Intersects(rs[i].startAt, rs[i].endAt, rs[j].startAt, rs[j].endAt)
  }

  /** Every user id is below the next one to hand out. */
  predicate UserIdsIssued(s: Store) {
    forall id :: id in s.users ==> id < s.nextUserId
  }
}
