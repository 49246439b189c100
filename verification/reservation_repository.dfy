/**
  The reservation queries, as pure functions over the stored reservations in
  insertion order.
*/
module ReservationRepository {
  import opened Results
  import opened Reservations

  /**
    Half-open window intersection: [aStart, aEnd) and [bStart, bEnd) share an
    instant. Touching endpoints do not count.
  */
  predicate Intersects(aStart: int, aEnd: int, bStart: int, bEnd: int) {
    aStart < bEnd && aEnd > bStart
  }

  /** The WHERE clause of the overlap query, for one stored reservation. */
  predicate Conflicts(x: Reservation, roomId: nat, status: Status, startAt: int, endAt: int) {
    x.roomId == roomId && x.status == status && Intersects(x.startAt, x.endAt, startAt, endAt)
  }

  /** `existsReservedOverlappingReservation`. */
  function ExistsOverlapping(rs: seq<Reservation>, roomId: nat, status: Status, startAt: int, endAt: int): (b: bool)
    ensures b <==> exists i :: 0 <= i < |rs| && Conflicts(rs[i], roomId, status, startAt, endAt)
  {
    if |rs| == 0 then false
    else Conflicts(rs[0], roomId, status, startAt, endAt)
         || ExistsOverlapping(rs[1..], roomId, status, startAt, endAt)
  }

  /** `existsReservedOverlappingReservationExceptSelf`: the same query, ignoring one id. */
  function ExistsOverlappingExceptSelf(rs: seq<Reservation>, roomId: nat, status: Status,
                                       startAt: int, endAt: int, reservationId: nat): (b: bool)
    ensures b <==> exists i :: 0 <= i < |rs| && rs[i].id != reservationId
                               && Conflicts(rs[i], roomId, status, startAt, endAt)
  {
    if |rs| == 0 then false
    else (rs[0].id != reservationId && Conflicts(rs[0], roomId, status, startAt, endAt))
         || ExistsOverlappingExceptSelf(rs[1..], roomId, status, startAt, endAt, reservationId)
  }

  /** `findByUserIdAndStatus`: the user's reservations in that status, in insertion order. */
  function FindByUserIdAndStatus(rs: seq<Reservation>, userId: nat, status: Status): (r: seq<Reservation>)
    ensures forall x :: x in r <==> x in rs && x.userId == userId && x.status == status
    ensures |r| <= |rs|
  {
    if |rs| == 0 then []
    else
      var rest := FindByUserIdAndStatus(rs[1..], userId, status);
      if rs[0].userId == userId && rs[0].status == status then [rs[0]] + rest else rest
  }

  /** The reservation has the given id and belongs to the given user. */
  predicate Owned(x: Reservation, reservationId: nat, userId: nat) {
    x.id == reservationId && x.userId == userId
  }

  /**
    The listing follows insertion order: storing one more reservation adds
    it at the end of the listing if it matches, and changes nothing otherwise.
  */
  lemma {:induction false} ListingFollowsInsertion(rs: seq<Reservation>, x: Reservation, userId: nat, status: Status)
    ensures FindByUserIdAndStatus(rs + [x], userId, status)
            == FindByUserIdAndStatus(rs, userId, status)
               + (if x.userId == userId && x.status == status then [x] else [])
  {
    if |rs| > 0 {
      assert (rs + [x])[1..] == rs[1..] + [x];
      ListingFollowsInsertion(rs[1..], x, userId, status);
    }
  }

  /** Position of the first reservation with that id and owner. */
  function FindIndex(rs: seq<Reservation>, reservationId: nat, userId: nat): (r: Option<nat>)
    ensures r.Some? ==> r.value < |rs| && Owned(rs[r.value], reservationId, userId)
    ensures r.Some? ==> forall j :: 0 <= j < r.value ==> !Owned(rs[j], reservationId, userId)
    ensures r.None? <==> forall j :: 0 <= j < |rs| ==> !Owned(rs[j], reservationId, userId)
  {
    if |rs| == 0 then None
    else if Owned(rs[0], reservationId, userId) then Some(0)
    else
      match FindIndex(rs[1..], reservationId, userId)
      case None => None
      case Some(j) => Some(j + 1)
  }

  /** `findByIdAndUserId`: the lookup that doubles as the ownership check. */
  function FindByIdAndUserId(rs: seq<Reservation>, reservationId: nat, userId: nat): (r: Option<Reservation>)
    ensures r.Some? ==> r.value in rs && r.value.id == reservationId && r.value.userId == userId
    ensures r.None? <==> forall x :: x in rs ==> !Owned(x, reservationId, userId)
  {
    match FindIndex(rs, reservationId, userId)
    case None => None
    case Some(i) => Some(rs[i])
  }

  /** The intersection test does not depend on which window is which. */
  lemma IntersectsSymmetric(aStart: int, aEnd: int, bStart: int, bEnd: int)
    ensures Intersects(aStart, aEnd, bStart, bEnd) <==> Intersects(bStart, bEnd, aStart, aEnd)
  {
  }

  /** Back-to-back windows never intersect. */
  lemma TouchingWindowsDoNotIntersect(a: int, b: int, c: int)
    ensures !Intersects(a, b, b, c) && !Intersects(b, c, a, b)
  {
  }

  /** Every excepting-self hit is a hit of the plain query. */
  lemma ExceptSelfImpliesPlain(rs: seq<Reservation>, roomId: nat, status: Status,
                               startAt: int, endAt: int, reservationId: nat)
    ensures ExistsOverlappingExceptSelf(rs, roomId, status, startAt, endAt, reservationId)
            ==> ExistsOverlapping(rs, roomId, status, startAt, endAt)
  {
  }

  /** Excluding an id no reservation has changes nothing. */
  lemma ExceptAbsentIdIsPlain(rs: seq<Reservation>, roomId: nat, status: Status,
                              startAt: int, endAt: int, reservationId: nat)
    requires forall x :: x in rs ==> x.id != reservationId
    ensures ExistsOverlappingExceptSelf(rs, roomId, status, startAt, endAt, reservationId)
            == ExistsOverlapping(rs, roomId, status, startAt, endAt)
  {
    if ExistsOverlapping(rs, roomId, status, startAt, endAt) {
      var i :| 0 <= i < |rs| && Conflicts(rs[i], roomId, status, startAt, endAt);
      assert rs[i] in rs;
    }
  }

  /** Reservations in another status never make either query true, whatever room is queried. */
  lemma OtherStatusIsInvisible(rs: seq<Reservation>, x: Reservation, roomId: nat, status: Status,
                               startAt: int, endAt: int, reservationId: nat)
    requires x.status != status
    ensures ExistsOverlapping(rs + [x], roomId, status, startAt, endAt)
            == ExistsOverlapping(rs, roomId, status, startAt, endAt)
    ensures ExistsOverlappingExceptSelf(rs + [x], roomId, status, startAt, endAt, reservationId)
            == ExistsOverlappingExceptSelf(rs, roomId, status, startAt, endAt, reservationId)
  {
    var rs' := rs + [x];
    if ExistsOverlapping(rs', roomId, status, startAt, endAt) {
      var i :| 0 <= i < |rs'| && Conflicts(rs'[i], roomId, status, startAt, endAt);
      assert i < |rs| && rs'[i] == rs[i];
    }
    if ExistsOverlappingExceptSelf(rs', roomId, status, startAt, endAt, reservationId) {
      var i :| 0 <= i < |rs'| && rs'[i].id != reservationId && Conflicts(rs'[i], roomId, status, startAt, endAt);
      assert i < |rs| && rs'[i] == rs[i];
    }
    if ExistsOverlapping(rs, roomId, status, startAt, endAt) {
      var i :| 0 <= i < |rs| && Conflicts(rs[i], roomId, status, startAt, endAt);
      assert rs'[i] == rs[i];
    }
    if ExistsOverlappingExceptSelf(rs, roomId, status, startAt, endAt, reservationId) {
      var i :| 0 <= i < |rs| && rs[i].id != reservationId && Conflicts(rs[i], roomId, status, startAt, endAt);
      assert rs'[i] == rs[i];
    }
  }
}
