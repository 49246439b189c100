/**
  Properties that relate several calls of the reservation service, chiefly
  the booking invariant the exclusive room lock exists for: no two distinct
  RESERVED reservations of the same room intersect.
*/
module BookingInvariants {
  import opened Results
  import opened Errors
  import Reservations
  import opened ReservationRepository
  import opened Stores
  import opened ReservationService
  import Policies

  /** The invariants every store reachable through the service keeps. */
  predicate Consistent(s: Store) {
    IdsArePositions(s.reservations) && NoOverlap(s.reservations)
  }

  /** A successful booking keeps the store consistent. */
  lemma ReservePreservesConsistency(s: Store, policies: seq<Policies.Policy>, now: int,
                                    roomId: nat, startAt: int, endAt: int, userId: nat)
    requires Consistent(s)
    requires Reserve(s, policies, now, roomId, startAt, endAt, userId).Ok?
    ensures Consistent(Reserve(s, policies, now, roomId, startAt, endAt, userId).value.0)
  {
    var rs := s.reservations;
    var rs' := Reserve(s, policies, now, roomId, startAt, endAt, userId).value.0.reservations;
    var n := |rs|;
    assert !Occupied(rs, roomId, startAt, endAt);
    forall i, j | 0 <= i < |rs'| && 0 <= j < |rs'| && i != j
                  && rs'[i].status == Reservations.Reserved && rs'[j].status == Reservations.Reserved
                  && rs'[i].roomId == rs'[j].roomId
      ensures !Intersects(rs'[i].startAt, rs'[i].endAt, rs'[j].startAt, rs'[j].endAt)
    {
      if i == n {
        assert !Conflicts(rs[j], roomId, Reservations.Reserved, startAt, endAt);
      } else if j == n {
        assert !Conflicts(rs[i], roomId, Reservations.Reserved, startAt, endAt);
      } else {
        assert rs'[i] == rs[i] && rs'[j] == rs[j];
      }
    }
  }

  /** A successful move keeps the store consistent. */
  lemma UpdatePreservesConsistency(s: Store, reservationId: nat, roomId: nat, startAt: int, endAt: int,
                                   userId: nat, password: string)
    requires Consistent(s)
    requires Update(s, reservationId, roomId, startAt, endAt, userId, password).Ok?
    ensures Consistent(Update(s, reservationId, roomId, startAt, endAt, userId, password).value.0)
  {
    var rs := s.reservations;
    var rs' := Update(s, reservationId, roomId, startAt, endAt, userId, password).value.0.reservations;
    var k :| 0 <= k < |rs| && Owned(rs[k], reservationId, userId)
             && rs' == rs[k := rs[k].(roomId := roomId, startAt := startAt, endAt := endAt)];
    assert !OccupiedByOther(rs, roomId, startAt, endAt, reservationId);
    forall i, j | 0 <= i < |rs'| && 0 <= j < |rs'| && i != j
                  && rs'[i].status == Reservations.Reserved && rs'[j].status == Reservations.Reserved
                  && rs'[i].roomId == rs'[j].roomId
      ensures !Intersects(rs'[i].startAt, rs'[i].endAt, rs'[j].startAt, rs'[j].endAt)
    {
      if i == k {
        assert rs[j].id != reservationId;
        assert !Conflicts(rs[j], roomId, Reservations.Reserved, startAt, endAt);
      } else if j == k {
        assert rs[i].id != reservationId;
        assert !Conflicts(rs[i], roomId, Reservations.Reserved, startAt, endAt);
      }
    }
  }

  /** A successful cancellation keeps the store consistent. */
  lemma CancelPreservesConsistency(s: Store, reservationId: nat, userId: nat, password: string)
    requires Consistent(s)
    requires Cancel(s, reservationId, userId, password).Ok?
    ensures Consistent(Cancel(s, reservationId, userId, password).value)
  {
    var rs := s.reservations;
    var rs' := Cancel(s, reservationId, userId, password).value.reservations;
    var k :| 0 <= k < |rs| && Owned(rs[k], reservationId, userId)
             && rs' == rs[k := rs[k].(status := Reservations.Canceled)];
    assert forall i :: 0 <= i < |rs'| && rs'[i].status == Reservations.Reserved ==> i != k && rs'[i] == rs[i];
  }

  /**
    Back-to-back bookings: if [a, b) and [b, c) could each be booked in the
    same room, booking the first does not stop the second.
  */
  lemma BackToBackBothSucceed(s: Store, policies: seq<Policies.Policy>, now: int, roomId: nat,
                              userA: nat, userB: nat, a: int, b: int, c: int)
    requires Reserve(s, policies, now, roomId, a, b, userA).Ok?
    requires Reserve(s, policies, now, roomId, b, c, userB).Ok?
    ensures Reserve(Reserve(s, policies, now, roomId, a, b, userA).value.0, policies, now, roomId, b, c, userB).Ok?
  {
    var s1 := Reserve(s, policies, now, roomId, a, b, userA).value.0;
    var rs := s.reservations;
    assert !Occupied(rs, roomId, b, c);
  }

  /**
    Self-exclusion on update: in a consistent store, moving a RESERVED
    reservation to a window inside its own window, in the same room, never
    conflicts, so with the right owner and password and an available room
    the move succeeds.
  */
  lemma ShrinkWithinOwnWindowSucceeds(s: Store, i: nat, startAt: int, endAt: int, password: string)
    requires Consistent(s)
    requires i < |s.reservations|
    requires s.reservations[i].status == Reservations.Reserved
    requires s.reservations[i].startAt <= startAt && endAt <= s.reservations[i].endAt
    requires s.reservations[i].userId in s.users && password == s.users[s.reservations[i].userId].password
    requires s.reservations[i].roomId in s.rooms && s.rooms[s.reservations[i].roomId].available
    ensures !OccupiedByOther(s.reservations, s.reservations[i].roomId, startAt, endAt, s.reservations[i].id)
    ensures Update(s, s.reservations[i].id, s.reservations[i].roomId, startAt, endAt,
                   s.reservations[i].userId, password).Ok?
  {
    var rs := s.reservations;
    var x := rs[i];
    if OccupiedByOther(rs, x.roomId, startAt, endAt, x.id) {
      var j :| 0 <= j < |rs| && rs[j].id != x.id && Conflicts(rs[j], x.roomId, Reservations.Reserved, startAt, endAt);
      assert j != i;
      assert Intersects(rs[j].startAt, rs[j].endAt, x.startAt, x.endAt);
      assert false;
    }
    assert Owned(rs[i], x.id, x.userId);
  }

  /**
    Cancellation frees the window: in a consistent store, once a RESERVED
    reservation is cancelled, no RESERVED reservation of its room intersects
    its window, so booking that window again is not refused as a conflict.
  */
  lemma CancelFreesWindow(s: Store, reservationId: nat, userId: nat, password: string,
                          policies: seq<Policies.Policy>, now: int, otherUser: nat)
    requires Consistent(s)
    requires 0 < reservationId <= |s.reservations|
    requires s.reservations[reservationId - 1].status == Reservations.Reserved
    requires Cancel(s, reservationId, userId, password).Ok?
    ensures var x := s.reservations[reservationId - 1];
            var s' := Cancel(s, reservationId, userId, password).value;
            && |s'.reservations| == |s.reservations|
            && s'.reservations[reservationId - 1].status == Reservations.Canceled
            && !Occupied(s'.reservations, x.roomId, x.startAt, x.endAt)
            && Reserve(s', policies, now, x.roomId, x.startAt, x.endAt, otherUser) != Err(ScheduleConflict)
  {
    var rs := s.reservations;
    var x := rs[reservationId - 1];
    var s' := Cancel(s, reservationId, userId, password).value;
    var k :| 0 <= k < |rs| && Owned(rs[k], reservationId, userId)
             && s'.reservations == rs[k := rs[k].(status := Reservations.Canceled)];
    assert k == reservationId - 1;
  }

  /**
    A cancelled reservation no longer appears among its owner's RESERVED
    reservations, which is what the listing shows.
  */
  lemma CanceledNotListed(s: Store, reservationId: nat, userId: nat, password: string)
    requires IdsArePositions(s.reservations)
    requires Cancel(s, reservationId, userId, password).Ok?
    ensures forall x :: x in FindByUserIdAndStatus(Cancel(s, reservationId, userId, password).value.reservations,
                                                   userId, Reservations.Reserved)
                        ==> x.id != reservationId
  {
    var rs := s.reservations;
    var rs' := Cancel(s, reservationId, userId, password).value.reservations;
    var k :| 0 <= k < |rs| && Owned(rs[k], reservationId, userId)
             && rs' == rs[k := rs[k].(status := Reservations.Canceled)];
    forall x | x in FindByUserIdAndStatus(rs', userId, Reservations.Reserved)
      ensures x.id != reservationId
    {
      var j :| 0 <= j < |rs'| && rs'[j] == x;
      if j != k {
        assert x.id == j + 1 && reservationId == k + 1;
      }
    }
  }
}
