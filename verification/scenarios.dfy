/**
  Worked booking scenarios over a concrete store, following the service's
  own test cases. The clock stands at minute 0 and every window is given in
  minutes after it.
*/
module Scenarios {
  import opened Results
  import opened Errors
  import opened Users
  import opened StudyRooms
  import opened Stores
  import opened ReservationService
  import Reservations
  import Policies

  /**
    Two users (ids 1 and 2, both with password "1234") and one available
    room (id 1). The tests build the room without hours; the model's room
    needs some, and no booking check reads them.
  */
  function InitialStore(): Store {
    Store(map[1 := User("user1", "u1.test.com", "1234", "01011112222"),
              2 := User("user2", "u2.test.com", "1234", "01022223333")],
          map[1 := StudyRoom("A", true, "test room", 540, 1080)],
          [],
          3)
  }

  /** Back-to-back windows, one to two hours and two to three hours ahead, are both booked. */
  lemma BoundaryBookingScenario()
    ensures var s0 := InitialStore();
            var r1 := Reserve(s0, Policies.DefaultChain, 0, 1, 60, 120, 1);
            && r1.Ok?
            && var r2 := Reserve(r1.value.0, Policies.DefaultChain, 0, 1, 120, 180, 1);
               && r2.Ok?
               && |r2.value.0.reservations| == 2
  {
    var s0 := InitialStore();
    assert ReserveAdmissible(s0, Policies.DefaultChain, 0, 1, 60, 120, 1);
    var s1 := Reserve(s0, Policies.DefaultChain, 0, 1, 60, 120, 1).value.0;
    assert s1.reservations[0].startAt == 60 && s1.reservations[0].endAt == 120;
    assert ReserveAdmissible(s1, Policies.DefaultChain, 0, 1, 120, 180, 1);
  }

  /**
    With two to three hours ahead booked, one to three hours ahead is
    refused as a conflict and the store keeps its single booking.
  */
  lemma OverlapBookingScenario()
    ensures var s0 := InitialStore();
            var r1 := Reserve(s0, Policies.DefaultChain, 0, 1, 120, 180, 1);
            && r1.Ok?
            && |r1.value.0.reservations| == 1
            && Reserve(r1.value.0, Policies.DefaultChain, 0, 1, 60, 180, 1) == Err(ScheduleConflict)
  {
    var s0 := InitialStore();
    assert ReserveAdmissible(s0, Policies.DefaultChain, 0, 1, 120, 180, 1);
    var s1 := Reserve(s0, Policies.DefaultChain, 0, 1, 120, 180, 1).value.0;
    assert s1.reservations[0].startAt == 120 && s1.reservations[0].endAt == 180;
    assert Occupied(s1.reservations, 1, 60, 180);
    assert ReserveAdmissible(s1, Policies.DefaultChain, 0, 1, 60, 180, 1);
  }

  /**
    User 1 books one to two hours ahead and cancels; the booking stays in
    the store as CANCELED, and user 2 then books the same window, which is
    the only RESERVED booking.
  */
  lemma CancelThenRebookScenario()
    ensures var s0 := InitialStore();
            var s1 := Reserve(s0, Policies.DefaultChain, 0, 1, 60, 120, 1).value.0;
            var c := Cancel(s1, 1, 1, "1234");
            && c.Ok?
            && |c.value.reservations| == 1
            && c.value.reservations[0].status == Reservations.Canceled
            && var r2 := Reserve(c.value, Policies.DefaultChain, 0, 1, 60, 120, 2);
               && r2.Ok?
               && |r2.value.0.reservations| == 2
               && r2.value.0.reservations[1] == Reservations.Reservation(2, 2, 1, 60, 120, Reservations.Reserved)
  {
    var s0 := InitialStore();
    assert ReserveAdmissible(s0, Policies.DefaultChain, 0, 1, 60, 120, 1);
    var s1 := Reserve(s0, Policies.DefaultChain, 0, 1, 60, 120, 1).value.0;
    assert s1.reservations[0].id == 1 && s1.reservations[0].userId == 1;
    var c := Cancel(s1, 1, 1, "1234").value;
    assert ReserveAdmissible(c, Policies.DefaultChain, 0, 1, 60, 120, 2);
  }

  /**
    User 1 books one to five hours ahead. The owner's cancel succeeds; user 2
    asking to move or cancel the booking is told it does not exist.
  */
  lemma NonOwnerScenario(password: string)
    ensures var s0 := InitialStore();
            var s1 := Reserve(s0, Policies.DefaultChain, 0, 1, 60, 300, 1).value.0;
            && Update(s1, 1, 1, 60, 300, 2, password) == Err(NotFoundReservation)
            && (password == "1234" ==> Cancel(s1, 1, 2, password) == Err(NotFoundReservation))
            && Cancel(s1, 1, 1, "1234").Ok?
            && Cancel(s1, 1, 1, "1234").value.reservations[0].status == Reservations.Canceled
  {
    var s0 := InitialStore();
    assert ReserveAdmissible(s0, Policies.DefaultChain, 0, 1, 60, 300, 1);
    var s1 := Reserve(s0, Policies.DefaultChain, 0, 1, 60, 300, 1).value.0;
    assert s1.reservations[0].userId == 1 && s1.reservations[0].id == 1;
    assert !Owns(s1.reservations, 1, 2);
  }
}
