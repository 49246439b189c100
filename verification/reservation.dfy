/**
  The Reservation entity and its status machine. The owning user and the
  booked room are referred to by id.
*/
module Reservations {
  import opened Results
  import opened Errors

  datatype Status = WaitPayment | Confirmed | Reserved | Canceled | Expired

  datatype Reservation = Reservation(
    id: nat,
    userId: nat,
    roomId: nat,
    startAt: int,
    endAt: int,
    status: Status)

  /**
    The entity constructor: the window and references as given, status
    WAIT_PAYMENT. Nothing in the entity ever produces RESERVED; the booking
    service sets that status itself (see ReservationService.Reserve).
  */
  function Create(id: nat, userId: nat, roomId: nat, startAt: int, endAt: int): (r: Reservation)
    ensures r.status == WaitPayment
    ensures r.id == id && r.userId == userId && r.roomId == roomId
    ensures r.startAt == startAt && r.endAt == endAt
  {
    Reservation(id, userId, roomId, startAt, endAt, WaitPayment)
  }

  /** Moves the reservation: new room and window; id, owner and status kept. */
  function Update(x: Reservation, roomId: nat, startAt: int, endAt: int): (r: Reservation)
    ensures r.roomId == roomId && r.startAt == startAt && r.endAt == endAt
    ensures r.id == x.id && r.userId == x.userId && r.status == x.status
  {
    x.(roomId := roomId, startAt := startAt, endAt := endAt)
  }

  function UpdateStudyRoom(x: Reservation, roomId: nat): (r: Reservation)
    ensures r.roomId == roomId
    ensures r.id == x.id && r.userId == x.userId && r.status == x.status
    ensures r.startAt == x.startAt && r.endAt == x.endAt
  {
    x.(roomId := roomId)
  }

  function UpdateStartAt(x: Reservation, startAt: int): (r: Reservation)
    ensures r.startAt == startAt
    ensures r.id == x.id && r.userId == x.userId && r.status == x.status
    ensures r.roomId == x.roomId && r.endAt == x.endAt
  {
    x.(startAt := startAt)
  }

  function UpdateEndAt(x: Reservation, endAt: int): (r: Reservation)
    ensures r.endAt == endAt
    ensures r.id == x.id && r.userId == x.userId && r.status == x.status
    ensures r.roomId == x.roomId && r.startAt == x.startAt
  {
    x.(endAt := endAt)
  }

  /** The three single-field updaters together amount to `Update`. */
  lemma SingleFieldUpdatesCompose(x: Reservation, roomId: nat, startAt: int, endAt: int)
    ensures UpdateEndAt(UpdateStartAt(UpdateStudyRoom(x, roomId), startAt), endAt)
            == Update(x, roomId, startAt, endAt)
  {
  }

  /** Payment confirmation: only a reservation waiting for payment can be confirmed. */
  function Confirm(x: Reservation): (r: Result<Reservation, Error>)
    ensures r.Ok? <==> x.status == WaitPayment
    ensures r.Err? ==> r.error == InvalidStatus
    ensures r.Ok? ==> r.value == x.(status := Confirmed)
  {
    if x.status != WaitPayment then Err(InvalidStatus) else Ok(x.(status := Confirmed))
  }

  /** Payment timeout: a reservation waiting for payment expires; any other is left alone. */
  function Expire(x: Reservation): (r: Reservation)
    ensures x.status == WaitPayment ==> r == x.(status := Expired)
    ensures x.status != WaitPayment ==> r == x
  {
    if x.status == WaitPayment then x.(status := Expired) else x
  }

  /** Cancellation: refused on an expired reservation, otherwise the status becomes CANCELED. */
  function Cancel(x: Reservation): (r: Result<Reservation, Error>)
    ensures r.Ok? <==> x.status != Expired
    ensures r.Err? ==> r.error == AlreadyExpired
    ensures r.Ok? ==> r.value == x.(status := Canceled)
  {
    if x.status == Expired then Err(AlreadyExpired) else Ok(x.(status := Canceled))
  }

  lemma ExpireIdempotent(x: Reservation)
    ensures Expire(Expire(x)) == Expire(x)
  {
  }

  lemma CancelIdempotent(x: Reservation)
    requires Cancel(x).Ok?
    ensures Cancel(Cancel(x).value) == Cancel(x)
  {
  }

  /** The entity operations, as steps of a reservation's life. */
  datatype Transition =
    | ConfirmStep
    | ExpireStep
    | CancelStep
    | MoveStep(roomId: nat, startAt: int, endAt: int)

  function Apply(x: Reservation, t: Transition): Result<Reservation, Error> {
    match t
    case ConfirmStep => Confirm(x)
    case ExpireStep => Ok(Expire(x))
    case CancelStep => Cancel(x)
    case MoveStep(room, s, e) => Ok(Update(x, room, s, e))
  }

  /** Runs the steps in order; the first refused step aborts the run. */
  function ApplyAll(x: Reservation, ts: seq<Transition>): Result<Reservation, Error>
    decreases |ts|
  {
    if |ts| == 0 then Ok(x)
    else
      match Apply(x, ts[0])
      case Err(e) => Err(e)
      case Ok(y) => ApplyAll(y, ts[1..])
  }

  /** One step enters CONFIRMED or EXPIRED only from WAIT_PAYMENT, and never enters RESERVED. */
  lemma StepTargets(x: Reservation, t: Transition)
    requires Apply(x, t).Ok?
    ensures var y := Apply(x, t).value;
            && (y.status == Reserved ==> x.status == Reserved)
            && (y.status != x.status && (y.status == Confirmed || y.status == Expired) ==> x.status == WaitPayment)
            && y.id == x.id && y.userId == x.userId
  {
  }

  /** No sequence of entity operations on a reservation that is not RESERVED makes it RESERVED. */
  lemma {:induction false} NeverBecomesReserved(x: Reservation, ts: seq<Transition>)
    requires x.status != Reserved
    ensures ApplyAll(x, ts).Ok? ==> ApplyAll(x, ts).value.status != Reserved
    decreases |ts|
  {
    if |ts| > 0 {
      match Apply(x, ts[0])
      case Err(_) =>
      case Ok(y) =>
        StepTargets(x, ts[0]);
        NeverBecomesReserved(y, ts[1..]);
    }
  }

  /** In particular, a freshly constructed reservation never becomes RESERVED. */
  lemma ConstructedNeverReserved(id: nat, userId: nat, roomId: nat, startAt: int, endAt: int, ts: seq<Transition>)
    ensures var r := ApplyAll(Create(id, userId, roomId, startAt, endAt), ts);
            r.Ok? ==> r.value.status != Reserved
  {
    NeverBecomesReserved(Create(id, userId, roomId, startAt, endAt), ts);
  }
}
