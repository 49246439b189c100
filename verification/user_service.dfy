/** The user service: joining and leaving. */
module UserService {
  import opened Results
  import opened Errors
  import opened Users
  import opened Stores

  /** Registers a user under the next free id; nothing else in the store changes. */
  function Join(s: Store, name: string, email: string, password: string, phoneNumber: string): (r: Store)
    ensures r.users.Keys == s.users.Keys + {s.nextUserId}
    ensures r.users[s.nextUserId].name == name && r.users[s.nextUserId].email == email
    ensures r.users[s.nextUserId].password == password && r.users[s.nextUserId].phoneNumber == phoneNumber
    ensures forall id :: id in s.users && id != s.nextUserId ==> r.users[id] == s.users[id]
    ensures r.rooms == s.rooms && r.reservations == s.reservations
    ensures r.nextUserId > s.nextUserId
  {
    var user := User(name, email, password, phoneNumber);
    s.(users := s.users[s.nextUserId := user], nextUserId := s.nextUserId + 1)
  }

  /** With ids issued from the counter, joining adds exactly one user and keeps every other. */
  lemma JoinAddsExactlyOne(s: Store, name: string, email: string, password: string, phoneNumber: string)
    requires UserIdsIssued(s)
    ensures var r := Join(s, name, email, password, phoneNumber);
            && |r.users| == |s.users| + 1
            && (forall id :: id in s.users ==> id in r.users && r.users[id] == s.users[id])
            && UserIdsIssued(r)
  {
    var r := Join(s, name, email, password, phoneNumber);
    assert s.nextUserId !in s.users;
    assert r.users.Keys == s.users.Keys + {s.nextUserId};
  }

  /**
    Deletes an account. The checks run in this order: the user exists, the
    email matches, the password matches. Only then is the user removed.
  */
  function Leave(s: Store, userId: nat, email: string, password: string): (r: Result<Store, Error>)
    ensures userId !in s.users ==> r == Err(NotFoundUser)
    ensures userId in s.users && email != s.users[userId].email ==> r == Err(InvalidEmail)
    ensures userId in s.users && email == s.users[userId].email && password != s.users[userId].password
            ==> r == Err(InvalidPassword)
    ensures r.Ok? <==> userId in s.users && email == s.users[userId].email
                       && password == s.users[userId].password
    ensures r.Ok? ==> r.value.users.Keys == s.users.Keys - {userId}
                      && (forall id :: id in r.value.users ==> r.value.users[id] == s.users[id])
                      && r.value.rooms == s.rooms && r.value.reservations == s.reservations
                      && r.value.nextUserId == s.nextUserId
  {
    match GetUserById(s, userId)
    case Err(e) => Err(e)
    case Ok(user) =>
      match ValidateEmail(user, email)
      case Fail(e) => Err(e)
      case Pass =>
        match ValidatePassword(user, password)
        case Fail(e) => Err(e)
        case Pass => Ok(s.(users := s.users - {userId}))
  }

  /** Leaving removes one user from a store that had it. */
  lemma LeaveRemovesExactlyOne(s: Store, userId: nat, email: string, password: string)
    requires Leave(s, userId, email, password).Ok?
    ensures |Leave(s, userId, email, password).value.users| == |s.users| - 1
  {
    var r := Leave(s, userId, email, password).value;
    assert s.users.Keys == r.users.Keys + {userId};
  }
}
