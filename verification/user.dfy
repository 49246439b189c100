/** The User entity and its two credential checks. The user's id is its key in the store. */
module Users {
  import opened Results
  import opened Errors

  datatype User = User(name: string, email: string, password: string, phoneNumber: string)

  /** Succeeds exactly when the given password equals the stored one. */
  function ValidatePassword(user: User, password: string): (r: Outcome<Error>)
    ensures r.Pass? <==> password == user.password
    ensures r.Fail? ==> r.error == InvalidPassword
  {
    if password == user.password then Pass else Fail(InvalidPassword)
  }

  /** Succeeds exactly when the given email equals the stored one. */
  function ValidateEmail(user: User, email: string): (r: Outcome<Error>)
    ensures r.Pass? <==> email == user.email
    ensures r.Fail? ==> r.error == InvalidEmail
  {
    if email == user.email then Pass else Fail(InvalidEmail)
  }
}
