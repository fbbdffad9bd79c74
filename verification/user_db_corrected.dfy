/** The user operations as the program's own messages describe them ("Previous
    and new password cannot be the same" for the password change, "Either
    password or login id is incorrect" for the login check): the
    comparisons look at the record's password and name fields instead of
    comparing the whole stored value with a string. The library façade keeps
    the operations of `UserDB`, which are what the program does; these stand
    beside them so that the intended rules are stated and proved. */
module UserDBCorrected {
  import opened Records
  import opened Outcomes
  import opened UserDB

  /** Login check on the record's password field. */
  function VerifyUserIntended(m: Users, u: User): (ok: bool)
    ensures ok <==> u.userId in m && m[u.userId].Record? && m[u.userId].user.password == u.password
  {
    match SearchById(m, u.userId)
    case Some(Record(stored)) => stored.password == u.password
    case _ => false
  }

  /** Password change that refuses an unknown id, a non-record value and a
      password equal to the stored one; otherwise sets only that field. */
  function UpdatePasswordIntended(m: Users, u: User): (r: Reply<Users>)
    ensures r.ok <==> u.userId in m && m[u.userId].Record? && m[u.userId].user.password != u.password
    ensures !r.ok ==> r.state == m
    ensures r.ok ==>
              && r.state.Keys == m.Keys
              && r.state[u.userId] == Record(m[u.userId].user.(password := u.password))
              && forall k :: k in m && k != u.userId ==> r.state[k] == m[k]
    ensures AllRecords(m) ==> AllRecords(r.state)
  {
    if u.userId !in m then Reply(false, m)
    else match m[u.userId]
      case Text(_) => Reply(false, m)
      case Record(stored) =>
        if stored.password == u.password then Reply(false, m)
        else Reply(true, m[u.userId := Record(stored.(password := u.password))])
  }

  /** Name search on the record's name field, keyed by user id. */
  function SearchByNameIntended(m: Users, name: string): (r: map<string, User>)
    ensures r.Keys <= m.Keys
    ensures forall k :: k in r ==> m[k] == Record(r[k]) && r[k].name == name
    ensures forall k :: k in m && m[k].Record? && m[k].user.name == name ==> k in r
  {
    map k | k in m && m[k].Record? && m[k].user.name == name :: m[k].user
  }

  /** A user just added logs in with their password, and with no other. */
  lemma AddedUserCanLogIn(m: Users, u: User, password: string)
    requires AddUser(m, u).ok
    ensures VerifyUserIntended(AddUser(m, u).state, u.(password := password)) <==> password == u.password
  {
  }

  /** A user just added is found under their name. */
  lemma AddedUserFoundByName(m: Users, u: User)
    requires AddUser(m, u).ok
    ensures SearchByNameIntended(AddUser(m, u).state, u.name)[u.userId] == u
  {
  }

  /** The password scenario: a change to the same password is refused; after
      a change to a different one, only the new password logs in. */
  lemma PasswordChangeScenario(m: Users, u: User, newPassword: string)
    requires u.userId in m && m[u.userId] == Record(u)
    requires newPassword != u.password
    ensures !UpdatePasswordIntended(m, u).ok
    ensures UpdatePasswordIntended(m, u.(password := newPassword)).ok
    ensures VerifyUserIntended(UpdatePasswordIntended(m, u.(password := newPassword)).state,
                               u.(password := newPassword))
    ensures !VerifyUserIntended(UpdatePasswordIntended(m, u.(password := newPassword)).state, u)
  {
  }

  /** On records, the program's password change and the intended one differ
      exactly when the new password equals the stored one. */
  lemma UpdatePasswordDiffersOnlyOnSamePassword(m: Users, u: User)
    requires u.userId in m && m[u.userId].Record?
    ensures UpdatePassword(m, u) == Returned(UpdatePasswordIntended(m, u))
            <==> m[u.userId].user.password != u.password
  {
    if m[u.userId].user.password == u.password {
      SamePasswordAccepted(m, u);
    }
  }
}
