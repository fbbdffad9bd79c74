/** The user store: user id -> stored value, with search, login check and
    add / update-password / delete.

    Several operations compare a whole stored value with a string. In Python a
    dict never equals a str, so for the records `add_user` stores those
    comparisons are always false. A loaded file may also hold a bare string
    under an id; only then can such a comparison succeed. Both kinds of value
    are kept here so that the model shows what the comparisons really do. */
module UserDB {
  import opened Records
  import opened Outcomes

  /** A value stored under a user id: a record, as `add_user` writes it, or a
      bare string, as only a hand-edited file can hold. */
  datatype Entry = Record(user: User) | Text(text: string)

  type Users = map<string, Entry>

  /** Python truthiness of a stored value: a record dict always has its three
      keys, so it is true; a string is true when non-empty. */
  predicate Truthy(e: Entry)
  {
    match e
    case Record(_) => true
    case Text(t) => t != ""
  }

  /** Python's `value == s` for a stored value and a string. */
  predicate EqualsString(e: Entry, s: string)
  {
    match e
    case Record(_) => false
    case Text(t) => t == s
  }

  /** Every stored value is a record, as in any store built by `add_user`. */
  predicate AllRecords(m: Users)
  {
    forall k :: k in m ==> m[k].Record?
  }

  /** Every record is filed under its own user id. */
  predicate KeyedById(m: Users)
  {
    forall k :: k in m && m[k].Record? ==> m[k].user.userId == k
  }

  /** `_search_by_id`: the stored value when the id is present and the value
      is truthy, else None. */
  function SearchById(m: Users, userId: string): (r: Option<Entry>)
    ensures r.Some? <==> userId in m && Truthy(m[userId])
    ensures r.Some? ==> r.value == m[userId]
    ensures userId in m && m[userId].Record? ==> r == Some(m[userId])
  {
    if userId in m && Truthy(m[userId]) then Some(m[userId]) else None
  }

  /** `_search_by_name`: compares each whole stored value with `name` and maps
      every matching id to `name` itself. Records never match. */
  function SearchByName(m: Users, name: string): (r: map<string, string>)
    ensures r.Keys <= m.Keys
    ensures forall k :: k in r ==> r[k] == name
    ensures forall k :: k in m ==> (k in r <==> m[k] == Text(name))
    ensures AllRecords(m) ==> r == map[]
  {
    map k | k in m && EqualsString(m[k], name) :: name
  }

  /** `verify_user`: true only when the id finds a truthy value that equals
      the password as a string. No record ever passes, whatever its password. */
  function VerifyUser(m: Users, u: User): (ok: bool)
    ensures ok <==> u.userId in m && u.password != "" && m[u.userId] == Text(u.password)
    ensures AllRecords(m) ==> !ok
  {
    SearchById(m, u.userId).Some? && EqualsString(m[u.userId], u.password)
  }

  /** `add_user`: stores `u` as a record under its id unless the id is taken. */
  function AddUser(m: Users, u: User): (r: Reply<Users>)
    ensures r.ok <==> u.userId !in m
    ensures r.ok ==> r.state.Keys == m.Keys + {u.userId} && r.state[u.userId] == Record(u)
    ensures forall k :: k in m ==> k in r.state && r.state[k] == m[k]
    ensures !r.ok ==> r.state == m
    ensures AllRecords(m) ==> AllRecords(r.state)
    ensures KeyedById(m) ==> KeyedById(r.state)
  {
    if u.userId !in m then Reply(true, m[u.userId := Record(u)]) else Reply(false, m)
  }

  /** `update_password`. The "same password" guard compares the whole stored
      value with the new password, so it never rejects a record: a record gets
      the new password even when it is the one already stored. Writing the
      password field of a stored string raises a TypeError. */
  function UpdatePassword(m: Users, u: User): (r: Call<Users>)
    ensures u.userId !in m ==> r == Returned(Reply(false, m))
    ensures r.Raised? <==> u.userId in m && m[u.userId].Text? && m[u.userId].text != u.password
    ensures r.Returned? && !r.reply.ok ==> r.reply.state == m
    ensures r.Returned? && r.reply.ok <==> u.userId in m && m[u.userId].Record?
    ensures r.Returned? && r.reply.ok ==>
              && r.reply.state.Keys == m.Keys
              && r.reply.state[u.userId] == Record(m[u.userId].user.(password := u.password))
              && forall k :: k in m && k != u.userId ==> r.reply.state[k] == m[k]
    ensures r.Returned? ==> (AllRecords(m) ==> AllRecords(r.reply.state))
    ensures r.Returned? ==> (KeyedById(m) ==> KeyedById(r.reply.state))
  {
    if u.userId !in m then Returned(Reply(false, m))
    else if EqualsString(m[u.userId], u.password) then Returned(Reply(false, m))
    else match m[u.userId]
      case Record(stored) => Returned(Reply(true, m[u.userId := Record(stored.(password := u.password))]))
      case Text(_) => Raised
  }

  /** `delete_user`: removes the value under the argument's id. */
  function DeleteUser(m: Users, u: User): (r: Reply<Users>)
    ensures r.ok <==> u.userId in m
    ensures r.state.Keys == m.Keys - {u.userId}
    ensures forall k :: k in r.state ==> r.state[k] == m[k]
    ensures AllRecords(m) ==> AllRecords(r.state)
    ensures KeyedById(m) ==> KeyedById(r.state)
  {
    if u.userId !in m then Reply(false, m) else Reply(true, m - {u.userId})
  }

  /** A user just added is found by id: `add_user` never stores a falsy value. */
  lemma AddedUserIsFound(m: Users, u: User)
    requires AddUser(m, u).ok
    ensures SearchById(AddUser(m, u).state, u.userId) == Some(Record(u))
  {
  }

  /** As written, a user just added can never log in, even with the password
      they registered. */
  lemma AddedUserCannotLogIn(m: Users, u: User, password: string)
    requires AddUser(m, u).ok
    ensures !VerifyUser(AddUser(m, u).state, u.(password := password))
  {
  }

  /** As written, a user just added is never found by name. */
  lemma AddedUserNotFoundByName(m: Users, u: User)
    requires AddUser(m, u).ok
    ensures u.userId !in SearchByName(AddUser(m, u).state, u.name)
  {
  }

  /** As written, setting a record's password to the one it already has is
      accepted and leaves the store as it was. */
  lemma SamePasswordAccepted(m: Users, u: User)
    requires u.userId in m && m[u.userId].Record? && m[u.userId].user.password == u.password
    ensures UpdatePassword(m, u) == Returned(Reply(true, m))
  {
    assert m[u.userId := Record(m[u.userId].user.(password := u.password))] == m;
  }
}
