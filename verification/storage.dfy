/** The record manager (`ContextManager`): the three stores as one explicit
    state, the assignment tracker (availability, checkout, checkin) and the
    façade operations that delegate to the book and user stores. */
module Storage {
  import opened Records
  import opened Outcomes
  import Loading
  import BookDB
  import UserDB

  /** The whole in-memory state of a session: books by ISBN, users by id and
      loans, mapping each lent ISBN to the id of the member holding it. */
  datatype State = State(books: BookDB.Books, users: UserDB.Users, loans: map<string, string>)

  /** Every loan names a stored book and a stored user. Checkout establishes
      this for the loan it adds; deleting a book or user can break it. */
  predicate LoansResolve(s: State)
  {
    forall isbn :: isbn in s.loans ==> isbn in s.books && s.loans[isbn] in s.users
  }

  /** Session start: the user store, then the book store, then the loans are
      loaded, each from its own file and each from empty. None when reading
      the assignment file raised an error its loader does not catch. */
  function Open(userFile: Loading.ReadResult<UserDB.Entry>, bookFile: Loading.ReadResult<Book>,
                loanFile: Loading.ReadResult<string>): (s: Option<State>)
    ensures s.None? <==> loanFile.ReadFailed?
    ensures s.Some? ==> s.value.users == Loading.Instantiate(map[], userFile).state
    ensures s.Some? ==> s.value.books == Loading.Instantiate(map[], bookFile).state
    ensures s.Some? && !bookFile.Read? ==> s.value.books == map[]
    ensures s.Some? && !userFile.Read? ==> s.value.users == map[]
    ensures s.Some? ==> Some(s.value.loans) == Loading.LoadPreviousContext(loanFile)
    ensures s.Some? && !loanFile.Read? ==> s.value.loans == map[]
  {
    match Loading.LoadPreviousContext(loanFile)
    case None => None
    case Some(loans) =>
      Some(State(Loading.Instantiate(map[], bookFile).state,
                 Loading.Instantiate(map[], userFile).state,
                 loans))
  }

  /** A session that starts without a usable loan file (missing or
      undecodable) starts with no loans, so every loan trivially resolves. */
  lemma OpenWithoutLoansResolves(userFile: Loading.ReadResult<UserDB.Entry>, bookFile: Loading.ReadResult<Book>,
                                 loanFile: Loading.ReadResult<string>)
    requires loanFile.FileMissing? || (loanFile.Read? && loanFile.decoded.None?)
    ensures Open(userFile, bookFile, loanFile).Some?
    ensures LoansResolve(Open(userFile, bookFile, loanFile).value)
  {
  }

  /** Session start checks nothing across the files: a saved loan for an ISBN
      that is not in the loaded book store (a book deleted while lent in an
      earlier session) is loaded as it is. The book then counts as lent and
      unavailable, and its holder can still check it in. */
  lemma DanglingLoanIsLoaded(userFile: Loading.ReadResult<UserDB.Entry>, bookFile: Loading.ReadResult<Book>,
                             text: string, isbn: string, holder: string)
    requires isbn !in Loading.Instantiate(map[], bookFile).state
    ensures Open(userFile, bookFile, Loading.Read(text, Some(map[isbn := holder]))).Some?
    ensures var s := Open(userFile, bookFile, Loading.Read(text, Some(map[isbn := holder]))).value;
            && !LoansResolve(s)
            && !IsBookAvailable(s, isbn)
            && Checkin(s, Assignment(isbn, holder)).ok
  {
    var s := Open(userFile, bookFile, Loading.Read(text, Some(map[isbn := holder]))).value;
    assert isbn in s.loans && isbn !in s.books;
  }

  /** `is_book_available`: the book is stored and not lent. An unknown ISBN
      is reported as not available, like a lent one. */
  function IsBookAvailable(s: State, isbn: string): (available: bool)
    ensures available <==> isbn in s.books && isbn !in s.loans
  {
    !(isbn in s.loans || isbn !in s.books)
  }

  /** `checkout`: lends a stored, available book to a stored user. Nothing
      changes when it fails. */
  function Checkout(s: State, a: Assignment): (r: Reply<State>)
    ensures r.ok <==> a.isbn in s.books && a.userId in s.users && a.isbn !in s.loans
    ensures r.state.books == s.books && r.state.users == s.users
    ensures r.ok ==> r.state.loans.Keys == s.loans.Keys + {a.isbn} && r.state.loans[a.isbn] == a.userId
    ensures forall k :: k in s.loans ==> k in r.state.loans && r.state.loans[k] == s.loans[k]
    ensures !r.ok ==> r.state == s
    ensures |r.state.loans| == |s.loans| + (if r.ok then 1 else 0)
    ensures LoansResolve(s) ==> LoansResolve(r.state)
  {
    if a.isbn in s.books && a.userId in s.users && IsBookAvailable(s, a.isbn) then
      Reply(true, s.(loans := s.loans[a.isbn := a.userId]))
    else
      Reply(false, s)
  }

  /** `checkin`: ends the loan of `a.isbn`, but only for the member holding
      it. Nothing changes when it fails. */
  function Checkin(s: State, a: Assignment): (r: Reply<State>)
    ensures r.ok <==> a.isbn in s.loans && s.loans[a.isbn] == a.userId
    ensures r.state.books == s.books && r.state.users == s.users
    ensures r.ok ==> r.state.loans.Keys == s.loans.Keys - {a.isbn}
    ensures forall k :: k in r.state.loans ==> k in s.loans && r.state.loans[k] == s.loans[k]
    ensures !r.ok ==> r.state == s
    ensures |r.state.loans| == |s.loans| - (if r.ok then 1 else 0)
    ensures LoansResolve(s) ==> LoansResolve(r.state)
  {
    if a.isbn in s.loans && s.loans[a.isbn] == a.userId then
      Reply(true, s.(loans := s.loans - {a.isbn}))
    else
      Reply(false, s)
  }

  /** `add_book_data`: the book store's `add_book`; its flag is dropped. */
  function AddBookData(s: State, b: Book): (s': State)
    ensures s'.books == BookDB.AddBook(s.books, b).state
    ensures s'.users == s.users && s'.loans == s.loans
    ensures LoansResolve(s) ==> LoansResolve(s')
  {
    s.(books := BookDB.AddBook(s.books, b).state)
  }

  /** `update_book_data`: the book store's `update_book`. */
  function UpdateBookData(s: State, b: Book): (s': State)
    ensures s'.books == BookDB.UpdateBook(s.books, b).state
    ensures s'.users == s.users && s'.loans == s.loans
    ensures LoansResolve(s) ==> LoansResolve(s')
  {
    s.(books := BookDB.UpdateBook(s.books, b).state)
  }

  /** `delete_book_data`: the book store's `delete_book`. Loans are not
      consulted: a lent book can be deleted and its loan stays. */
  function DeleteBookData(s: State, b: Book): (s': State)
    ensures s'.books == BookDB.DeleteBook(s.books, b).state
    ensures s'.users == s.users && s'.loans == s.loans
    ensures b.isbn !in s.loans && LoansResolve(s) ==> LoansResolve(s')
  {
    s.(books := BookDB.DeleteBook(s.books, b).state)
  }

  /** `add_user_data`: the user store's `add_user`. */
  function AddUserData(s: State, u: User): (s': State)
    ensures s'.users == UserDB.AddUser(s.users, u).state
    ensures s'.books == s.books && s'.loans == s.loans
    ensures LoansResolve(s) ==> LoansResolve(s')
  {
    s.(users := UserDB.AddUser(s.users, u).state)
  }

  /** `update_user_data`: the user store's `update_password`; None when that
      raises. */
  function UpdateUserData(s: State, u: User): (s': Option<State>)
    ensures s'.None? <==> UserDB.UpdatePassword(s.users, u).Raised?
    ensures s'.Some? ==> s'.value.users == UserDB.UpdatePassword(s.users, u).reply.state
    ensures s'.Some? ==> s'.value.books == s.books && s'.value.loans == s.loans
    ensures s'.Some? && LoansResolve(s) ==> LoansResolve(s'.value)
  {
    match UserDB.UpdatePassword(s.users, u)
    case Raised => None
    case Returned(reply) => Some(s.(users := reply.state))
  }

  /** `delete_user_data`: the user store's `delete_user`. Loans are not
      consulted: a member holding a book can be deleted and the loan stays. */
  function DeleteUserData(s: State, u: User): (s': State)
    ensures s'.users == UserDB.DeleteUser(s.users, u).state
    ensures s'.books == s.books && s'.loans == s.loans
    ensures (forall isbn :: isbn in s.loans ==> s.loans[isbn] != u.userId) && LoansResolve(s)
            ==> LoansResolve(s')
  {
    s.(users := UserDB.DeleteUser(s.users, u).state)
  }

  /** After a successful checkout the book is unavailable, nobody can check
      it out again (not even its holder), its holder can check it in, and
      that checkin restores the state from before the checkout. A second
      checkin then fails. */
  lemma CheckoutThenCheckin(s: State, a: Assignment, other: string)
    requires Checkout(s, a).ok
    ensures !IsBookAvailable(Checkout(s, a).state, a.isbn)
    ensures !Checkout(Checkout(s, a).state, Assignment(a.isbn, other)).ok
    ensures Checkin(Checkout(s, a).state, a) == Reply(true, s)
    ensures !Checkin(Checkin(Checkout(s, a).state, a).state, a).ok
  {
    var lent := Checkout(s, a).state;
    assert lent.loans - {a.isbn} == s.loans;
  }

  /** Checking a book in and out again to the same member restores the state,
      provided the book and the member are still stored. */
  lemma CheckinThenCheckout(s: State, a: Assignment)
    requires Checkin(s, a).ok && a.isbn in s.books && a.userId in s.users
    ensures Checkout(Checkin(s, a).state, a) == Reply(true, s)
  {
    var returned := Checkin(s, a).state;
    assert returned.loans[a.isbn := a.userId] == s.loans;
  }

  /** Nobody but the holder can check a lent book in. */
  lemma NoThirdPartyCheckin(s: State, isbn: string, someone: string)
    requires isbn in s.loans && s.loans[isbn] != someone
    ensures Checkin(s, Assignment(isbn, someone)) == Reply(false, s)
  {
  }

  /** A lent book deleted from the store stays lent: it is still unavailable,
      loans no longer resolve, and its holder can still check it in. */
  lemma DeletedLentBookStaysLent(s: State, b: Book)
    requires b.isbn in s.books && b.isbn in s.loans
    ensures DeleteBookData(s, b).loans == s.loans
    ensures !LoansResolve(DeleteBookData(s, b))
    ensures !IsBookAvailable(DeleteBookData(s, b), b.isbn)
    ensures Checkin(DeleteBookData(s, b), Assignment(b.isbn, s.loans[b.isbn])).ok
  {
  }

  /** A member deleted while holding a book can still check it in. */
  lemma DeletedHolderCanCheckin(s: State, u: User, isbn: string)
    requires u.userId in s.users && isbn in s.loans && s.loans[isbn] == u.userId
    ensures !LoansResolve(DeleteUserData(s, u))
    ensures Checkin(DeleteUserData(s, u), Assignment(isbn, u.userId)).ok
  {
  }

  /** The lending scenario with one book "111" and one member "u1". */
  lemma LendingScenario()
    ensures var s0 := State(map["111" := Book("A", "X", "111")],
                            map["u1" := UserDB.Record(User("u1", "pw", "N"))], map[]);
            var r1 := Checkout(s0, Assignment("111", "u1"));
            var r2 := Checkout(r1.state, Assignment("111", "u2"));
            var r3 := Checkin(r2.state, Assignment("111", "u1"));
            && r1.ok && !IsBookAvailable(r1.state, "111")
            && !r2.ok
            && r3.ok && IsBookAvailable(r3.state, "111")
            && Checkout(s0, Assignment("999", "u1")) == Reply(false, s0)
  {
  }
}
