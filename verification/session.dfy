/** A session as a sequence of state-changing commands applied to the record
    manager, and the facts that hold of every such sequence. */
module Session {
  import opened Records
  import opened Outcomes
  import BookDB
  import UserDB
  import Loading
  import opened Storage

  /** The state-changing actions of the record manager's façade. Listing,
      searching and availability queries change no table and are left out,
      although listing the users raises on a bare-string entry and so can
      end a session too. */
  datatype Command =
    | AddBook(book: Book)
    | UpdateBook(book: Book)
    | DeleteBook(book: Book)
    | AddUser(user: User)
    | UpdateUser(user: User)
    | DeleteUser(user: User)
    | CheckOut(assignment: Assignment)
    | CheckIn(assignment: Assignment)

  /** The command lends or returns a book. */
  predicate IsLoanCommand(c: Command)
  {
    c.CheckOut? || c.CheckIn?
  }

  /** The command deletes a book or a user. */
  predicate IsDeletion(c: Command)
  {
    c.DeleteBook? || c.DeleteUser?
  }

  /** One command through the façade; None when it raised, which ends the
      session. Among the modelled commands only the password update can
      raise. Only the loan commands touch the loans; only the book commands
      touch the books; only the user commands touch the users. */
  function Step(s: State, c: Command): (r: Option<State>)
    ensures r.None? ==> c.UpdateUser?
    ensures r.Some? && !IsLoanCommand(c) ==> r.value.loans == s.loans
    ensures r.Some? && IsLoanCommand(c) ==>
              forall k :: k != c.assignment.isbn ==>
                (k in r.value.loans <==> k in s.loans) && (k in s.loans ==> r.value.loans[k] == s.loans[k])
    ensures r.Some? && !(c.AddBook? || c.UpdateBook? || c.DeleteBook?) ==> r.value.books == s.books
    ensures r.Some? && !(c.AddUser? || c.UpdateUser? || c.DeleteUser?) ==> r.value.users == s.users
    ensures r.Some? && BookDB.KeyedByIsbn(s.books) ==> BookDB.KeyedByIsbn(r.value.books)
    ensures r.Some? && !IsDeletion(c) && LoansResolve(s) ==> LoansResolve(r.value)
  {
    match c
    case AddBook(b) => Some(AddBookData(s, b))
    case UpdateBook(b) => Some(UpdateBookData(s, b))
    case DeleteBook(b) => Some(DeleteBookData(s, b))
    case AddUser(u) => Some(AddUserData(s, u))
    case UpdateUser(u) => UpdateUserData(s, u)
    case DeleteUser(u) => Some(DeleteUserData(s, u))
    case CheckOut(a) => Some(Checkout(s, a).state)
    case CheckIn(a) => Some(Checkin(s, a).state)
  }

  /** The state a session leaves behind after the commands `cs`, stopping at
      the first command that raises. Loans change only through checkout and
      checkin, and books stay filed under their own ISBN. */
  function Run(s: State, cs: seq<Command>): (r: State)
    ensures (forall i :: 0 <= i < |cs| ==> !IsLoanCommand(cs[i])) ==> r.loans == s.loans
    ensures BookDB.KeyedByIsbn(s.books) ==> BookDB.KeyedByIsbn(r.books)
    decreases |cs|
  {
    if cs == [] then s
    else match Step(s, cs[0])
      case None => s
      case Some(next) => Run(next, cs[1..])
  }

  /** A session without deletions keeps every loan resolving to a stored book
      and a stored user. */
  lemma {:induction false} RunKeepsLoansResolved(s: State, cs: seq<Command>)
    requires LoansResolve(s)
    requires forall i :: 0 <= i < |cs| ==> !IsDeletion(cs[i])
    ensures LoansResolve(Run(s, cs))
    decreases |cs|
  {
    if cs != [] {
      match Step(s, cs[0])
      case None =>
      case Some(next) =>
        assert forall i :: 0 <= i < |cs[1..]| ==> !IsDeletion(cs[1..][i]) by {
          forall i | 0 <= i < |cs[1..]| ensures !IsDeletion(cs[1..][i]) {
            assert cs[1..][i] == cs[i + 1];
          }
        }
        RunKeepsLoansResolved(next, cs[1..]);
    }
  }

  /** Successful checkouts minus successful checkins along the session. */
  function LoanDelta(s: State, cs: seq<Command>): (d: int)
    decreases |cs|
  {
    if cs == [] then 0
    else match Step(s, cs[0])
      case None => 0
      case Some(next) =>
        var here := match cs[0]
          case CheckOut(a) => if Checkout(s, a).ok then 1 else 0
          case CheckIn(a) => if Checkin(s, a).ok then -1 else 0
          case _ => 0;
        here + LoanDelta(next, cs[1..])
  }

  /** The number of loans changes by exactly one per successful checkout or
      checkin: the session's loan ledger balances. */
  lemma {:induction false} RunBalancesLoans(s: State, cs: seq<Command>)
    ensures |Run(s, cs).loans| == |s.loans| + LoanDelta(s, cs)
    decreases |cs|
  {
    if cs != [] {
      match Step(s, cs[0])
      case None =>
      case Some(next) =>
        RunBalancesLoans(next, cs[1..]);
    }
  }

  /** A session opened without a usable loan file, and with no deletions,
      ends with every loan naming a stored book and a stored user. */
  lemma FreshSessionKeepsLoansResolved(userFile: Loading.ReadResult<UserDB.Entry>,
                                       bookFile: Loading.ReadResult<Book>,
                                       loanFile: Loading.ReadResult<string>, cs: seq<Command>)
    requires loanFile.FileMissing? || (loanFile.Read? && loanFile.decoded.None?)
    requires forall i :: 0 <= i < |cs| ==> !IsDeletion(cs[i])
    ensures Open(userFile, bookFile, loanFile).Some?
    ensures LoansResolve(Run(Open(userFile, bookFile, loanFile).value, cs))
  {
    OpenWithoutLoansResolves(userFile, bookFile, loanFile);
    RunKeepsLoansResolved(Open(userFile, bookFile, loanFile).value, cs);
  }
}
