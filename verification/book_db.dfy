/** The book store: ISBN -> book record, with exact-match search and
    add / update / delete that report success as a boolean. */
module BookDB {
  import opened Records
  import opened Outcomes

  type Books = map<string, Book>

  /** Every record is filed under its own ISBN. */
  predicate KeyedByIsbn(m: Books)
  {
    forall k :: k in m ==> m[k].isbn == k
  }

  /** `_search_by_isbn`: the stored record, or None for an unknown ISBN. */
  function SearchByIsbn(m: Books, isbn: string): (r: Option<Book>)
    ensures r.Some? <==> isbn in m
    ensures r.Some? ==> r.value == m[isbn]
  {
    if isbn in m then Some(m[isbn]) else None
  }

  /** `_search_by_title`: the part of the store whose title is exactly `title`. */
  function SearchByTitle(m: Books, title: string): (r: Books)
    ensures forall k :: k in r ==> k in m && r[k] == m[k]
    ensures forall k :: k in m ==> (k in r <==> m[k].title == title)
  {
    map k | k in m && m[k].title == title :: m[k]
  }

  /** `_search_by_author`: the part of the store whose author is exactly `author`. */
  function SearchByAuthor(m: Books, author: string): (r: Books)
    ensures forall k :: k in r ==> k in m && r[k] == m[k]
    ensures forall k :: k in m ==> (k in r <==> m[k].author == author)
  {
    map k | k in m && m[k].author == author :: m[k]
  }

  /** `verify_book`: whether a record is stored under the argument's ISBN;
      its title and author are ignored. */
  function VerifyBook(m: Books, b: Book): (found: bool)
    ensures found <==> b.isbn in m
  {
    SearchByIsbn(m, b.isbn).Some?
  }

  /** `add_book`: files `b` under its ISBN unless that ISBN is taken. */
  function AddBook(m: Books, b: Book): (r: Reply<Books>)
    ensures r.ok <==> b.isbn !in m
    ensures r.ok ==> r.state.Keys == m.Keys + {b.isbn} && r.state[b.isbn] == b
    ensures forall k :: k in m ==> k in r.state && r.state[k] == m[k]
    ensures !r.ok ==> r.state == m
    ensures KeyedByIsbn(m) ==> KeyedByIsbn(r.state)
  {
    if b.isbn !in m then Reply(true, m[b.isbn := b]) else Reply(false, m)
  }

  /** `update_book`: replaces the whole record under an existing ISBN. */
  function UpdateBook(m: Books, b: Book): (r: Reply<Books>)
    ensures r.ok <==> b.isbn in m
    ensures r.state.Keys == m.Keys
    ensures r.ok ==> r.state[b.isbn] == b
    ensures forall k :: k in m && k != b.isbn ==> r.state[k] == m[k]
    ensures !r.ok ==> r.state == m
    ensures KeyedByIsbn(m) ==> KeyedByIsbn(r.state)
  {
    if b.isbn !in m then Reply(false, m) else Reply(true, m[b.isbn := b])
  }

  /** `delete_book`: removes the record under the argument's ISBN. */
  function DeleteBook(m: Books, b: Book): (r: Reply<Books>)
    ensures r.ok <==> b.isbn in m
    ensures r.state.Keys == m.Keys - {b.isbn}
    ensures forall k :: k in r.state ==> r.state[k] == m[k]
    ensures KeyedByIsbn(m) ==> KeyedByIsbn(r.state)
  {
    if b.isbn !in m then Reply(false, m) else Reply(true, m - {b.isbn})
  }

  /** Only the ISBN of the argument decides what `delete_book` does. */
  lemma DeleteBookReadsOnlyIsbn(m: Books, b1: Book, b2: Book)
    requires b1.isbn == b2.isbn
    ensures DeleteBook(m, b1) == DeleteBook(m, b2)
  {
  }

  /** A second add of the same ISBN fails and keeps the first record. */
  lemma AddBookTwice(m: Books, b1: Book, b2: Book)
    requires AddBook(m, b1).ok && b2.isbn == b1.isbn
    ensures AddBook(AddBook(m, b1).state, b2) == Reply(false, AddBook(m, b1).state)
    ensures AddBook(AddBook(m, b1).state, b2).state[b1.isbn] == b1
  {
  }

  /** Adding a book and deleting it again restores the store. */
  lemma DeleteUndoesAdd(m: Books, b: Book)
    requires AddBook(m, b).ok
    ensures DeleteBook(AddBook(m, b).state, b) == Reply(true, m)
  {
    var added := AddBook(m, b).state;
    assert added - {b.isbn} == m;
  }

  /** A freshly added book is found by each of the three searches. */
  lemma AddedBookIsFound(m: Books, b: Book)
    requires AddBook(m, b).ok
    ensures SearchByIsbn(AddBook(m, b).state, b.isbn) == Some(b)
    ensures SearchByTitle(AddBook(m, b).state, b.title) == SearchByTitle(m, b.title)[b.isbn := b]
    ensures SearchByAuthor(AddBook(m, b).state, b.author) == SearchByAuthor(m, b.author)[b.isbn := b]
  {
  }

  /** A deleted book drops out of every title search and nothing else does. */
  lemma DeletedBookIsNotFound(m: Books, b: Book, title: string)
    ensures SearchByTitle(DeleteBook(m, b).state, title) == SearchByTitle(m, title) - {b.isbn}
  {
  }

  /** Searching a search result by the same title changes nothing. */
  lemma SearchByTitleIdempotent(m: Books, title: string)
    ensures SearchByTitle(SearchByTitle(m, title), title) == SearchByTitle(m, title)
  {
  }
}
