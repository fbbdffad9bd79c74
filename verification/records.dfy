/** The record shapes of the library (the pydantic models). They carry no
    validation: every field is a plain string, and an omitted field is "". */
module Records {

  /** A book as written to the book file: the stored value for one ISBN. */
  datatype Book = Book(title: string, author: string, isbn: string)

  /** A member's login record as written to the user file. */
  datatype User = User(userId: string, password: string, name: string)

  /** A request to lend (or take back) the book `isbn` to (from) member `userId`. */
  datatype Assignment = Assignment(isbn: string, userId: string)
}
