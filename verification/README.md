# Library record manager — verified model

A model of the in-memory core of a small, single-user library record manager.
The program keeps three string-keyed tables: books by ISBN, users by user id,
and loans (ISBN → id of the member holding the book). It lends a book only
when the book and the member are both stored and the book is not already
lent. It takes a book back only from the member holding it.

In the program the book and user tables are class-level dictionaries that
every part of the process shares, and the loans are an attribute of the
record manager object. Here they form one explicit value, `Storage.State`.
Every operation takes that value and returns a new one. Where the program
returns a boolean, the model returns a `Reply(ok, state)`.

Modules:

- `Records`: the record shapes `Book`, `User` and `Assignment`. They are plain
  strings with no validation.
- `Outcomes`: `Option`, `Reply`, and `Call`. A `Call` either returns or raises.
- `Loading`: loading a store, with the file read abstracted to a
  `ReadResult`. The result is one of: file missing, other read error, or
  text together with what the JSON decoder made of it.
- `BookDB`: the book store.
- `UserDB`: the user store, as the program actually behaves. A stored value
  is either a record (`Record`) or a bare string (`Text`). The second kind
  appears only in a hand-edited file. Several user operations compare a whole
  stored value with a string. In Python a dict never equals a str, so those
  comparisons are false for every record.
- `UserDBCorrected`: the user operations as evidently intended (see Findings).
- `Storage`: the record manager. It holds the loan tracker
  (`IsBookAvailable`, `Checkout`, `Checkin`), session start, and the façade
  operations that delegate to the stores.
- `Session`: a session as a sequence of state-changing commands, and the
  invariants that hold over every such sequence.

Where the program's messages and docstrings promise one thing and its code
does another, the model follows the code:

- The password update prints "Previous and new password cannot be the same"
  when it refuses an unchanged password. But its guard compares the password
  with the whole stored record, so it never refuses a record.
- The login check compares the whole stored record with the password, so it
  never succeeds for a record. This holds even right after the user was
  added with that password.
- The loan loader's docstring says it loads the file or starts empty. It
  catches only a missing file and a decode error. Any other read error
  escapes and aborts session start; `Storage.Open` returns `None` in that
  case.

## Model

| member | source | states |
|---|---|---|
| Loading.Instantiate | Storage/BookDB/book_storage_handling.py:13-37 | a load succeeds exactly when the file was read and is blank or decodes; blank gives an empty store; a missing or undecodable file empties the store and fails; any other error fails and keeps the store |
| Loading.LoadPreviousContext | Storage/storage.py:16-25 | a missing or undecodable loan file starts with no loans; any other read error escapes (None) |
| Loading.BlankFileLoadsEmpty | Storage/BookDB/book_storage_handling.py:21-26 | a whitespace-only file is a successful load of an empty store, whatever the decoder would say; a blank loan file starts empty only because the decoder rejects it |
| Loading.LoadersAgree | Storage/storage.py:16-25 | for a decoder that rejects blank documents, the loan loader and a store loader starting from empty agree on every outcome except an uncaught read error, which aborts only the loan load |
| BookDB.SearchByIsbn | Storage/BookDB/book_storage_handling.py:40-47 | the stored record for a known ISBN, None exactly for an unknown one |
| BookDB.SearchByTitle | Storage/BookDB/book_storage_handling.py:50-57 | a sub-map of the store with keys and records preserved, holding exactly the entries whose title equals the query |
| BookDB.SearchByAuthor | Storage/BookDB/book_storage_handling.py:60-67 | a sub-map of the store with keys and records preserved, holding exactly the entries whose author equals the query |
| BookDB.VerifyBook | Storage/BookDB/book_storage_handling.py:70-80 | true exactly when the argument's ISBN is a key; title and author are ignored |
| BookDB.AddBook | Storage/BookDB/book_storage_handling.py:83-94 | succeeds exactly on a fresh ISBN and adds only that key, holding the record; otherwise the store is unchanged; every record stays filed under its own ISBN |
| BookDB.UpdateBook | Storage/BookDB/book_storage_handling.py:97-108 | succeeds exactly on a known ISBN and replaces the whole record; the key set and every other record are unchanged; failure changes nothing; records stay filed under their ISBN |
| BookDB.DeleteBook | Storage/BookDB/book_storage_handling.py:111-122 | succeeds exactly on a known ISBN; removes only that key and keeps every other record |
| BookDB.DeleteBookReadsOnlyIsbn | Storage/BookDB/book_storage_handling.py:118-122 | two arguments with the same ISBN delete identically |
| BookDB.AddBookTwice | Storage/BookDB/book_storage_handling.py:90-94 | a second add of the same ISBN fails and the first record stays |
| BookDB.DeleteUndoesAdd | Storage/BookDB/book_storage_handling.py:83-122 | deleting a freshly added book restores the store exactly |
| BookDB.AddedBookIsFound | Storage/BookDB/book_storage_handling.py:47-91 | after an add, the ISBN search finds the book, and the title and author searches gain exactly that entry |
| BookDB.DeletedBookIsNotFound | Storage/BookDB/book_storage_handling.py:57-121 | after a delete, a title search loses exactly the deleted ISBN |
| BookDB.SearchByTitleIdempotent | Storage/BookDB/book_storage_handling.py:57 | searching a title search's result by the same title returns it unchanged |
| UserDB.SearchById | Storage/UserDB/user_storage_handling.py:32-36 | the stored value exactly when the id is present and the value is truthy; a record is always returned |
| UserDB.SearchByName | Storage/UserDB/user_storage_handling.py:39-44 | matches exactly the ids whose whole stored value equals the name as a string, each mapped to the name; empty when every value is a record |
| UserDB.VerifyUser | Storage/UserDB/user_storage_handling.py:46-52 | true exactly when the stored value is the non-empty password as a bare string; never true for a record |
| UserDB.AddUser | Storage/UserDB/user_storage_handling.py:55-61 | succeeds exactly on a fresh id and adds only that key, holding the record; otherwise nothing changes |
| UserDB.UpdatePassword | Storage/UserDB/user_storage_handling.py:64-73 | unknown id fails without change; every record gets the new password, with all other fields and users kept, even when the password is unchanged; a bare string that differs raises |
| UserDB.DeleteUser | Storage/UserDB/user_storage_handling.py:76-82 | succeeds exactly on a known id; removes only that key |
| UserDB.AddedUserIsFound | Storage/UserDB/user_storage_handling.py:33-57 | a user just added is found by id, since an added record is never falsy |
| UserDB.AddedUserCannotLogIn | Storage/UserDB/user_storage_handling.py:46-57 | as written, a user just added fails the login check with any password, whatever else the store holds |
| UserDB.AddedUserNotFoundByName | Storage/UserDB/user_storage_handling.py:39-57 | as written, a user just added is not found under their name |
| UserDB.SamePasswordAccepted | Storage/UserDB/user_storage_handling.py:68-73 | as written, changing a record's password to its current value returns true and leaves the store as it was |
| UserDBCorrected.VerifyUserIntended | Storage/UserDB/user_storage_handling.py:46-52 | login succeeds exactly when the stored record's password field equals the given one |
| UserDBCorrected.UpdatePasswordIntended | Storage/UserDB/user_storage_handling.py:64-73 | succeeds exactly for a stored record whose password differs; only that password field changes |
| UserDBCorrected.SearchByNameIntended | Storage/UserDB/user_storage_handling.py:39-44 | exactly the stored records whose name field equals the query, keyed by id |
| UserDBCorrected.AddedUserCanLogIn | Storage/UserDB/user_storage_handling.py:46-57 | with the corrected check, a user just added logs in with their password and with no other |
| UserDBCorrected.AddedUserFoundByName | Storage/UserDB/user_storage_handling.py:39-57 | with the corrected search, a user just added is found under their name |
| UserDBCorrected.PasswordChangeScenario | Storage/UserDB/user_storage_handling.py:64-73 | with the corrected rules, a change to the same password is refused; after a change only the new password logs in |
| UserDBCorrected.UpdatePasswordDiffersOnlyOnSamePassword | Storage/UserDB/user_storage_handling.py:68-70 | on records, the program's and the intended password change agree exactly when the new password differs |
| Storage.Open | Storage/storage.py:11-14 | users, books and loans load independently and from empty; the loans are what the loan loader yields, none for a missing or undecodable file; a store whose file was not read starts empty; only an uncaught error on the loan file aborts |
| Storage.OpenWithoutLoansResolves | Storage/storage.py:11-25 | a session opened with a missing or undecodable loan file starts with no loans, so every loan resolves |
| Storage.DanglingLoanIsLoaded | Storage/storage.py:14-30 | a saved loan whose ISBN is not in the loaded book store is loaded as it is: loans do not resolve, the book is unavailable, and its holder can check it in |
| Storage.IsBookAvailable | Storage/storage.py:27-30 | available exactly when the book is stored and not lent; an unknown ISBN is reported not available |
| Storage.Checkout | Storage/storage.py:32-40 | succeeds exactly when book and user are stored and the book is not lent; adds only that loan, one more loan in all; failure changes nothing; books and users never change |
| Storage.Checkin | Storage/storage.py:42-50 | succeeds exactly for the member holding the book; removes only that loan; failure changes nothing; books and users never change |
| Storage.AddBookData | Storage/storage.py:87-89 | delegates to the book store; users and loans are untouched |
| Storage.UpdateBookData | Storage/storage.py:95-97 | delegates to the book store; users and loans are untouched |
| Storage.DeleteBookData | Storage/storage.py:91-93 | delegates to the book store and leaves the loans untouched, even for a lent book |
| Storage.AddUserData | Storage/storage.py:133-135 | delegates to the user store; books and loans are untouched |
| Storage.UpdateUserData | Storage/storage.py:141-143 | delegates to the password update and raises exactly when it does; books and loans are untouched |
| Storage.DeleteUserData | Storage/storage.py:137-139 | delegates to the user store and leaves the loans untouched, even for a member holding a book |
| Storage.CheckoutThenCheckin | Storage/storage.py:27-50 | after a checkout the book is unavailable, no one can check it out again, its holder's checkin restores the earlier state, and a second checkin fails |
| Storage.CheckinThenCheckout | Storage/storage.py:32-50 | checking a book in and out again to the same member restores the state while book and member are stored |
| Storage.NoThirdPartyCheckin | Storage/storage.py:42-50 | a checkin by anyone but the holder fails and changes nothing |
| Storage.DeletedLentBookStaysLent | Storage/storage.py:91-93 | a lent book deleted from the store stays lent and unavailable, loans stop resolving, and the holder can still check it in |
| Storage.DeletedHolderCanCheckin | Storage/storage.py:137-139 | a member deleted while holding a book can still check it in |
| Storage.LendingScenario | Storage/storage.py:27-50 | one book, one member: checkout, a refused second checkout, checkin, and a refused checkout of an unknown ISBN |
| Session.Step | Storage/storage.py:87-155 | each façade command touches only its own table; a loan command changes at most the loan of its own ISBN; books stay filed under their ISBN; only a deletion can break loan resolution |
| Session.Run | Menu/menu.py:112-125 | a session with no loan commands leaves the loans as they were; books stay filed under their ISBN throughout |
| Session.RunKeepsLoansResolved | Storage/storage.py:32-40 | in a session without deletions, every loan keeps naming a stored book and a stored user |
| Session.FreshSessionKeepsLoansResolved | Storage/storage.py:11-40 | a session opened without a usable loan file and run without deletions ends with every loan naming a stored book and a stored user |
| Session.RunBalancesLoans | Storage/storage.py:32-50 | the number of loans at the end of a session is the number at the start plus successful checkouts minus successful checkins |

## Left out

- File I/O and JSON encoding and decoding. A load is modelled only through its outcome (`Loading.ReadResult`), so the save-then-reload round trip is not modelled.
- `save_data` of the three stores, the save sequence in `__exit__`, and the `super().save_data()` call resolved through inheritance. These write files only.
- The console side of the program. This covers the `take_*_data` prompts, the `search_book` and `search_user` input dispatch, `_get_books` and `_get_users`, and every printed message. These are input and output around the core.
- The menu loop, its input table and `verify_input`, and the process entry point. `Session.Run` is a sequence of commands, not the interactive loop.
- A decoded document that is not an object, and stored values that are neither a record nor a string. Examples are JSON null, numbers, lists, and dicts missing a field. The first would replace a store with a non-dict value. The others change what truthiness, `.get` and subscripting do.
- Bare strings stored as values in the book file. `BookDB.Books` holds only records. On such an entry the title and author searches would raise a TypeError (they subscript the value), and `verify_book` would return true.
- A `None` value stored in the book file. For such an entry `verify_book` is false although the ISBN is a key.
- Session.Step: listing the users (`_get_users`) raises on a bare-string entry and ends the session like a raising password update; listing is not a modelled command, so `Step` promises that only the password update raises among the commands it models.
- Exceptions raised by the façade while a session runs stop `Session.Run` at that command. What happens afterwards is not modelled: `__exit__` swallows the exception and saves.
- The hard-coded file paths, and the process-wide sharing of the class-level book and user tables. One explicit `State` value replaces that sharing.

## Findings

| source | as written | input that shows it | evidently intended | confidence | as-written member | corrected member |
|---|---|---|---|---|---|---|
| Storage/UserDB/user_storage_handling.py:68 | the new password is compared with the whole stored record | a stored user whose password already equals the new one: the update returns true | compare with the record's password field and refuse an unchanged password | high; not executed | UserDB.SamePasswordAccepted | UserDBCorrected.PasswordChangeScenario |
| Storage/UserDB/user_storage_handling.py:48 | the supplied password is compared with the whole stored record | a user added with password "pw" and checked with "pw": false | compare with the record's password field | high; not executed | UserDB.AddedUserCannotLogIn | UserDBCorrected.AddedUserCanLogIn |
| Storage/UserDB/user_storage_handling.py:42 | each whole stored record is compared with the name, and a match maps to the name | a user added with name "N" and searched by "N": empty result | compare with the record's name field and return the records | high; not executed | UserDB.AddedUserNotFoundByName | UserDBCorrected.AddedUserFoundByName |

The library façade (`Storage`) keeps the as-written `UserDB` operations,
because they are what the program does. No other part of the model depends
on the login check, the password guard or the name search. The corrected
members stand beside them with their intended properties proved.
