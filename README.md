# LibMS lending core in Dafny

LibMS is a library management web application. Librarians keep a catalog of
books and a list of users. Students ask to borrow a book, and a librarian
approves or rejects the request. Returns put the copy back on the shelf. A
student may reserve a book that has no copy on the shelf; when a copy comes
back, the oldest active reservation turns into a new borrow request.

This project models that lending core over four keyed tables:

- `books`, each with a quantity and an `available` shelf count;
- `borrows`, the lending ledger;
- `reservations`, the wait lists;
- `users`, each with a unique email and a role.

The tables are the maps of one `Tables.Db` object. Its serial counters hand
out new ids. Every model operation is one atomic step. It either returns
`Fail(error)` and leaves the whole database unchanged, or it makes all of its
writes. This matches the source's transactions, which roll back on any error.

The HTTP handlers are modelled as chains of guards ending in one model call:
login, role, the id in the URL, the form fields, then the ledger checks. A
request is reduced to the signed-in user (`Option<Actor>`), the URL path and
the form fields. The current time is an integer parameter (seconds).

Module layout, one module per source file plus three shared modules:

- `Common`: results, errors, time constants.
- `GoText`: Go's `strconv.Atoi`/`Itoa`, `strings.TrimPrefix`/`TrimSuffix`/`Index`, and integer division truncated toward zero.
- `Tables`: the rows, the `Db` class, and the `ORDER BY ... LIMIT 1` choice as an argmin/argmax.
- `Ledger`: ledger queries and the loan count of a book.
- `Borrows`, `Reservations`, `Books`, `Users`: the four model files.
- `BookController`, `BorrowController`, `UserController`: the three controller files.
- `Utils`: the page window and the date helpers.

Main invariants proved:

- **Inventory balance.** For every book, `available + (approved loans of the book)` is unchanged by approve, reject, return, borrow requests and reservation promotion. The balance survives an edit of the quantity exactly when the new quantity is at least the number of copies out on loan (`EditBalanceIff`).
- **ISBN uniqueness.** Adding and editing books preserve it.
- **Email uniqueness.** Creating, editing and deleting users preserve it, and so do password changes.

## Model

| member | source | states |
|---|---|---|
| Borrows.IsOverdue | models/borrow.go:84-88 | Overdue exactly when the row is approved, has a due date, and now is after it (a predicate, computed on each read) |
| Borrows.OverdueOnlyWhileOnLoan | models/borrow.go:84-88 | An overdue borrow is an approved loan with a due date before now; it stays overdue at every later time while outstanding, and a returned row is never overdue |
| Borrows.GetBorrowByUserAndBook | models/borrow.go:94-155 | With a status filter: some row of that user, book and status, and None exactly when there is no such row. Without a filter: the row of that user and book created last (ORDER BY created_at DESC LIMIT 1) |
| Borrows.HasPendingBorrowRequest | models/borrow.go:163-169 | True exactly when the user has a pending row for the book |
| Borrows.IsCurrentlyBorrowing | models/borrow.go:158-178 | True exactly when the user has an approved row for the book |
| Borrows.CreateBorrowRequest | models/borrow.go:181-191 | Inserts exactly one new pending row with no dates and no approver under a fresh id; no other table changes; every book's loan count is unchanged |
| Borrows.ApprovalKeepsHoldings | models/borrow.go:229-247 | Approving a pending row and taking one copy off its book's shelf keeps `available + loans` of every book |
| Borrows.ReturnKeepsHoldings | models/borrow.go:297-315 | Returning an approved row and putting one copy back keeps `available + loans` of every book |
| Borrows.ApproveThenReturnRestores | models/borrow.go:229-247 | Approve then return restores the book's `available`, and the row ends returned with the approval's borrow and due dates kept |
| Borrows.ApproveBorrow | models/borrow.go:194-256 | Fails with BorrowNotFound, NotPending, BookNotFound or NoCopiesAvailable in that order and then changes nothing; otherwise sets status approved, borrow date, due date and approver, takes one copy off the shelf, and keeps the inventory balance |
| Borrows.RejectBorrow | models/borrow.go:259-270 | Always succeeds; a pending row becomes rejected with the approver recorded; a missing or non-pending id changes nothing; loan counts are unchanged |
| Borrows.ReturnTransaction | models/borrow.go:273-322 | Fails with BorrowNotFound or NotCurrentlyBorrowed and changes nothing; otherwise the row becomes returned with a return date, and the book regains one copy if its row exists; the inventory balance is kept |
| Borrows.ReturnBook | models/borrow.go:273-331 | The return transaction, then promotion over the state it left at `promoteAt`: when the book exists, has a copy on the shelf after the return, and its wait list is non-empty, an oldest active reservation becomes fulfilled and exactly one pending request for its user is added under the ledger counter, which moves up by one; otherwise the reservations, the ledger and its counter are unchanged. The result and the book rows are those of the transaction; other ledger rows and the users are untouched; the inventory balance is kept |
| Ledger.UserHasBorrow | models/borrow.go:506-605 | A user has some row with the given status for any book: a non-empty `GetActiveUserBorrows` (approved) or `GetPendingUserBorrows` (pending) |
| Ledger.LoanCountAfterWrite | models/borrow.go:229-247 | Writing one ledger row moves a book's loan count by minus one if the old row was a loan of it and plus one if the new row is |
| Ledger.LoanCountAfterInsertRequest | models/borrow.go:181-191 | Inserting a non-approved row under a new id changes no book's loan count |
| Tables.ArgMinExists | models/reservation.go:197-206 | Every non-empty keyed table has an entry with the smallest value (the row `ORDER BY reservation_date ASC LIMIT 1` picks) |
| Tables.ArgMaxExists | models/borrow.go:94-155 | Every non-empty keyed table has an entry with the largest value (the row `ORDER BY created_at DESC LIMIT 1` picks) |
| Reservations.NullTime.Scan | models/reservation.go:24-37 | NULL gives the zero time and not valid; a timestamp is stored and valid; any other value fails with CannotScan after valid has been set |
| Reservations.NullTime.Value | models/reservation.go:40-45 | NULL exactly when not valid, otherwise the stored time |
| Reservations.ScanValueRoundTrip | models/reservation.go:24-45 | Scanning the Value of a NullTime succeeds and restores its validity, and its time when valid (the zero time when not) |
| Reservations.ScanRejectsOther | models/reservation.go:33-35 | Scanning a value of any other type fails with CannotScan and leaves the receiver valid |
| Reservations.ReserveBook | models/reservation.go:76-136 | Fails with BookNotFound, BookIsAvailable (some copy on the shelf), AlreadyReserved or CurrentlyBorrowing in that order and then changes nothing; otherwise inserts one active reservation expiring 14 days later and nothing else changes |
| Reservations.CancelReservation | models/reservation.go:139-179 | Fails with ReservationNotFound unless the reservation exists and belongs to the user, and with ReservationNotActive unless it is active; otherwise only that row becomes cancelled |
| Reservations.ProcessReservationsForBook | models/reservation.go:182-243 | Nothing is promoted exactly when the book is missing, has no copy on the shelf or has an empty wait list, and then nothing changes; otherwise the oldest active reservation becomes fulfilled and one pending request with a 14-day due date is filed for its user; the books never change |
| Reservations.PromotionIsFifo | models/reservation.go:197-235 | Promotion removes at most one reservation from the book's wait list; every reservation still waiting was made no earlier than the one removed; the wait lists of other books are untouched |
| Reservations.Swept | models/reservation.go:309-313 | The sweep turns exactly the active reservations past their expiry into expired and leaves all other rows as they were |
| Reservations.SweepIdempotent | models/reservation.go:305-316 | After one sweep nothing is left to expire, and a second sweep at the same time changes nothing |
| Reservations.SweepShrinksQueues | models/reservation.go:305-316 | The sweep only removes reservations from a wait list, and every active reservation that has not expired stays in it |
| Reservations.CleanExpiredReservations | models/reservation.go:305-316 | The reservations table becomes the swept table; no other table changes |
| Books.Book.SetAliasFields | models/book.go:36-40 | Genre becomes category, the available-copy alias becomes available, total copies becomes quantity; no other field changes |
| Books.GetBookByID | models/book.go:43-86 | Fails with BookNotFound for an unknown id; otherwise returns a new Book holding exactly that row, with the alias fields set |
| Books.Book.Create | models/book.go:280-307 | Inserts the book's fields under a fresh id with both timestamps now, gives the receiver that id, and changes no other table |
| Books.Book.Update | models/book.go:310-335 | Rewrites the row with the receiver's fields, keeping its creation time and setting the update time; an unknown id matches nothing |
| Books.Book.Delete | models/book.go:338-345 | Removes exactly the row with the receiver's id |
| Books.IsbnExists | models/book.go:348-358 | Some book has the ISBN |
| Books.IsbnExistsExcept | models/book.go:361-371 | Some book other than the given id has the ISBN |
| Books.IsbnExistsExceptAgrees | models/book.go:348-371 | The ISBN check that ignores one id implies the plain check; the two differ only when the ignored book holds the ISBN; they agree for an id that is not in the table |
| Books.WriteKeepsIsbnsUnique | models/book.go:348-371 | Writing a row whose ISBN no other book holds keeps ISBNs unique |
| Books.HasActiveOrPendingBorrows | models/book.go:453-468 | Some ledger row of the book is pending or approved |
| Books.IdleBookHasNoLoans | models/book.go:453-468 | A book with no pending or approved row has no copy out on loan and no pending request |
| Books.CountAvailableBooks | models/book.go:384-391 | Counts books, not copies, so the count is at most the number of books, and equals it exactly when every book has a copy on the shelf |
| Books.CountBooks | models/book.go:178-224 | The number of matching books is at most the number of books, and is the number of books for an empty search |
| Books.TitleLeqTotal | models/book.go:125-131 | Title order compares any two books |
| Books.InsertByTitle | models/book.go:125-131 | Inserting into a title-ordered list gives a title-ordered list holding the old entries plus the new one |
| Books.SortByTitle | models/book.go:125-131 | The result is a title-ordered permutation of its input (ORDER BY title ASC) |
| Books.Window | models/book.go:125-131 | LIMIT n OFFSET o: at most n entries, the i-th being entry o+i of the input; exactly n when enough entries follow the offset; none past the end |
| Books.GetBooks | models/book.go:89-175 | A page below 1 gives a negative OFFSET and fails; otherwise the result is the window at (page-1)*10 of size 10 of a title-ordered permutation of the books matching the search |
| Users.InsertKeepsEmailsUnique | models/user.go:111-118 | Inserting a user under a new id with an email nobody has keeps emails unique |
| Users.RewriteKeepsEmailsUnique | models/user.go:153-159 | Rewriting a user with an email no other user has keeps emails unique |
| Users.User.SetRoleFlags | models/user.go:65-66 | The librarian flag is set exactly for the role "librarian" and the student flag exactly for "student", so never both; no other field changes |
| Users.User.Create | models/user.go:107-145 | Fails with DuplicateEmail when the email is taken and then inserts nothing; otherwise inserts the user with the given hash under a fresh id and sets the role flags; email uniqueness is kept |
| Users.User.Update | models/user.go:148-176 | Fails with DuplicateEmail only when another user has the email, so keeping one's own email is allowed; otherwise rewrites name, email, role, student id, phone and the update time, never the password hash; email uniqueness is kept; the struct keeps its timestamps, and on failure its role flags |
| Users.User.UpdatePassword | models/user.go:179-196 | Changes only the password hash and the update time |
| Users.User.Delete | models/user.go:199-206 | Removes exactly the row with the receiver's id |
| Users.Load | models/user.go:37-69 | A new User holding exactly the row, with the role flags matching the role |
| Users.GetUserByID | models/user.go:37-69 | Fails with UserNotFound for an unknown id; otherwise a new User carrying every column of that row (name, email, hash, role, student id, phone, timestamps), with the role flags matching the role |
| Users.GetUserByEmail | models/user.go:72-104 | Fails with UserNotFound when nobody has the email; otherwise a new User carrying every column of a row with that email, with the role flags matching the role |
| Users.Authenticate | models/user.go:209-231 | Every failure, whether the email is unknown or the password wrong, is the same InvalidCredentials; with unique emails, success exactly when the user with that email has a matching password, and then the returned user carries every column of that row with role flags matching its role |
| Users.CreateDefaultLibrarian | models/user.go:343-364 | Does nothing when any user exists; otherwise inserts the default librarian account |
| GoText.Atoi | controllers/book_controller.go:25-28 | `strconv.Atoi`: succeeds only on an optional sign followed by digits, within the 64-bit range, with the decimal value of the digits |
| GoText.AtoiValue | controllers/book_controller.go:180 | The value returned beside an error: the Atoi value when there is no error; the 64-bit bound on the numeral's side for a range error, which both a well-formed numeral out of range and a leading digit run past 2^64-1 before a stray character give; 0 for every other malformed string; always within the 64-bit range |
| GoText.LeadingDigits | controllers/book_controller.go:180 | The longest all-digit prefix: a prefix, all digits, and followed by a non-digit or the end |
| GoText.AtoiValueOfOverflowedRun | controllers/book_controller.go:180 | A digit run above 2^64-1 followed by a stray character gives the largest `int`, and with a leading '-' the smallest, never 0 |
| GoText.Decimal | controllers/book_controller.go:73-84 | Decimal digits without a leading zero whose value is the number |
| GoText.AtoiItoa | controllers/book_controller.go:73-84 | `Atoi(Itoa(n)) == n` for every 64-bit n |
| BookController.ListPage | controllers/book_controller.go:25-28 | A page that does not parse becomes 1, a parsed page below 1 becomes 1, and a valid page is kept |
| BookController.TotalPages | controllers/book_controller.go:47-48 | The fewest pages of ten that hold every book: no page for no books |
| BookController.PageNonEmptyIffWithinTotal | controllers/book_controller.go:47-48 | A page is non-empty exactly when its number is at most the page count |
| BookController.BookList | controllers/book_controller.go:15-65 | The listed page holds at most ten matching books, and is non-empty exactly when the page number is at most the page count |
| BookController.DetailId | controllers/book_controller.go:73-84 | The id after "/books/", cut at the first '/', must be a positive integer |
| BookController.PathId | controllers/book_controller.go:257-267 | The id between an action URL's prefix and suffix must be a positive integer |
| BookController.DetailIdOfLink | controllers/book_controller.go:73-84 | A book link with or without a further segment leads back to its id |
| BookController.PathIdOfLink | controllers/borrow_controller.go:114-127 | Every action link built from a positive id leads back to that id |
| BookController.ValidateBookForm | controllers/book_controller.go:173-186 | Succeeds exactly when title, author, ISBN and quantity are present and the quantity parses to a positive number, which is the result; MissingFields exactly when a required field is empty |
| BookController.NewAvailable | controllers/book_controller.go:364-368 | The old shelf count moved by the change in quantity, clamped at 0 |
| BookController.NewAvailableBounds | controllers/book_controller.go:364-368 | A shelf count within the old quantity gives one within the new quantity |
| BookController.EditBalanceIff | controllers/book_controller.go:364-368 | Every copy stays either on the shelf or out on loan after an edit exactly when the new quantity is at least the number of loans |
| BookController.AddBook | controllers/book_controller.go:137-227 | Fails with NotLoggedIn, PermissionDenied, the form error or IsbnTaken in that order and then changes nothing; otherwise inserts the form's book with a shelf count equal to its quantity; ISBN uniqueness is kept |
| BookController.ApplyBookForm | controllers/book_controller.go:371-379 | The loaded book takes the form's fields and the new shelf count; its id and timestamps are kept |
| BookController.EditBook | controllers/book_controller.go:242-400 | Fails with NotLoggedIn, PermissionDenied, InvalidId, BookNotFound, the form error, or IsbnTaken (checked against other books only when the ISBN changed) and then changes nothing; otherwise rewrites the book with the clamped shelf count; ISBN uniqueness is kept |
| BookController.DeleteBook | controllers/book_controller.go:416-475 | Refused with BookHasLoans while the book has a pending or approved row; a deleted book had no loans |
| BookController.BorrowBook | controllers/book_controller.go:478-550 | Fails with NoCopiesAvailable, PendingRequestExists or AlreadyBorrowing (after the login, id and book checks) and then changes nothing; otherwise files one pending request |
| BorrowController.BorrowListPage | controllers/borrow_controller.go:36-44 | An absent page, one that does not parse and one below 1 all become 1; a valid page is kept |
| BorrowController.BorrowListPageAgrees | controllers/borrow_controller.go:36-44 | The borrow list reads its page parameter exactly as the book list does |
| BorrowController.BorrowTotalPages | controllers/borrow_controller.go:58-61 | At least one page, enough pages of ten for every item, and the book list's count whenever there are items |
| BorrowController.ActionGuard | controllers/borrow_controller.go:82-157 | Passes exactly for a librarian, a valid id, the action approve or reject, and for approve a present, parseable due date that is not before now; each failed guard gives its own error in source order: NotLoggedIn, PermissionDenied, InvalidId, InvalidAction, MissingDueDate, InvalidDueDate, DueDateInPast |
| BorrowController.BorrowAction | controllers/borrow_controller.go:82-182 | A failed guard changes nothing; approve then has ApproveBorrow's errors, new row and one-copy decrement, and reject RejectBorrow's silent no-op or rejected row; neither touches the reservations or the users; the inventory balance is kept |
| BorrowController.ReturnBook | controllers/borrow_controller.go:185-245 | Only the borrower or a librarian may return, and only an approved loan; the row becomes returned, the book regains one copy, other ledger rows and the users are untouched, and the book's wait list is promoted as in `Borrows.ReturnBook`, the ledger counter moving up by one exactly when a request is filed; the inventory balance is kept |
| UserController.NullString | controllers/user_controller.go:134-153 | An empty form field becomes NULL; any other is stored as is |
| UserController.ValidateNewUser | controllers/user_controller.go:113-131 | Passes exactly when name, email, password and role are present, the password is confirmed and the role is librarian or student |
| UserController.ValidateEditedUser | controllers/user_controller.go:233-258 | Passes exactly when name, email and role are present and the role is librarian or student |
| UserController.NewUserFormIsEditable | controllers/user_controller.go:113-131 | A form that passes the add checks passes the edit checks |
| UserController.AddUser | controllers/user_controller.go:78-171 | Login, role and form checks, then Create: fails with DuplicateEmail on a taken email and then changes nothing; email uniqueness is kept |
| UserController.ApplyUserForm | controllers/user_controller.go:261-265 | The loaded user takes the form's name, email, role, student id and phone; id and password hash are kept |
| UserController.EditUser | controllers/user_controller.go:174-303 | Failures change nothing; otherwise only name, email, role, student id, phone and the update time change; the password hash is kept; email uniqueness is kept |
| UserController.DeleteUser | controllers/user_controller.go:306-385 | Refused for one's own account, and for a user with any approved or any pending row; otherwise exactly that user is removed |
| Utils.GetPageRange | utils/utils.go:60-85 | [1] for at most one page; otherwise consecutive pages, each between 1 and the page count, min(rangeSize, totalPages) of them, containing the current page |
| Utils.FormatPointer | utils/utils.go:19-32 | A missing date prints as the empty string |
| Utils.WholeDays | utils/utils.go:35-52 | Whole days in a span of seconds, truncated toward zero |
| Utils.GetRemainingDays | utils/utils.go:35-42 | 0 for a missing date; not negative for a date still ahead |
| Utils.GetOverdueDays | utils/utils.go:45-52 | 0 for a missing date; not negative for a date already passed |
| Utils.OverdueIsNegatedRemaining | utils/utils.go:35-52 | The days overdue are exactly the remaining days negated |

## Left out

- HTTP plumbing: sessions, redirects, flash messages and template rendering. Each handler's outcome is its error or `Pass`.
- Driver and connection errors, and `Begin`/`Commit`/`Rollback`. Every model operation is one atomic step that makes all its writes or none.
- Schema constraints. The UNIQUE constraints on email and ISBN, the foreign keys, the 32-bit range of the INT columns (`publication_year`, `quantity`, `available`) and the VARCHAR widths of the text columns (title, author, ISBN and the user columns) are not modelled. `Books.Book.Delete` and `Users.User.Delete` remove the row even when ledger rows still refer to it, where the database's foreign keys would refuse. The handlers' own guards prevent this for books with open rows and for users with open rows.
- Books.Book.Create: inserts a row whose quantity, shelf count or publication year lies outside the 32-bit INT range, or whose text exceeds its VARCHAR width, where the database refuses the INSERT and the add handler reports an error. `BookController.ValidateBookForm` accepts any positive 64-bit quantity for the same reason, and `Books.Book.Update` has the same gap on edit.
- The reservations table is not created by `config/database.go`; the model assumes it exists as the reservation queries describe it.
- Books.MatchesSearch: `ILIKE` is modelled as a case-sensitive substring test. Case folding and the `%`/`_` wildcards inside the search term are left out.
- Books.TitleLeq: titles are ordered by code point. Database collation is left out, and so is the order among equal titles.
- The debug `println` calls of `Authenticate` (models/user.go:211-229), which write the email and the stored hash to standard output, are left out: console output is not modelled.
- bcrypt: the hash is a parameter of the creating operations, and the password comparison is a function parameter of `Users.Authenticate`.
- `time.Parse` of the due date: the parsed date is an `Option` parameter beside the raw string. Date layout and formatting (`FormatDate`, `FormatDateTime`) are a function parameter of `Utils.FormatPointer`.
- Utils.WholeDays: the hours are computed as a floating-point number before the division by 24. The model truncates whole seconds instead, so rounding in the floating-point step is not captured.
- Promotion after a return runs in a goroutine after the commit. The model runs it right after the transaction, at a separate time `promoteAt`, and discards its outcome. Interleavings with other requests are not modelled.
- The listings and reports are read-only views that change nothing: `GetBorrowsWithFilters`, `GetAllPendingBorrows`, `GetActiveBorrows`, `GetOverdueBooks`, the per-user borrow lists, `GetBorrowHistory`, `GetUserReservations`, `GetAllBooks`, `CountAllBooks`, `GetTopBorrowedBooks`, `GetAllUsers`, `GetAllStudents` and `CountUsers`. The handlers `BookDetail`, `BookReport`, `BorrowHistory`, `BorrowReport`, `UserList` and `calculatePercentage` are left out for the same reason. The ledger questions some handlers ask through these listings are modelled directly as `Ledger.UserHasBorrow`.
- The student-only check of the reservation handler: controllers/reservation_controller.go is not part of this model.
- 64-bit overflow in the page arithmetic (`(page-1)*10`, `total+9`): integers are unbounded; only `Atoi`'s range check is modelled.
- BorrowController.ActionGuard: "before now" compares the parsed date with the current time directly. Midnight of today is already before now, so a due date of today is refused; the model states this as `dueDate < now`.
