/** Shared vocabulary of the model: optional values, the error kinds the
    library reports, and the clock. Time is a count of seconds; the current
    time is always passed in by the caller. */
module Common {

  datatype Option<+T> = None | Some(value: T)

  /** A Go `error` return value: `nil` (Pass) or one named error (Fail). */
  datatype Outcome = Pass | Fail(error: Error)

  /** A Go `(value, error)` pair. */
  datatype Result<+T> = Ok(value: T) | Err(error: Error)

  /** The errors the lending core and its controllers can report. */
  datatype Error =
    // models
    | BorrowNotFound          // sql.ErrNoRows on the borrows table
    | BookNotFound            // sql.ErrNoRows on the books table ("book not found")
    | UserNotFound
    | NotPending              // "borrow request is not in pending status"
    | NoCopiesAvailable       // "no copies available for borrowing"
    | NotCurrentlyBorrowed    // "book is not currently borrowed"
    | BookIsAvailable         // "this book is currently available and can be borrowed directly"
    | AlreadyReserved         // "you already have an active reservation for this book"
    | CurrentlyBorrowing      // "you are currently borrowing this book"
    | ReservationNotFound     // "reservation not found"
    | ReservationNotActive    // "only active reservations can be cancelled"
    | CannotScan              // "cannot scan %T into NullTime"
    | NegativeOffset          // the database refuses a negative OFFSET
    | DuplicateEmail          // ErrDuplicateEmail
    | InvalidCredentials      // ErrInvalidCredentials
    // controllers
    | NotLoggedIn
    | PermissionDenied
    | InvalidId
    | MissingFields           // "Please fill in all required fields"
    | InvalidQuantity         // "Quantity must be a positive number"
    | IsbnTaken               // "A book with this ISBN already exists"
    | BookHasLoans            // "Cannot delete book as it is currently borrowed or has pending ..."
    | PendingRequestExists    // "You already have a pending request for this book"
    | AlreadyBorrowing        // "You are already borrowing this book"
    | InvalidAction
    | MissingDueDate
    | InvalidDueDate          // "Invalid due date format"
    | DueDateInPast           // "Due date must be in the future"
    | PasswordMismatch
    | InvalidRole
    | CannotDeleteSelf
    | UserHasActiveBorrows
    | UserHasPendingBorrows

  /** Seconds since an arbitrary epoch. */
  type Time = int

  const Day: int := 86400

  /** `AddDate(0, 0, 14)`: both reservation expiry and a promoted loan's due date. */
  const FourteenDays: int := 14 * Day

  /** The authenticated user that the session middleware puts in the request context. */
  datatype Actor = Actor(id: int, isLibrarian: bool, isStudent: bool)
}
