/** controllers/borrow_controller.go: the librarian's approve/reject
    handler, the return handler, and the borrow list's page arithmetic. The
    due date arrives already parsed: `None` stands for a string that
    `time.Parse("2006-01-02", ...)` refuses. */
module BorrowController {
  import opened Common
  import opened GoText
  import opened Tables
  import opened Ledger
  import opened BookController
  import Borrows
  import Books
  import Reservations

  /** `BorrowList`'s page: 1 for an absent page, and 1 for one that does
      not parse or is below 1; a valid page is kept. */
  function BorrowListPage(param: string): (page: int)
    ensures page >= 1
    ensures param == "" ==> page == 1
    ensures Atoi(param).Some? && Atoi(param).value >= 1 ==> page == Atoi(param).value
    ensures Atoi(param).Some? && Atoi(param).value < 1 ==> page == 1
    ensures Atoi(param).None? ==> page == 1
  {
    if param == "" then 1
    else match Atoi(param)
      case Some(p) => if p < 1 then 1 else p
      case None => 1
  }

  /** The borrow list and the book list read their page parameter alike:
      the borrow list's separate test for an empty parameter changes nothing,
      since `Atoi` refuses the empty string. */
  lemma BorrowListPageAgrees(param: string)
    ensures BorrowListPage(param) == ListPage(param)
  {
  }

  /** `BorrowList`'s page count: the ceiling of `totalItems / 10`, but at
      least one page even for an empty list. */
  function BorrowTotalPages(totalItems: int): (n: int)
    ensures totalItems >= 0 ==> n >= 1 && ((n - 1) * Books.PageSize < totalItems || (totalItems == 0 && n == 1))
    ensures totalItems > 0 ==> n == TotalPages(totalItems)
    ensures totalItems >= 0 ==> totalItems <= n * Books.PageSize
  {
    var n := TotalPages(totalItems);
    if n < 1 then 1 else n
  }

  const BorrowsPrefix: string := "/borrows/"

  /** The checks `BorrowAction` makes before touching the ledger, in order;
      `Pass` means the model call is made. */
  function ActionGuard(user: Option<Actor>, path: string, action: string, dueDateStr: string,
                       dueDate: Option<Time>, now: Time): (r: Outcome)
    ensures r == Pass <==>
      && user.Some? && user.value.isLibrarian
      && PathId(path, BorrowsPrefix, "/action").Some?
      && (action == "approve" || action == "reject")
      && (action == "approve" ==> dueDateStr != "" && dueDate.Some? && dueDate.value >= now)
    ensures user.None? ==> r == Fail(NotLoggedIn)
    ensures user.Some? && !user.value.isLibrarian ==> r == Fail(PermissionDenied)
    ensures user.Some? && user.value.isLibrarian && PathId(path, BorrowsPrefix, "/action").None? ==>
      r == Fail(InvalidId)
    ensures (user.Some? && user.value.isLibrarian && PathId(path, BorrowsPrefix, "/action").Some?
             && action != "approve" && action != "reject") ==> r == Fail(InvalidAction)
    ensures user.Some? && user.value.isLibrarian && PathId(path, BorrowsPrefix, "/action").Some?
            && action == "approve" ==>
      && (dueDateStr == "" ==> r == Fail(MissingDueDate))
      && (dueDateStr != "" && dueDate.None? ==> r == Fail(InvalidDueDate))
      && (dueDateStr != "" && dueDate.Some? && dueDate.value < now ==> r == Fail(DueDateInPast))
  {
    if user.None? then Fail(NotLoggedIn)
    else if !user.value.isLibrarian then Fail(PermissionDenied)
    else if PathId(path, BorrowsPrefix, "/action").None? then Fail(InvalidId)
    else if action != "approve" && action != "reject" then Fail(InvalidAction)
    else if action == "approve" && dueDateStr == "" then Fail(MissingDueDate)
    else if action == "approve" && dueDate.None? then Fail(InvalidDueDate)
    else if action == "approve" && dueDate.value < now then Fail(DueDateInPast)
    else Pass
  }

  /** `BorrowAction` (POST): the guards, then `ApproveBorrow` with the
      librarian as approver or `RejectBorrow`. A guard that fails leaves the
      ledger and the catalog untouched, and neither action breaks the
      balance of shelf copies and loans. */
  method BorrowAction(db: Db, user: Option<Actor>, path: string, action: string, dueDateStr: string,
                      dueDate: Option<Time>, now: Time) returns (out: Outcome)
    requires db.Valid()
    modifies db
    ensures db.Valid()
    ensures ActionGuard(user, path, action, dueDateStr, dueDate, now).Fail? ==>
      out == ActionGuard(user, path, action, dueDateStr, dueDate, now) && unchanged(db)
    ensures ActionGuard(user, path, action, dueDateStr, dueDate, now) == Pass && action == "approve" ==>
      var id := PathId(path, BorrowsPrefix, "/action").value;
      && out == (
        if id !in old(db.borrows) then Fail(BorrowNotFound)
        else if old(db.borrows[id].status) != Pending then Fail(NotPending)
        else if old(db.borrows[id].bookId) !in old(db.books) then Fail(BookNotFound)
        else if old(db.books[db.borrows[id].bookId].available) <= 0 then Fail(NoCopiesAvailable)
        else Pass)
      && (out.Fail? ==> unchanged(db))
      && (out.Pass? ==>
            var b := old(db.borrows[id]);
            && db.borrows == old(db.borrows)[id := Borrows.Approval(b, user.value.id, dueDate.value, now)]
            && db.books == old(db.books)[b.bookId := Borrows.Adjusted(old(db.books[b.bookId]), -1, now)]
            && db.reservations == old(db.reservations) && db.users == old(db.users))
    ensures ActionGuard(user, path, action, dueDateStr, dueDate, now) == Pass && action == "reject" ==>
      var id := PathId(path, BorrowsPrefix, "/action").value;
      && out == Pass && db.books == old(db.books)
      && db.reservations == old(db.reservations) && db.users == old(db.users)
      && (id in old(db.borrows) && old(db.borrows[id].status) == Pending ==>
            db.borrows == old(db.borrows)[id := old(db.borrows[id]).(status := Rejected,
                                            approvedBy := Some(user.value.id), updatedAt := now)])
      && (!(id in old(db.borrows) && old(db.borrows[id].status) == Pending) ==> db.borrows == old(db.borrows))
    ensures forall k :: k in db.books ==>
      k in old(db.books) && db.books[k].available + LoanCount(db.borrows, k)
                            == old(db.books[k].available + LoanCount(db.borrows, k))
    ensures db.nextBookId == old(db.nextBookId) && db.nextBorrowId == old(db.nextBorrowId)
    ensures db.nextReservationId == old(db.nextReservationId) && db.nextUserId == old(db.nextUserId)
  {
    var guard := ActionGuard(user, path, action, dueDateStr, dueDate, now);
    if guard.Fail? {
      return guard;
    }
    var id := PathId(path, BorrowsPrefix, "/action").value;
    if action == "approve" {
      out := Borrows.ApproveBorrow(db, id, user.value.id, dueDate.value, now);
    } else {
      out := Borrows.RejectBorrow(db, id, user.value.id, now);
    }
  }

  /** `ReturnBook` (the handler): only the borrower or a librarian may
      return, and only an outstanding loan; then the model's return runs,
      followed by promotion of the book's wait list at `promoteAt`. */
  method ReturnBook(db: Db, user: Option<Actor>, path: string, now: Time, promoteAt: Time)
    returns (out: Outcome)
    requires db.Valid()
    modifies db
    ensures db.Valid()
    ensures var id := PathId(path, BorrowsPrefix, "/return");
      out == (
      if user.None? then Fail(NotLoggedIn)
      else if id.None? then Fail(InvalidId)
      else if id.value !in old(db.borrows) then Fail(BorrowNotFound)
      else if old(db.borrows[id.value].userId) != user.value.id && !user.value.isLibrarian
        then Fail(PermissionDenied)
      else if old(db.borrows[id.value].status) != Approved then Fail(NotCurrentlyBorrowed)
      else Pass)
    ensures out.Fail? ==> unchanged(db)
    ensures out.Pass? ==>
      var id := PathId(path, BorrowsPrefix, "/return").value;
      var b := old(db.borrows[id]);
      && (b.userId == user.value.id || user.value.isLibrarian)
      && id in db.borrows && db.borrows[id] == Borrows.Returning(b, now)
      && db.books == (if b.bookId in old(db.books)
                      then old(db.books)[b.bookId := Borrows.Adjusted(old(db.books[b.bookId]), 1, now)]
                      else old(db.books))
      && (forall k :: k in old(db.borrows) && k != id ==> k in db.borrows && db.borrows[k] == old(db.borrows[k]))
      && db.users == old(db.users)
      && Reservations.PromotionEffect(
           old(db.reservations), old(db.borrows)[id := Borrows.Returning(b, now)], old(db.nextBorrowId), b.bookId,
           if b.bookId in old(db.books) then Some(old(db.books[b.bookId].available) + 1) else None,
           promoteAt, db.reservations, db.borrows, db.nextBorrowId)
    ensures forall k :: k in db.books ==>
      k in old(db.books) && db.books[k].available + LoanCount(db.borrows, k)
                            == old(db.books[k].available + LoanCount(db.borrows, k))
    ensures db.nextBookId == old(db.nextBookId) && db.nextReservationId == old(db.nextReservationId)
    ensures db.nextUserId == old(db.nextUserId)
  {
    if user.None? {
      return Fail(NotLoggedIn);
    }
    var parsed := PathId(path, BorrowsPrefix, "/return");
    if parsed.None? {
      return Fail(InvalidId);
    }
    var id := parsed.value;
    if id !in db.borrows {
      return Fail(BorrowNotFound);
    }
    var borrow := db.borrows[id];
    if borrow.userId != user.value.id && !user.value.isLibrarian {
      return Fail(PermissionDenied);
    }
    if borrow.status != Approved {
      return Fail(NotCurrentlyBorrowed);
    }
    out := Borrows.ReturnBook(db, id, now, promoteAt);
  }
}
