/** models/borrow.go: the lending ledger's state machine
    (pending -> approved -> returned, pending -> rejected) and the `available`
    counter of the book that each approval and return moves by one. */
module Borrows {
  import opened Common
  import opened Tables
  import opened Ledger
  import Reservations

  /** A loan is overdue when it is approved, has a due date, and `now` is
      after that date; the flag is computed on each read, never stored. */
  predicate IsOverdue(b: BorrowRow, now: Time) {
    b.status == Approved && b.dueDate.Some? && now > b.dueDate.value
  }

  /** Only an outstanding loan can be overdue, and once overdue it stays so
      while it is outstanding. */
  lemma OverdueOnlyWhileOnLoan(b: BorrowRow, now: Time, later: Time)
    requires IsOverdue(b, now) && now <= later
    ensures b.status == Approved && IsOverdue(b, later)
    ensures !IsOverdue(b.(status := Returned), later)
  {
  }

  /** `GetBorrowByUserAndBook`: with a status filter, some row of that user,
      book and status; without one, the most recently created row of that
      user and book. `None` when no row matches. */
  method GetBorrowByUserAndBook(db: Db, userId: int, bookId: int, status: Option<BorrowStatus>)
    returns (found: Option<int>)
    ensures found.None? <==>
      if status.Some? then !HasBorrow(db.borrows, userId, bookId, status.value)
      else !(exists id :: id in CreatedDates(db.borrows, userId, bookId))
    ensures found.Some? ==>
      var id := found.value;
      && id in db.borrows && db.borrows[id].userId == userId && db.borrows[id].bookId == bookId
      && (status.Some? ==> db.borrows[id].status == status.value)
      && (status.None? ==> IsArgMax(CreatedDates(db.borrows, userId, bookId), id))
  {
    if status.Some? {
      if HasBorrow(db.borrows, userId, bookId, status.value) {
        var id :| id in db.borrows && db.borrows[id].userId == userId && db.borrows[id].bookId == bookId
                  && db.borrows[id].status == status.value;
        return Some(id);
      }
      return None;
    }
    var dates := CreatedDates(db.borrows, userId, bookId);
    if exists id :: id in dates {
      ArgMaxExists(dates);
      var id :| IsArgMax(dates, id);
      return Some(id);
    }
    return None;
  }

  /** The rows of one user and book with their creation times. */
  function CreatedDates(borrows: map<int, BorrowRow>, userId: int, bookId: int): map<int, Time> {
    map id | id in borrows && borrows[id].userId == userId && borrows[id].bookId == bookId :: borrows[id].createdAt
  }

  /** `HasPendingBorrowRequest`. */
  method HasPendingBorrowRequest(db: Db, userId: int, bookId: int) returns (has: bool)
    ensures has <==> HasBorrow(db.borrows, userId, bookId, Pending)
  {
    var found := GetBorrowByUserAndBook(db, userId, bookId, Some(Pending));
    has := found.Some?;
  }

  /** `IsCurrentlyBorrowing` (through `GetCurrentBorrow`). */
  method IsCurrentlyBorrowing(db: Db, userId: int, bookId: int) returns (has: bool)
    ensures has <==> HasBorrow(db.borrows, userId, bookId, Approved)
  {
    var found := GetBorrowByUserAndBook(db, userId, bookId, Some(Approved));
    has := found.Some?;
  }

  /** The row `CreateBorrowRequest` inserts: pending, with no dates and no approver. */
  function NewRequest(userId: int, bookId: int, now: Time): BorrowRow {
    BorrowRow(userId, bookId, Pending, None, None, None, None, now, now)
  }

  /** `CreateBorrowRequest`: one new pending row; inventory is not touched. */
  method CreateBorrowRequest(db: Db, userId: int, bookId: int, now: Time) returns (out: Outcome)
    requires db.Valid()
    modifies db
    ensures db.Valid()
    ensures out == Pass
    ensures db.borrows == old(db.borrows)[old(db.nextBorrowId) := NewRequest(userId, bookId, now)]
    ensures old(db.nextBorrowId) !in old(db.borrows)
    ensures db.nextBorrowId == old(db.nextBorrowId) + 1
    ensures db.books == old(db.books) && db.reservations == old(db.reservations) && db.users == old(db.users)
    ensures db.nextBookId == old(db.nextBookId) && db.nextReservationId == old(db.nextReservationId)
    ensures db.nextUserId == old(db.nextUserId)
    ensures forall b :: LoanCount(db.borrows, b) == old(LoanCount(db.borrows, b))
  {
    LoanCountAfterInsertRequest(db.borrows, db.nextBorrowId, NewRequest(userId, bookId, now));
    db.borrows := db.borrows[db.nextBorrowId := NewRequest(userId, bookId, now)];
    db.nextBorrowId := db.nextBorrowId + 1;
    return Pass;
  }

  /** The ledger row after a successful approval. */
  function Approval(b: BorrowRow, approverId: int, dueDate: Time, now: Time): BorrowRow {
    b.(status := Approved, borrowDate := Some(now), dueDate := Some(dueDate),
       approvedBy := Some(approverId), updatedAt := now)
  }

  /** The ledger row after a successful return. */
  function Returning(b: BorrowRow, now: Time): BorrowRow {
    b.(status := Returned, returnDate := Some(now), updatedAt := now)
  }

  /** A book row with its `available` counter moved by `delta`. */
  function Adjusted(book: BookRow, delta: int, now: Time): BookRow {
    book.(available := book.available + delta, updatedAt := now)
  }

  /** Approving turns one pending row of a book into a loan and takes one
      copy off the shelf: for every book, `available + outstanding loans` is
      what it was. */
  lemma {:induction false} ApprovalKeepsHoldings(
    books: map<int, BookRow>, borrows: map<int, BorrowRow>, id: int, approverId: int, dueDate: Time, now: Time)
    requires id in borrows && borrows[id].status == Pending && borrows[id].bookId in books
    ensures var b := borrows[id];
            var books' := books[b.bookId := Adjusted(books[b.bookId], -1, now)];
            var borrows' := borrows[id := Approval(b, approverId, dueDate, now)];
            forall k :: k in books' ==>
              books'[k].available + LoanCount(borrows', k) == books[k].available + LoanCount(borrows, k)
  {
    var b := borrows[id];
    forall k {
      LoanCountAfterWrite(borrows, id, Approval(b, approverId, dueDate, now), k);
    }
  }

  /** Returning turns one loan of a book back into a shelf copy: for every
      book, `available + outstanding loans` is what it was. */
  lemma {:induction false} ReturnKeepsHoldings(
    books: map<int, BookRow>, borrows: map<int, BorrowRow>, id: int, now: Time)
    requires id in borrows && borrows[id].status == Approved
    ensures var b := borrows[id];
            var books' := if b.bookId in books then books[b.bookId := Adjusted(books[b.bookId], 1, now)] else books;
            var borrows' := borrows[id := Returning(b, now)];
            forall k :: k in books' ==>
              books'[k].available + LoanCount(borrows', k) == books[k].available + LoanCount(borrows, k)
  {
    var b := borrows[id];
    forall k {
      LoanCountAfterWrite(borrows, id, Returning(b, now), k);
    }
  }

  /** Approve then return brings the book's counter back to where it was,
      and the row ends `returned` with the approval's dates kept. */
  lemma ApproveThenReturnRestores(book: BookRow, b: BorrowRow, approverId: int, dueDate: Time, t1: Time, t2: Time)
    ensures Adjusted(Adjusted(book, -1, t1), 1, t2).available == book.available
    ensures var r := Returning(Approval(b, approverId, dueDate, t1), t2);
            r.status == Returned && r.borrowDate == Some(t1) && r.dueDate == Some(dueDate)
            && r.returnDate == Some(t2) && r.userId == b.userId && r.bookId == b.bookId
  {
  }

  /** `ApproveBorrow`, one transaction: the request must exist and be
      pending, its book must exist and have a copy available; then the row
      becomes an approved loan and the book loses one available copy. */
  method ApproveBorrow(db: Db, id: int, approverId: int, dueDate: Time, now: Time) returns (out: Outcome)
    requires db.Valid()
    modifies db
    ensures db.Valid()
    ensures out == (
      if id !in old(db.borrows) then Fail(BorrowNotFound)
      else if old(db.borrows[id].status) != Pending then Fail(NotPending)
      else if old(db.borrows[id].bookId) !in old(db.books) then Fail(BookNotFound)
      else if old(db.books[db.borrows[id].bookId].available) <= 0 then Fail(NoCopiesAvailable)
      else Pass)
    ensures out.Fail? ==> unchanged(db)
    ensures out.Pass? ==>
      var b := old(db.borrows[id]);
      && db.borrows == old(db.borrows)[id := Approval(b, approverId, dueDate, now)]
      && db.books == old(db.books)[b.bookId := Adjusted(old(db.books[b.bookId]), -1, now)]
      && db.reservations == old(db.reservations) && db.users == old(db.users)
      && db.nextBookId == old(db.nextBookId) && db.nextBorrowId == old(db.nextBorrowId)
      && db.nextReservationId == old(db.nextReservationId) && db.nextUserId == old(db.nextUserId)
    ensures forall k :: k in db.books ==>
      k in old(db.books) && db.books[k].available + LoanCount(db.borrows, k)
                            == old(db.books[k].available + LoanCount(db.borrows, k))
  {
    if id !in db.borrows {
      return Fail(BorrowNotFound);
    }
    var b := db.borrows[id];
    if b.status != Pending {
      return Fail(NotPending);
    }
    if b.bookId !in db.books {
      return Fail(BookNotFound);
    }
    if db.books[b.bookId].available <= 0 {
      return Fail(NoCopiesAvailable);
    }
    ApprovalKeepsHoldings(db.books, db.borrows, id, approverId, dueDate, now);
    db.borrows := db.borrows[id := Approval(b, approverId, dueDate, now)];
    db.books := db.books[b.bookId := Adjusted(db.books[b.bookId], -1, now)];
    return Pass;
  }

  /** `RejectBorrow`: one conditional UPDATE. A pending row becomes rejected
      with the approver recorded; a missing or non-pending row matches
      nothing, which is not an error. */
  method RejectBorrow(db: Db, id: int, approverId: int, now: Time) returns (out: Outcome)
    requires db.Valid()
    modifies db
    ensures db.Valid()
    ensures out == Pass
    ensures id in old(db.borrows) && old(db.borrows[id].status) == Pending ==>
      db.borrows == old(db.borrows)[id := old(db.borrows[id]).(status := Rejected, approvedBy := Some(approverId), updatedAt := now)]
    ensures !(id in old(db.borrows) && old(db.borrows[id].status) == Pending) ==> db.borrows == old(db.borrows)
    ensures db.books == old(db.books) && db.reservations == old(db.reservations) && db.users == old(db.users)
    ensures db.nextBookId == old(db.nextBookId) && db.nextBorrowId == old(db.nextBorrowId)
    ensures db.nextReservationId == old(db.nextReservationId) && db.nextUserId == old(db.nextUserId)
    ensures forall k :: LoanCount(db.borrows, k) == old(LoanCount(db.borrows, k))
  {
    if id in db.borrows && db.borrows[id].status == Pending {
      var r := db.borrows[id].(status := Rejected, approvedBy := Some(approverId), updatedAt := now);
      forall k ensures LoanCount(db.borrows[id := r], k) == LoanCount(db.borrows, k) {
        LoanCountAfterWrite(db.borrows, id, r, k);
      }
      db.borrows := db.borrows[id := r];
    }
    return Pass;
  }

  /** The transaction inside `ReturnBook`: the row must exist and be an
      approved loan; it becomes returned and its book regains one copy. The
      book row is updated by id, so a missing book row is simply not
      updated. `bookId` is the book of the returned loan. */
  method ReturnTransaction(db: Db, id: int, now: Time) returns (out: Outcome, bookId: int)
    requires db.Valid()
    modifies db
    ensures db.Valid()
    ensures out == (
      if id !in old(db.borrows) then Fail(BorrowNotFound)
      else if old(db.borrows[id].status) != Approved then Fail(NotCurrentlyBorrowed)
      else Pass)
    ensures out.Fail? ==> unchanged(db)
    ensures out.Pass? ==>
      var b := old(db.borrows[id]);
      && bookId == b.bookId
      && db.borrows == old(db.borrows)[id := Returning(b, now)]
      && db.books == (if b.bookId in old(db.books)
                      then old(db.books)[b.bookId := Adjusted(old(db.books[b.bookId]), 1, now)]
                      else old(db.books))
      && db.reservations == old(db.reservations) && db.users == old(db.users)
      && db.nextBookId == old(db.nextBookId) && db.nextBorrowId == old(db.nextBorrowId)
      && db.nextReservationId == old(db.nextReservationId) && db.nextUserId == old(db.nextUserId)
    ensures forall k :: k in db.books ==>
      k in old(db.books) && db.books[k].available + LoanCount(db.borrows, k)
                            == old(db.books[k].available + LoanCount(db.borrows, k))
  {
    bookId := 0;
    if id !in db.borrows {
      return Fail(BorrowNotFound), bookId;
    }
    var b := db.borrows[id];
    bookId := b.bookId;
    if b.status != Approved {
      return Fail(NotCurrentlyBorrowed), bookId;
    }
    ReturnKeepsHoldings(db.books, db.borrows, id, now);
    db.borrows := db.borrows[id := Returning(b, now)];
    if b.bookId in db.books {
      db.books := db.books[b.bookId := Adjusted(db.books[b.bookId], 1, now)];
    }
    return Pass, bookId;
  }

  /** `ReturnBook`: the return transaction, then (once it has committed)
      reservation promotion for the book, run over the state the return
      left, whose outcome is discarded.
      `promoteAt` is the time at which the background promotion runs. The
      return's own result and inventory effect do not depend on promotion:
      promotion never touches `available`, never changes an existing ledger
      row, and only adds a pending request. */
  method ReturnBook(db: Db, id: int, now: Time, promoteAt: Time) returns (out: Outcome)
    requires db.Valid()
    modifies db
    ensures db.Valid()
    ensures out == (
      if id !in old(db.borrows) then Fail(BorrowNotFound)
      else if old(db.borrows[id].status) != Approved then Fail(NotCurrentlyBorrowed)
      else Pass)
    ensures out.Fail? ==> unchanged(db)
    ensures out.Pass? ==>
      var b := old(db.borrows[id]);
      && db.books == (if b.bookId in old(db.books)
                      then old(db.books)[b.bookId := Adjusted(old(db.books[b.bookId]), 1, now)]
                      else old(db.books))
      && id in db.borrows && db.borrows[id] == Returning(b, now)
      && (forall k :: k in old(db.borrows) && k != id ==> k in db.borrows && db.borrows[k] == old(db.borrows[k]))
      && (forall k :: k in db.borrows && k !in old(db.borrows) ==>
            db.borrows[k].bookId == b.bookId && db.borrows[k].status == Pending)
      && db.users == old(db.users)
      && Reservations.PromotionEffect(
           old(db.reservations), old(db.borrows)[id := Returning(b, now)], old(db.nextBorrowId), b.bookId,
           if b.bookId in old(db.books) then Some(old(db.books[b.bookId].available) + 1) else None,
           promoteAt, db.reservations, db.borrows, db.nextBorrowId)
    ensures forall k :: k in db.books ==>
      k in old(db.books) && db.books[k].available + LoanCount(db.borrows, k)
                            == old(db.books[k].available + LoanCount(db.borrows, k))
    ensures db.nextBookId == old(db.nextBookId) && db.nextReservationId == old(db.nextReservationId)
    ensures db.nextUserId == old(db.nextUserId)
  {
    var bookId;
    out, bookId := ReturnTransaction(db, id, now);
    if out.Pass? {
      ghost var borrowsBefore := db.borrows;
      ghost var next := db.nextBorrowId;
      var _, promoted := Reservations.ProcessReservationsForBook(db, bookId, promoteAt);
      if promoted.Some? {
        LoanCountAfterInsertRequest(borrowsBefore, next, db.borrows[next]);
      }
    }
  }
}
