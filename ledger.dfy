/** Read-only questions about the `borrows` table that several source files
    ask (borrow.go, reservation.go, book.go, user_controller.go), and the
    inventory arithmetic that ties a book's `available` counter to its
    outstanding (approved) loans. */
module Ledger {
  import opened Common
  import opened Tables

  /** Some ledger row of `userId` for `bookId` has `status`: the WHERE clause
      of `GetBorrowByUserAndBook` and of the `COUNT(*)` in `ReserveBook`. */
  predicate HasBorrow(borrows: map<int, BorrowRow>, userId: int, bookId: int, status: BorrowStatus) {
    exists id :: id in borrows && borrows[id].userId == userId && borrows[id].bookId == bookId
                 && borrows[id].status == status
  }

  /** Some ledger row of `userId`, for any book, has `status`: a non-empty
      `GetActiveUserBorrows` (approved) or `GetPendingUserBorrows` (pending). */
  predicate UserHasBorrow(borrows: map<int, BorrowRow>, userId: int, status: BorrowStatus) {
    exists id :: id in borrows && borrows[id].userId == userId && borrows[id].status == status
  }

  /** A row that is an outstanding loan of `bookId`. */
  predicate IsLoanOf(row: BorrowRow, bookId: int) {
    row.bookId == bookId && row.status == Approved
  }

  /** The ids of the outstanding loans of a book. */
  function OutstandingLoans(borrows: map<int, BorrowRow>, bookId: int): set<int> {
    set id | id in borrows && IsLoanOf(borrows[id], bookId)
  }

  /** How many copies of a book are out on approved loans. */
  function LoanCount(borrows: map<int, BorrowRow>, bookId: int): nat {
    |OutstandingLoans(borrows, bookId)|
  }

  /** Writing one ledger row (an update or an insert) moves a book's loan
      count by at most one: minus one if the old row was a loan of the book,
      plus one if the new row is. */
  lemma {:induction false} LoanCountAfterWrite(borrows: map<int, BorrowRow>, id: int, row: BorrowRow, bookId: int)
    ensures LoanCount(borrows[id := row], bookId)
            == LoanCount(borrows, bookId)
               - (if id in borrows && IsLoanOf(borrows[id], bookId) then 1 else 0)
               + (if IsLoanOf(row, bookId) then 1 else 0)
  {
    var before := OutstandingLoans(borrows, bookId);
    var after := OutstandingLoans(borrows[id := row], bookId);
    var common := before - {id};
    assert after - {id} == common;
    if id in before {
      assert before == common + {id};
      assert |before| == |common| + 1;
    } else {
      assert before == common;
    }
    if id in after {
      assert after == common + {id};
      assert |after| == |common| + 1;
    } else {
      assert after == common;
    }
  }

  /** Inserting a row that is not a loan (a new pending request) leaves every
      book's loan count as it was. */
  lemma LoanCountAfterInsertRequest(borrows: map<int, BorrowRow>, id: int, row: BorrowRow)
    requires id !in borrows && row.status != Approved
    ensures forall b :: LoanCount(borrows[id := row], b) == LoanCount(borrows, b)
  {
    forall b ensures LoanCount(borrows[id := row], b) == LoanCount(borrows, b) {
      LoanCountAfterWrite(borrows, id, row, b);
    }
  }
}
