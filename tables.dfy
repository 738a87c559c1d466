/** The relational store: four keyed tables and their SERIAL id counters.
    Every model function of the library reads or writes these maps; a
    transaction that fails leaves them untouched, so each operation is one
    atomic method on `Db`'s fields. */
module Tables {
  import opened Common

  datatype BorrowStatus = Pending | Approved | Rejected | Returned

  datatype ReservationStatus = Active | Fulfilled | Cancelled | Expired

  /** A row of `books`. */
  datatype BookRow = BookRow(
    title: string, author: string, isbn: string, publisher: string,
    publicationYear: int, category: string, description: string,
    quantity: int, available: int, addedBy: Option<int>,
    createdAt: Time, updatedAt: Time)

  /** A row of `borrows`, the lending ledger. */
  datatype BorrowRow = BorrowRow(
    userId: int, bookId: int, status: BorrowStatus,
    borrowDate: Option<Time>, dueDate: Option<Time>, returnDate: Option<Time>,
    approvedBy: Option<int>, createdAt: Time, updatedAt: Time)

  /** A row of `reservations`, the per-book wait list. */
  datatype ReservationRow = ReservationRow(
    userId: int, bookId: int, status: ReservationStatus,
    reservationDate: Time, expiryDate: Time, fulfilledDate: Option<Time>,
    createdAt: Time, updatedAt: Time)

  /** A row of `users`. */
  datatype UserRow = UserRow(
    name: string, email: string, passwordHash: string, role: string,
    studentId: Option<string>, phone: Option<string>,
    createdAt: Time, updatedAt: Time)

  /** Every key of `m` was handed out by a SERIAL counter now at `next`. */
  ghost predicate KeysBelow<V>(m: map<int, V>, next: int) {
    next >= 1 && forall id :: id in m ==> 1 <= id < next
  }

  /** The database behind `config.GetDB()`. */
  class Db {
    var books: map<int, BookRow>
    var borrows: map<int, BorrowRow>
    var reservations: map<int, ReservationRow>
    var users: map<int, UserRow>
    var nextBookId: int
    var nextBorrowId: int
    var nextReservationId: int
    var nextUserId: int

    ghost predicate Valid()
      reads this
    {
      && KeysBelow(books, nextBookId)
      && KeysBelow(borrows, nextBorrowId)
      && KeysBelow(reservations, nextReservationId)
      && KeysBelow(users, nextUserId)
    }

    constructor ()
      ensures Valid()
      ensures books == map[] && borrows == map[] && reservations == map[] && users == map[]
    {
      books, borrows, reservations, users := map[], map[], map[], map[];
      nextBookId, nextBorrowId, nextReservationId, nextUserId := 1, 1, 1, 1;
    }
  }

  /** A map with a key whose value is no larger than any other: what
      `ORDER BY column ASC LIMIT 1` selects. */
  predicate IsArgMin(m: map<int, int>, k: int) {
    k in m && forall j :: j in m ==> m[k] <= m[j]
  }

  /** What `ORDER BY column DESC LIMIT 1` selects. */
  predicate IsArgMax(m: map<int, int>, k: int) {
    k in m && forall j :: j in m ==> m[j] <= m[k]
  }

  /** A non-empty finite table always has a row with the smallest key value. */
  lemma {:induction false} ArgMinExists(m: map<int, int>)
    requires exists k :: k in m
    ensures exists k :: IsArgMin(m, k)
    decreases |m|
  {
    var k0 :| k0 in m;
    var rest := m - {k0};
    assert forall j :: j in m && j != k0 ==> j in rest && rest[j] == m[j];
    if exists j :: j in rest {
      assert |rest| < |m| by { assert rest.Keys == m.Keys - {k0}; }
      ArgMinExists(rest);
      var k1 :| IsArgMin(rest, k1);
      if m[k0] <= m[k1] {
        assert IsArgMin(m, k0);
      } else {
        assert IsArgMin(m, k1);
      }
    } else {
      assert IsArgMin(m, k0);
    }
  }

  /** A non-empty finite table always has a row with the largest key value. */
  lemma {:induction false} ArgMaxExists(m: map<int, int>)
    requires exists k :: k in m
    ensures exists k :: IsArgMax(m, k)
    decreases |m|
  {
    var k0 :| k0 in m;
    var rest := m - {k0};
    assert forall j :: j in m && j != k0 ==> j in rest && rest[j] == m[j];
    if exists j :: j in rest {
      assert |rest| < |m| by { assert rest.Keys == m.Keys - {k0}; }
      ArgMaxExists(rest);
      var k1 :| IsArgMax(rest, k1);
      if m[k1] <= m[k0] {
        assert IsArgMax(m, k0);
      } else {
        assert IsArgMax(m, k1);
      }
    } else {
      assert IsArgMax(m, k0);
    }
  }
}
