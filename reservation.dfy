/** models/reservation.go: the per-book reservation queue (reserve, cancel,
    promote the oldest on return, expiry sweep) and the `NullTime` column
    codec. */
module Reservations {
  import opened Common
  import opened Tables
  import opened Ledger

  /** `time.Time{}`, the zero time. */
  const ZeroTime: Time := 0

  /** What the database driver hands to a `Scan` and takes from a `Value`:
      SQL NULL, a timestamp, or a value of some other Go type. */
  datatype DbValue = Null | TimeValue(t: Time) | OtherValue(goType: string)

  /** A timestamp column that may be NULL. */
  class NullTime {
    var time: Time
    var valid: bool

    constructor (time: Time, valid: bool)
      ensures this.time == time && this.valid == valid
    {
      this.time := time;
      this.valid := valid;
    }

    /** `sql.Scanner`: NULL clears the receiver; a timestamp is stored; any
        other value is refused, after `Valid` has already been set. */
    method Scan(value: DbValue) returns (out: Outcome)
      modifies this
      ensures value.Null? ==> out == Pass && time == ZeroTime && !valid
      ensures value.TimeValue? ==> out == Pass && time == value.t && valid
      ensures value.OtherValue? ==> out == Fail(CannotScan) && time == old(time) && valid
    {
      if value == Null {
        time, valid := ZeroTime, false;
        return Pass;
      }
      valid := true;
      if value.TimeValue? {
        time := value.t;
      } else {
        return Fail(CannotScan);
      }
      return Pass;
    }

    /** `driver.Valuer`: NULL exactly when the receiver is not valid. */
    function Value(): (v: DbValue)
      reads this
      ensures v == Null <==> !valid
      ensures v.TimeValue? ==> v.t == time
      ensures !v.OtherValue?
    {
      if !valid then Null else TimeValue(time)
    }
  }

  /** Writing a `NullTime` out and scanning it back into a fresh one succeeds
      and gives back the same value; an invalid one comes back as the zero
      time. */
  method ScanValueRoundTrip(time: Time, valid: bool) returns (out: Outcome, time': Time, valid': bool)
    ensures out == Pass
    ensures valid' == valid
    ensures time' == if valid then time else ZeroTime
  {
    var src := new NullTime(time, valid);
    var dst := new NullTime(ZeroTime, false);
    out := dst.Scan(src.Value());
    time', valid' := dst.time, dst.valid;
  }

  /** Scanning a value that is neither NULL nor a timestamp always fails. */
  method ScanRejectsOther(goType: string, time: Time, valid: bool) returns (out: Outcome, valid': bool)
    ensures out == Fail(CannotScan)
    ensures valid'
  {
    var nt := new NullTime(time, valid);
    out := nt.Scan(OtherValue(goType));
    valid' := nt.valid;
  }

  /** The wait list of a book: its active reservations, keyed by id, with
      their reservation dates (the queue is ordered by date). */
  function Queue(rs: map<int, ReservationRow>, bookId: int): map<int, Time> {
    map id | id in rs && rs[id].bookId == bookId && rs[id].status == Active :: rs[id].reservationDate
  }

  predicate HasActiveReservation(rs: map<int, ReservationRow>, userId: int, bookId: int) {
    exists id :: id in rs && rs[id].userId == userId && rs[id].bookId == bookId && rs[id].status == Active
  }

  /** The reservation `ReserveBook` inserts. */
  function NewReservation(userId: int, bookId: int, now: Time): ReservationRow {
    ReservationRow(userId, bookId, Active, now, now + FourteenDays, None, now, now)
  }

  /** `ReserveBook`: only for a book with no copy available, and only when
      the user neither holds an active reservation nor an approved loan of
      it; then one active reservation expiring in 14 days is added. */
  method ReserveBook(db: Db, userId: int, bookId: int, now: Time) returns (out: Outcome)
    requires db.Valid()
    modifies db
    ensures db.Valid()
    ensures out == (
      if bookId !in old(db.books) then Fail(BookNotFound)
      else if old(db.books[bookId].available) > 0 then Fail(BookIsAvailable)
      else if HasActiveReservation(old(db.reservations), userId, bookId) then Fail(AlreadyReserved)
      else if HasBorrow(old(db.borrows), userId, bookId, Approved) then Fail(CurrentlyBorrowing)
      else Pass)
    ensures out.Fail? ==> unchanged(db)
    ensures out.Pass? ==>
      && db.reservations == old(db.reservations)[old(db.nextReservationId) := NewReservation(userId, bookId, now)]
      && db.nextReservationId == old(db.nextReservationId) + 1
      && db.books == old(db.books) && db.borrows == old(db.borrows) && db.users == old(db.users)
      && db.nextBookId == old(db.nextBookId) && db.nextBorrowId == old(db.nextBorrowId)
      && db.nextUserId == old(db.nextUserId)
  {
    if bookId !in db.books {
      return Fail(BookNotFound);
    }
    if db.books[bookId].available > 0 {
      return Fail(BookIsAvailable);
    }
    if HasActiveReservation(db.reservations, userId, bookId) {
      return Fail(AlreadyReserved);
    }
    if HasBorrow(db.borrows, userId, bookId, Approved) {
      return Fail(CurrentlyBorrowing);
    }
    db.reservations := db.reservations[db.nextReservationId := NewReservation(userId, bookId, now)];
    db.nextReservationId := db.nextReservationId + 1;
    return Pass;
  }

  /** `CancelReservation`: only the owner's reservation is found, and only an
      active one can be cancelled; nothing but its status changes. */
  method CancelReservation(db: Db, id: int, userId: int, now: Time) returns (out: Outcome)
    requires db.Valid()
    modifies db
    ensures db.Valid()
    ensures out == (
      if id !in old(db.reservations) || old(db.reservations[id].userId) != userId then Fail(ReservationNotFound)
      else if old(db.reservations[id].status) != Active then Fail(ReservationNotActive)
      else Pass)
    ensures out.Fail? ==> unchanged(db)
    ensures out.Pass? ==>
      && db.reservations == old(db.reservations)[id := old(db.reservations[id]).(status := Cancelled, updatedAt := now)]
      && db.books == old(db.books) && db.borrows == old(db.borrows) && db.users == old(db.users)
      && db.nextBookId == old(db.nextBookId) && db.nextBorrowId == old(db.nextBorrowId)
      && db.nextReservationId == old(db.nextReservationId) && db.nextUserId == old(db.nextUserId)
  {
    if id !in db.reservations || db.reservations[id].userId != userId {
      return Fail(ReservationNotFound);
    }
    if db.reservations[id].status != Active {
      return Fail(ReservationNotActive);
    }
    db.reservations := db.reservations[id := db.reservations[id].(status := Cancelled, updatedAt := now)];
    return Pass;
  }

  /** The pending request that promotion files for the reservation's user. */
  function PromotedRequest(userId: int, bookId: int, now: Time): BorrowRow {
    BorrowRow(userId, bookId, Pending, Some(now), Some(now + FourteenDays), None, None, now, now)
  }

  /** What promotion for `bookId` does to the reservations and the ledger,
      given the book's shelf count (`None` for a missing book) and the next
      ledger id: with a copy on the shelf and a non-empty wait list, an
      oldest active reservation becomes fulfilled at `at` and one pending
      request is filed for its user under `next`, and the ledger counter
      `next'` moves past it; otherwise nothing changes. */
  ghost predicate PromotionEffect(
    rs: map<int, ReservationRow>, borrows: map<int, BorrowRow>, next: int, bookId: int,
    shelf: Option<int>, at: Time, rs': map<int, ReservationRow>, borrows': map<int, BorrowRow>, next': int)
  {
    if shelf.Some? && shelf.value > 0 && (exists id :: id in Queue(rs, bookId)) then
      && (exists rid :: IsArgMin(Queue(rs, bookId), rid)
            && rs' == rs[rid := rs[rid].(status := Fulfilled, fulfilledDate := Some(at), updatedAt := at)]
            && borrows' == borrows[next := PromotedRequest(rs[rid].userId, bookId, at)])
      && next' == next + 1
    else
      rs' == rs && borrows' == borrows && next' == next
  }

  /** `ProcessReservationsForBook`: when the book has a copy available and a
      non-empty wait list, the head of the list (an oldest active
      reservation) is fulfilled and a pending borrow request is filed for its
      user. The book's `available` is never touched. The ghost result names
      the promoted reservation. */
  method ProcessReservationsForBook(db: Db, bookId: int, now: Time) returns (out: Outcome, ghost promoted: Option<int>)
    requires db.Valid()
    modifies db
    ensures db.Valid()
    ensures db.books == old(db.books) && db.users == old(db.users)
    ensures db.nextBookId == old(db.nextBookId) && db.nextReservationId == old(db.nextReservationId)
    ensures db.nextUserId == old(db.nextUserId)
    ensures out == if bookId in old(db.books) then Pass else Fail(BookNotFound)
    ensures promoted.None? <==>
      bookId !in old(db.books) || old(db.books[bookId].available) <= 0
      || !(exists id :: id in Queue(old(db.reservations), bookId))
    ensures promoted.None? ==> unchanged(db)
    ensures promoted.Some? ==>
      var rid := promoted.value;
      && IsArgMin(Queue(old(db.reservations), bookId), rid)
      && db.reservations == old(db.reservations)[rid :=
           old(db.reservations[rid]).(status := Fulfilled, fulfilledDate := Some(now), updatedAt := now)]
      && db.borrows == old(db.borrows)[old(db.nextBorrowId) :=
           PromotedRequest(old(db.reservations[rid].userId), bookId, now)]
      && db.nextBorrowId == old(db.nextBorrowId) + 1
    ensures PromotionEffect(old(db.reservations), old(db.borrows), old(db.nextBorrowId), bookId,
                            if bookId in old(db.books) then Some(old(db.books[bookId].available)) else None,
                            now, db.reservations, db.borrows, db.nextBorrowId)
  {
    promoted := None;
    if bookId !in db.books {
      return Fail(BookNotFound), promoted;
    }
    if db.books[bookId].available <= 0 {
      return Pass, promoted;
    }
    var queue := Queue(db.reservations, bookId);
    if !(exists id :: id in queue) {
      return Pass, promoted;
    }
    ArgMinExists(queue);
    var rid :| IsArgMin(queue, rid);
    var userId := db.reservations[rid].userId;
    db.reservations := db.reservations[rid :=
      db.reservations[rid].(status := Fulfilled, fulfilledDate := Some(now), updatedAt := now)];
    db.borrows := db.borrows[db.nextBorrowId := PromotedRequest(userId, bookId, now)];
    db.nextBorrowId := db.nextBorrowId + 1;
    promoted := Some(rid);
    return Pass, promoted;
  }

  /** Promotion serves the wait list first come, first served: it removes at
      most one reservation from the book's list, every reservation still
      waiting was made no earlier than the one removed, and the wait lists
      of other books are untouched. */
  lemma {:induction false} PromotionIsFifo(
    rs: map<int, ReservationRow>, borrows: map<int, BorrowRow>, next: int, bookId: int,
    shelf: Option<int>, at: Time, rs': map<int, ReservationRow>, borrows': map<int, BorrowRow>, next': int)
    requires PromotionEffect(rs, borrows, next, bookId, shelf, at, rs', borrows', next')
    ensures Queue(rs', bookId).Keys <= Queue(rs, bookId).Keys
    ensures forall p, q ::
      (p in Queue(rs, bookId) && p !in Queue(rs', bookId) && q in Queue(rs, bookId) && q !in Queue(rs', bookId))
      ==> p == q
    ensures forall p, k :: p in Queue(rs, bookId) && p !in Queue(rs', bookId) && k in Queue(rs', bookId) ==>
              rs[p].reservationDate <= rs'[k].reservationDate
    ensures forall b :: b != bookId ==> Queue(rs', b) == Queue(rs, b)
  {
    if shelf.Some? && shelf.value > 0 && (exists id :: id in Queue(rs, bookId)) {
      var rid :| IsArgMin(Queue(rs, bookId), rid)
        && rs' == rs[rid := rs[rid].(status := Fulfilled, fulfilledDate := Some(at), updatedAt := at)]
        && borrows' == borrows[next := PromotedRequest(rs[rid].userId, bookId, at)];
      var before, after := Queue(rs, bookId), Queue(rs', bookId);
      forall id ensures id in after <==> id in before && id != rid {
        if id != rid && id in rs {
          assert rs'[id] == rs[id];
        }
      }
      forall k | k in after ensures rs[rid].reservationDate <= rs'[k].reservationDate {
        assert k in before && rs'[k] == rs[k];
      }
      forall b | b != bookId ensures Queue(rs', b) == Queue(rs, b) {
        forall id ensures id in Queue(rs', b) <==> id in Queue(rs, b) {
          if id in rs && id != rid {
            assert rs'[id] == rs[id];
          }
        }
      }
    }
  }

  /** The reservations the sweep turns to expired: active and past expiry. */
  function Overdue(rs: map<int, ReservationRow>, now: Time): set<int> {
    set id | id in rs && rs[id].status == Active && rs[id].expiryDate < now
  }

  /** The reservations table after the expiry sweep at `now`. */
  function Swept(rs: map<int, ReservationRow>, now: Time): (r: map<int, ReservationRow>)
    ensures r.Keys == rs.Keys
    ensures forall id :: id in Overdue(rs, now) ==> r[id].status == Expired
    ensures forall id :: id in rs && id !in Overdue(rs, now) ==> r[id] == rs[id]
  {
    map id | id in rs :: if id in Overdue(rs, now) then rs[id].(status := Expired, updatedAt := now) else rs[id]
  }

  /** The sweep is idempotent: run again at the same time it finds nothing
      more to expire and changes nothing. */
  lemma {:induction false} SweepIdempotent(rs: map<int, ReservationRow>, now: Time)
    ensures Overdue(Swept(rs, now), now) == {}
    ensures Swept(Swept(rs, now), now) == Swept(rs, now)
  {
    var once := Swept(rs, now);
    forall id | id in once
      ensures id !in Overdue(once, now)
    {
      if id in Overdue(rs, now) {
        assert once[id].status == Expired;
      } else {
        assert once[id] == rs[id];
      }
    }
    assert Overdue(once, now) == {};
  }

  /** The sweep only ever removes reservations from a wait list, and never
      changes which book or user a reservation belongs to. */
  lemma SweepShrinksQueues(rs: map<int, ReservationRow>, now: Time, bookId: int)
    ensures Queue(Swept(rs, now), bookId).Keys <= Queue(rs, bookId).Keys
    ensures forall id :: id in Queue(rs, bookId) && id !in Overdue(rs, now) ==> id in Queue(Swept(rs, now), bookId)
  {
  }

  /** `CleanExpiredReservations`: one UPDATE over the whole table. */
  method CleanExpiredReservations(db: Db, now: Time)
    requires db.Valid()
    modifies db
    ensures db.Valid()
    ensures db.reservations == Swept(old(db.reservations), now)
    ensures db.books == old(db.books) && db.borrows == old(db.borrows) && db.users == old(db.users)
    ensures db.nextBookId == old(db.nextBookId) && db.nextBorrowId == old(db.nextBorrowId)
    ensures db.nextReservationId == old(db.nextReservationId) && db.nextUserId == old(db.nextUserId)
  {
    db.reservations := Swept(db.reservations, now);
  }
}
