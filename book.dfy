/** models/book.go: the catalog. `Book` is the in-memory record a handler
    loads, edits and writes back; the queries are predicates and counts over
    the `books` and `borrows` tables. */
module Books {
  import opened Common
  import opened GoText
  import opened Tables
  import opened Ledger

  /** The Go `Book` struct, with the three alias fields kept for templates. */
  class Book {
    var id: int
    var title: string
    var author: string
    var isbn: string
    var publisher: string
    var publicationYear: int
    var category: string
    var genre: string
    var description: string
    var quantity: int
    var available: int
    var availableCopy: int
    var totalCopies: int
    var addedBy: Option<int>
    var createdAt: Time
    var updatedAt: Time

    /** A struct literal carrying the columns of `row`; id and aliases zero. */
    constructor (row: BookRow)
      ensures Row() == row && id == 0
      ensures genre == "" && availableCopy == 0 && totalCopies == 0
    {
      id := 0;
      title, author, isbn, publisher := row.title, row.author, row.isbn, row.publisher;
      publicationYear, category, description := row.publicationYear, row.category, row.description;
      quantity, available, addedBy := row.quantity, row.available, row.addedBy;
      createdAt, updatedAt := row.createdAt, row.updatedAt;
      genre, availableCopy, totalCopies := "", 0, 0;
    }

    /** The table columns this struct holds. */
    function Row(): BookRow
      reads this
    {
      BookRow(title, author, isbn, publisher, publicationYear, category, description,
              quantity, available, addedBy, createdAt, updatedAt)
    }

    /** `SetAliasFields`: copy category, available and quantity into their
        template aliases and touch nothing else. */
    method SetAliasFields()
      modifies this
      ensures genre == category && availableCopy == available && totalCopies == quantity
      ensures Row() == old(Row()) && id == old(id)
    {
      genre := category;
      availableCopy := available;
      totalCopies := quantity;
    }

    /** `Create`: INSERT ... RETURNING id, created_at, updated_at. */
    method Create(db: Db, now: Time) returns (out: Outcome)
      requires db.Valid()
      modifies this, db
      ensures db.Valid() && out == Pass
      ensures id == old(db.nextBookId) && id !in old(db.books)
      ensures createdAt == now && updatedAt == now
      ensures old(Row()).(createdAt := now, updatedAt := now) == Row()
      ensures db.books == old(db.books)[id := Row()]
      ensures db.nextBookId == old(db.nextBookId) + 1
      ensures db.borrows == old(db.borrows) && db.reservations == old(db.reservations) && db.users == old(db.users)
      ensures db.nextBorrowId == old(db.nextBorrowId) && db.nextReservationId == old(db.nextReservationId)
      ensures db.nextUserId == old(db.nextUserId)
    {
      id := db.nextBookId;
      createdAt, updatedAt := now, now;
      db.books := db.books[id := Row()];
      db.nextBookId := db.nextBookId + 1;
      return Pass;
    }

    /** `Update`: overwrite every column of the row with this id (keeping its
        creation time); an id with no row matches nothing. */
    method Update(db: Db, now: Time) returns (out: Outcome)
      requires db.Valid()
      modifies db
      ensures db.Valid() && out == Pass
      ensures id in old(db.books) ==>
        db.books == old(db.books)[id := Row().(createdAt := old(db.books[id].createdAt), updatedAt := now)]
      ensures id !in old(db.books) ==> db.books == old(db.books)
      ensures db.borrows == old(db.borrows) && db.reservations == old(db.reservations) && db.users == old(db.users)
      ensures db.nextBookId == old(db.nextBookId) && db.nextBorrowId == old(db.nextBorrowId)
      ensures db.nextReservationId == old(db.nextReservationId) && db.nextUserId == old(db.nextUserId)
    {
      if id in db.books {
        db.books := db.books[id := Row().(createdAt := db.books[id].createdAt, updatedAt := now)];
      }
      return Pass;
    }

    /** `Delete`: remove exactly the row with this id. */
    method Delete(db: Db) returns (out: Outcome)
      requires db.Valid()
      modifies db
      ensures db.Valid() && out == Pass
      ensures db.books == old(db.books) - {id}
      ensures db.borrows == old(db.borrows) && db.reservations == old(db.reservations) && db.users == old(db.users)
      ensures db.nextBookId == old(db.nextBookId) && db.nextBorrowId == old(db.nextBorrowId)
      ensures db.nextReservationId == old(db.nextReservationId) && db.nextUserId == old(db.nextUserId)
    {
      db.books := db.books - {id};
      return Pass;
    }
  }

  /** `GetBookByID`: a fresh struct holding the row, aliases set; an unknown
      id is "book not found". */
  method GetBookByID(db: Db, id: int) returns (book: Book?, out: Outcome)
    ensures id !in db.books ==> book == null && out == Fail(BookNotFound)
    ensures id in db.books ==>
      && out == Pass && book != null && fresh(book)
      && book.id == id && book.Row() == db.books[id]
      && book.genre == book.category && book.availableCopy == book.available
      && book.totalCopies == book.quantity
  {
    if id !in db.books {
      return null, Fail(BookNotFound);
    }
    book := new Book(db.books[id]);
    book.id := id;
    book.SetAliasFields();
    out := Pass;
  }

  /** `IsbnExists`: some book has this ISBN. */
  predicate IsbnExists(db: Db, isbn: string)
    reads db
  {
    exists id :: id in db.books && db.books[id].isbn == isbn
  }

  /** `IsbnExistsExcept`: some book other than `id` has this ISBN. */
  predicate IsbnExistsExcept(db: Db, isbn: string, id: int)
    reads db
  {
    exists other :: other in db.books && other != id && db.books[other].isbn == isbn
  }

  /** The two ISBN checks agree except on the excluded book itself: ignoring a
      book changes the answer only when that book is the sole holder of the ISBN. */
  lemma IsbnExistsExceptAgrees(db: Db, isbn: string, id: int)
    ensures IsbnExistsExcept(db, isbn, id) ==> IsbnExists(db, isbn)
    ensures IsbnExists(db, isbn) && !IsbnExistsExcept(db, isbn, id) ==>
      id in db.books && db.books[id].isbn == isbn
    ensures id !in db.books ==> (IsbnExistsExcept(db, isbn, id) <==> IsbnExists(db, isbn))
  {
  }

  /** No two books share an ISBN. */
  ghost predicate IsbnsUnique(books: map<int, BookRow>) {
    forall i, j :: i in books && j in books && books[i].isbn == books[j].isbn ==> i == j
  }

  /** Writing one row whose ISBN no other book carries keeps ISBNs unique:
      the guard of adding (no book has it) and of editing (no other book has
      it, or the ISBN did not change) both suffice. */
  lemma WriteKeepsIsbnsUnique(books: map<int, BookRow>, id: int, row: BookRow)
    requires IsbnsUnique(books)
    requires forall other :: other in books && other != id ==> books[other].isbn != row.isbn
    ensures IsbnsUnique(books[id := row])
  {
  }

  /** `HasActiveOrPendingBorrows`: some ledger row of the book is pending or approved. */
  predicate HasActiveOrPendingBorrows(db: Db, bookId: int)
    reads db
  {
    exists id :: id in db.borrows && db.borrows[id].bookId == bookId
                 && (db.borrows[id].status == Pending || db.borrows[id].status == Approved)
  }

  /** A book with neither a pending request nor an approved borrow has no
      copy out on loan and nobody waiting on a request for it. */
  lemma {:induction false} IdleBookHasNoLoans(db: Db, bookId: int)
    requires !HasActiveOrPendingBorrows(db, bookId)
    ensures LoanCount(db.borrows, bookId) == 0
    ensures forall userId :: !HasBorrow(db.borrows, userId, bookId, Pending)
  {
    forall k | k in db.borrows ensures !IsLoanOf(db.borrows[k], bookId) {
      assert !(db.borrows[k].bookId == bookId
               && (db.borrows[k].status == Pending || db.borrows[k].status == Approved));
    }
    assert forall k :: k !in OutstandingLoans(db.borrows, bookId);
    assert OutstandingLoans(db.borrows, bookId) == {};
  }

  /** The books with at least one copy on the shelf. */
  function AvailableBooks(books: map<int, BookRow>): set<int> {
    set id | id in books && books[id].available > 0
  }

  /** `CountAvailableBooks`: books, not copies, with `available > 0`. */
  function CountAvailableBooks(db: Db): (n: nat)
    reads db
    ensures n <= |db.books|
    ensures n == |db.books| <==> forall id :: id in db.books ==> db.books[id].available > 0
  {
    var s := AvailableBooks(db.books);
    assert s <= db.books.Keys;
    assert (forall id :: id in db.books ==> db.books[id].available > 0) ==> s == db.books.Keys;
    CardinalitySubset(s, db.books.Keys);
    |s|
  }

  /** A subset is no larger, and of equal size only when it is the whole set. */
  lemma {:induction false} CardinalitySubset(s: set<int>, t: set<int>)
    requires s <= t
    ensures |s| <= |t|
    ensures |s| == |t| <==> s == t
  {
    var d := t - s;
    assert t == s + d;
    assert |t| == |s| + |d|;
    if s != t {
      assert d != {};
    }
  }

  /** The search filter of `GetBooks`/`CountBooks`: no filter for an empty
      search, one column for title/author/isbn/category, otherwise any of
      title, author or ISBN. Pattern matching is a plain substring test. */
  predicate MatchesSearch(row: BookRow, search: string, searchBy: string) {
    if search == "" then true
    else if searchBy == "title" then Contains(row.title, search)
    else if searchBy == "author" then Contains(row.author, search)
    else if searchBy == "isbn" then Contains(row.isbn, search)
    else if searchBy == "category" then Contains(row.category, search)
    else Contains(row.title, search) || Contains(row.author, search) || Contains(row.isbn, search)
  }

  function Matching(books: map<int, BookRow>, search: string, searchBy: string): set<int> {
    set id | id in books && MatchesSearch(books[id], search, searchBy)
  }

  /** `CountBooks`. */
  function CountBooks(db: Db, search: string, searchBy: string): (n: nat)
    reads db
    ensures n <= |db.books|
    ensures search == "" ==> n == |db.books|
  {
    var s := Matching(db.books, search, searchBy);
    CardinalitySubset(s, db.books.Keys);
    if search == "" then
      assert forall id :: id in db.books ==> id in s;
      assert s == db.books.Keys;
      |s|
    else |s|
  }

  const PageSize: int := 10

  /** Code-point lexicographic order on titles (`ORDER BY title ASC`). */
  predicate TitleLeq(a: string, b: string) {
    a == [] || (b != [] && (a[0] < b[0] || (a[0] == b[0] && TitleLeq(a[1..], b[1..]))))
  }

  lemma {:induction false} TitleLeqTotal(a: string, b: string)
    ensures TitleLeq(a, b) || TitleLeq(b, a)
  {
    if a != [] && b != [] && a[0] == b[0] {
      TitleLeqTotal(a[1..], b[1..]);
    }
  }

  /** Book ids in ascending title order. */
  ghost predicate SortedByTitle(books: map<int, BookRow>, ids: seq<int>)
    requires forall i :: 0 <= i < |ids| ==> ids[i] in books
  {
    forall i :: 0 <= i < |ids| - 1 ==> TitleLeq(books[ids[i]].title, books[ids[i + 1]].title)
  }

  /** Insert one id into a title-sorted list. */
  function InsertByTitle(books: map<int, BookRow>, x: int, ids: seq<int>): (r: seq<int>)
    requires x in books && forall i :: 0 <= i < |ids| ==> ids[i] in books
    requires SortedByTitle(books, ids)
    ensures multiset(r) == multiset(ids) + multiset{x}
    ensures forall i :: 0 <= i < |r| ==> r[i] in books
    ensures SortedByTitle(books, r)
    ensures r[0] == x || (ids != [] && r[0] == ids[0])
  {
    if ids == [] then [x]
    else if TitleLeq(books[x].title, books[ids[0]].title) then [x] + ids
    else
      TitleLeqTotal(books[x].title, books[ids[0]].title);
      var rest := InsertByTitle(books, x, ids[1..]);
      assert ids == [ids[0]] + ids[1..];
      [ids[0]] + rest
  }

  /** Insertion sort by title: a sorted permutation of its input. */
  function SortByTitle(books: map<int, BookRow>, ids: seq<int>): (r: seq<int>)
    requires forall i :: 0 <= i < |ids| ==> ids[i] in books
    ensures multiset(r) == multiset(ids)
    ensures forall i :: 0 <= i < |r| ==> r[i] in books
    ensures SortedByTitle(books, r)
  {
    if ids == [] then []
    else
      assert ids == ids[..|ids| - 1] + [ids[|ids| - 1]];
      InsertByTitle(books, ids[|ids| - 1], SortByTitle(books, ids[..|ids| - 1]))
  }

  /** `LIMIT n OFFSET offset` on an ordered listing. */
  function Window(s: seq<int>, offset: nat, n: nat): (r: seq<int>)
    ensures |r| <= n && |r| <= |s|
    ensures forall i :: 0 <= i < |r| ==> offset + i < |s| && r[i] == s[offset + i]
    ensures offset + n <= |s| ==> |r| == n
    ensures offset >= |s| ==> r == []
  {
    if offset >= |s| then []
    else if offset + n <= |s| then s[offset..offset + n]
    else s[offset..]
  }

  /** `GetBooks`: the matching books ordered by title, page `page` of ten
      (offset `(page - 1) * 10`). A page below 1 gives a negative OFFSET,
      which the database refuses. `ordered` is the full ordered listing. */
  method GetBooks(db: Db, search: string, searchBy: string, page: int)
    returns (out: Result<seq<int>>, ghost ordered: seq<int>)
    ensures page < 1 ==> out == Err(NegativeOffset)
    ensures page >= 1 ==>
      && out.Ok?
      && (forall i :: 0 <= i < |ordered| ==> ordered[i] in db.books)
      && multiset(ordered) == multiset(Matching(db.books, search, searchBy))
      && SortedByTitle(db.books, ordered)
      && out.value == Window(ordered, (page - 1) * PageSize, PageSize)
  {
    ordered := [];
    if page < 1 {
      return Err(NegativeOffset), ordered;
    }
    var found: seq<int> := [];
    var todo := db.books.Keys;
    while exists k :: k in todo
      invariant todo <= db.books.Keys
      invariant forall i :: 0 <= i < |found| ==> found[i] in db.books
      invariant multiset(found) == multiset(Matching(db.books, search, searchBy) - todo)
      decreases |todo|
    {
      var k :| k in todo;
      if MatchesSearch(db.books[k], search, searchBy) {
        assert Matching(db.books, search, searchBy) - (todo - {k})
            == (Matching(db.books, search, searchBy) - todo) + {k};
        found := found + [k];
      } else {
        assert Matching(db.books, search, searchBy) - (todo - {k})
            == Matching(db.books, search, searchBy) - todo;
      }
      todo := todo - {k};
    }
    assert Matching(db.books, search, searchBy) - todo == Matching(db.books, search, searchBy);
    var sorted := SortByTitle(db.books, found);
    ordered := sorted;
    out := Ok(Window(sorted, (page - 1) * PageSize, PageSize));
  }
}
