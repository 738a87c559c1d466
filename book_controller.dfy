/** controllers/book_controller.go: the catalog handlers. Each handler is a
    chain of guards (login, role, URL id, form fields, ISBN, ledger) ending
    in one model write; a handler that stops at a guard writes nothing. The
    HTTP request is reduced to the signed-in user, the URL path and the form
    fields. */
module BookController {
  import opened Common
  import opened GoText
  import opened Tables
  import opened Ledger
  import opened Books
  import Borrows

  /** `BookList`'s page parameter: a page that does not parse or is below 1
      becomes 1; a valid page is kept. */
  function ListPage(param: string): (page: int)
    ensures page >= 1
    ensures Atoi(param).Some? && Atoi(param).value >= 1 ==> page == Atoi(param).value
    ensures Atoi(param).Some? && Atoi(param).value < 1 ==> page == 1
    ensures Atoi(param).None? ==> page == 1
  {
    match Atoi(param)
    case Some(p) => if p < 1 then 1 else p
    case None => 1
  }

  /** `(totalBooks + pageSize - 1) / pageSize`: the fewest pages of ten that
      hold every book; no page at all for no books. */
  function TotalPages(total: int): (n: int)
    ensures total >= 0 ==> n >= 0 && (n - 1) * PageSize < total <= n * PageSize
    ensures total >= 0 ==> (n == 0 <==> total == 0)
  {
    GoDiv(total + PageSize - 1, PageSize)
  }

  /** A page of a listing of `total` entries is non-empty exactly when its
      number is at most the page count the list handler shows. */
  lemma {:induction false} PageNonEmptyIffWithinTotal(total: nat, page: int)
    requires page >= 1
    ensures (page - 1) * PageSize < total <==> page <= TotalPages(total)
  {
    var n := TotalPages(total);
    if page <= n {
      assert (page - 1) * PageSize <= (n - 1) * PageSize;
    } else {
      assert (page - 1) * PageSize >= n * PageSize;
    }
  }

  /** `BookList`: the page parameter normalised, that page of the matching
      books in title order, and the page count of the matching books. */
  method BookList(db: Db, search: string, searchBy: string, pageParam: string)
    returns (books: seq<int>, page: int, totalPages: int)
    ensures page == ListPage(pageParam)
    ensures totalPages == TotalPages(CountBooks(db, search, searchBy))
    ensures |books| <= PageSize
    ensures forall i :: 0 <= i < |books| ==>
      books[i] in db.books && MatchesSearch(db.books[books[i]], search, searchBy)
    ensures books != [] <==> page <= totalPages
  {
    page := ListPage(pageParam);
    var listed, ordered := GetBooks(db, search, searchBy, page);
    books := listed.value;
    var matching := Matching(db.books, search, searchBy);
    assert |ordered| == |multiset(ordered)| == |multiset(matching)| == |matching|;
    forall i | 0 <= i < |books|
      ensures books[i] in db.books && MatchesSearch(db.books[books[i]], search, searchBy)
    {
      assert books[i] == ordered[(page - 1) * PageSize + i];
      assert books[i] in multiset(ordered);
    }
    totalPages := TotalPages(CountBooks(db, search, searchBy));
    PageNonEmptyIffWithinTotal(|ordered|, page);
  }

  const BooksPrefix: string := "/books/"

  /** `BookDetail`'s id: the path after "/books/", cut at the first '/',
      must parse to a positive integer. */
  function DetailId(path: string): (r: Option<int>)
    ensures r.Some? ==> 0 < r.value <= MaxInt
  {
    var idStr := TrimPrefix(path, BooksPrefix);
    var cut := if '/' in idStr then idStr[..IndexOf(idStr, '/')] else idStr;
    match Atoi(cut)
    case Some(id) => if id <= 0 then None else Some(id)
    case None => None
  }

  /** The id in an action URL such as `/books/{id}/edit` or
      `/borrows/{id}/return`: the path without `prefix` and without the
      action `suffix` must parse to a positive integer. */
  function PathId(path: string, prefix: string, suffix: string): (r: Option<int>)
    ensures r.Some? ==> 0 < r.value <= MaxInt
  {
    match Atoi(TrimSuffix(TrimPrefix(path, prefix), suffix))
    case Some(id) => if id <= 0 then None else Some(id)
    case None => None
  }

  /** The book links the handlers build with `"/books/" + strconv.Itoa(id)`
      lead back to that id, with or without a further path segment. */
  lemma {:induction false} DetailIdOfLink(id: int, rest: string)
    requires 0 < id <= MaxInt
    ensures DetailId(BooksPrefix + Itoa(id)) == Some(id)
    ensures DetailId(BooksPrefix + Itoa(id) + "/" + rest) == Some(id)
  {
    AtoiItoa(id);
    var d := Itoa(id);
    assert '/' !in d by {
      forall i | 0 <= i < |d| ensures d[i] != '/' { assert IsDigit(d[i]); }
    }
    assert TrimPrefix(BooksPrefix + d, BooksPrefix) == d;
    var longer := d + "/" + rest;
    assert BooksPrefix + d + "/" + rest == BooksPrefix + longer;
    assert TrimPrefix(BooksPrefix + longer, BooksPrefix) == longer;
    assert longer[|d|] == '/' && longer[..|d|] == d;
    assert IndexOf(longer, '/') == |d|;
  }

  /** The action links `prefix + strconv.Itoa(id) + suffix` lead back to that id. */
  lemma {:induction false} PathIdOfLink(id: int, prefix: string, suffix: string)
    requires 0 < id <= MaxInt
    ensures PathId(prefix + Itoa(id) + suffix, prefix, suffix) == Some(id)
  {
    AtoiItoa(id);
    var d := Itoa(id);
    assert prefix + d + suffix == prefix + (d + suffix);
    assert TrimPrefix(prefix + (d + suffix), prefix) == d + suffix;
    assert (d + suffix)[|d + suffix| - |suffix|..] == suffix;
    assert TrimSuffix(d + suffix, suffix) == d;
  }

  /** The fields of the add/edit book form, as submitted. */
  datatype BookForm = BookForm(
    title: string, author: string, isbn: string, publisher: string,
    publicationYear: string, category: string, description: string, quantity: string)

  predicate RequiredFieldsPresent(f: BookForm) {
    f.title != "" && f.author != "" && f.isbn != "" && f.quantity != ""
  }

  /** The add/edit form check: title, author, ISBN and quantity must be
      present, and the quantity must parse to a positive number, which is
      the result. */
  function ValidateBookForm(f: BookForm): (r: Result<int>)
    ensures r.Ok? <==> RequiredFieldsPresent(f) && Atoi(f.quantity).Some? && Atoi(f.quantity).value > 0
    ensures r.Ok? ==> r.value == Atoi(f.quantity).value && r.value > 0
    ensures r == Err(MissingFields) <==> !RequiredFieldsPresent(f)
    ensures r.Err? ==> r.error == MissingFields || r.error == InvalidQuantity
  {
    if !RequiredFieldsPresent(f) then Err(MissingFields)
    else match Atoi(f.quantity)
      case Some(q) => if q <= 0 then Err(InvalidQuantity) else Ok(q)
      case None => Err(InvalidQuantity)
  }

  /** The edit handler's new shelf count: the old one moved by the change in
      quantity, never below zero. */
  function NewAvailable(available: int, oldQuantity: int, newQuantity: int): (r: int)
    ensures r >= 0
    ensures r >= available + (newQuantity - oldQuantity)
    ensures r == 0 || r == available + (newQuantity - oldQuantity)
  {
    var n := available + (newQuantity - oldQuantity);
    if n < 0 then 0 else n
  }

  /** A shelf count that fit the old quantity fits the new one. */
  lemma NewAvailableBounds(available: int, oldQuantity: int, newQuantity: int)
    requires 0 <= available <= oldQuantity && newQuantity >= 0
    ensures 0 <= NewAvailable(available, oldQuantity, newQuantity) <= newQuantity
  {
  }

  /** With every copy either on the shelf or out on a loan before an edit,
      the same holds after it exactly when the clamp did not fire: lowering
      the quantity below the copies out on loan breaks the balance. */
  lemma EditBalanceIff(available: int, oldQuantity: int, newQuantity: int, loans: nat)
    requires available + loans == oldQuantity
    ensures NewAvailable(available, oldQuantity, newQuantity) + loans == newQuantity
            <==> newQuantity >= loans
  {
  }

  /** The row the add handler creates: shelf count equal to quantity, added
      by the signed-in librarian; an unreadable publication year is 0. */
  function AddedBook(f: BookForm, quantity: int, librarianId: int, now: Time): BookRow {
    BookRow(f.title, f.author, f.isbn, f.publisher, AtoiValue(f.publicationYear), f.category,
            f.description, quantity, quantity, Some(librarianId), now, now)
  }

  /** `AddBook` (POST). */
  method AddBook(db: Db, user: Option<Actor>, form: BookForm, now: Time) returns (out: Outcome)
    requires db.Valid()
    modifies db
    ensures db.Valid()
    ensures out == (
      if user.None? then Fail(NotLoggedIn)
      else if !user.value.isLibrarian then Fail(PermissionDenied)
      else if ValidateBookForm(form).Err? then Fail(ValidateBookForm(form).error)
      else if old(IsbnExists(db, form.isbn)) then Fail(IsbnTaken)
      else Pass)
    ensures out.Fail? ==> unchanged(db)
    ensures out.Pass? ==>
      var q := ValidateBookForm(form).value;
      && db.books == old(db.books)[old(db.nextBookId) := AddedBook(form, q, user.value.id, now)]
      && db.books[old(db.nextBookId)].available == db.books[old(db.nextBookId)].quantity > 0
      && db.borrows == old(db.borrows) && db.reservations == old(db.reservations)
      && db.users == old(db.users)
    ensures old(IsbnsUnique(db.books)) ==> IsbnsUnique(db.books)
    ensures db.nextBorrowId == old(db.nextBorrowId) && db.nextReservationId == old(db.nextReservationId)
    ensures db.nextUserId == old(db.nextUserId)
  {
    if user.None? {
      return Fail(NotLoggedIn);
    }
    if !user.value.isLibrarian {
      return Fail(PermissionDenied);
    }
    var valid := ValidateBookForm(form);
    if valid.Err? {
      return Fail(valid.error);
    }
    if IsbnExists(db, form.isbn) {
      return Fail(IsbnTaken);
    }
    var quantity := valid.value;
    var row := AddedBook(form, quantity, user.value.id, now);
    if IsbnsUnique(db.books) {
      WriteKeepsIsbnsUnique(db.books, db.nextBookId, row);
    }
    var book := new Book(row);
    out := book.Create(db, now);
  }

  /** The row after a successful edit: the form's fields, the new quantity,
      the recomputed shelf count; creator and creation time kept. */
  function EditedBook(old_: BookRow, f: BookForm, quantity: int, now: Time): BookRow {
    old_.(title := f.title, author := f.author, isbn := f.isbn, publisher := f.publisher,
          publicationYear := AtoiValue(f.publicationYear), category := f.category,
          description := f.description, quantity := quantity,
          available := NewAvailable(old_.available, old_.quantity, quantity), updatedAt := now)
  }

  /** The edit handler's in-place assignment of the form to the loaded
      struct, with the recomputed shelf count. */
  method ApplyBookForm(book: Book, form: BookForm, quantity: int)
    modifies book
    ensures book.Row() == old(book.Row()).(title := form.title, author := form.author, isbn := form.isbn,
      publisher := form.publisher, publicationYear := AtoiValue(form.publicationYear),
      category := form.category, description := form.description, quantity := quantity,
      available := NewAvailable(old(book.available), old(book.quantity), quantity))
    ensures book.id == old(book.id)
  {
    var newAvailable := NewAvailable(book.available, book.quantity, quantity);
    book.title, book.author, book.isbn, book.publisher := form.title, form.author, form.isbn, form.publisher;
    book.publicationYear, book.category, book.description := AtoiValue(form.publicationYear), form.category, form.description;
    book.quantity, book.available := quantity, newAvailable;
  }

  /** `EditBook` (POST). The ISBN is checked against the other books only
      when it changed. */
  method EditBook(db: Db, user: Option<Actor>, path: string, form: BookForm, now: Time)
    returns (out: Outcome)
    requires db.Valid()
    modifies db
    ensures db.Valid()
    ensures var id := PathId(path, BooksPrefix, "/edit");
      out == (
      if user.None? then Fail(NotLoggedIn)
      else if !user.value.isLibrarian then Fail(PermissionDenied)
      else if id.None? then Fail(InvalidId)
      else if id.value !in old(db.books) then Fail(BookNotFound)
      else if ValidateBookForm(form).Err? then Fail(ValidateBookForm(form).error)
      else if form.isbn != old(db.books[id.value].isbn) && old(IsbnExistsExcept(db, form.isbn, id.value))
        then Fail(IsbnTaken)
      else Pass)
    ensures out.Fail? ==> unchanged(db)
    ensures out.Pass? ==>
      var id := PathId(path, BooksPrefix, "/edit").value;
      && db.books == old(db.books)[id := EditedBook(old(db.books[id]), form, ValidateBookForm(form).value, now)]
      && db.borrows == old(db.borrows) && db.reservations == old(db.reservations)
      && db.users == old(db.users)
    ensures old(IsbnsUnique(db.books)) ==> IsbnsUnique(db.books)
    ensures db.nextBookId == old(db.nextBookId) && db.nextBorrowId == old(db.nextBorrowId)
    ensures db.nextReservationId == old(db.nextReservationId) && db.nextUserId == old(db.nextUserId)
  {
    if user.None? {
      return Fail(NotLoggedIn);
    }
    if !user.value.isLibrarian {
      return Fail(PermissionDenied);
    }
    var parsed := PathId(path, BooksPrefix, "/edit");
    if parsed.None? {
      return Fail(InvalidId);
    }
    var id := parsed.value;
    var book, found := GetBookByID(db, id);
    if found.Fail? {
      return found;
    }
    var valid := ValidateBookForm(form);
    if valid.Err? {
      return Fail(valid.error);
    }
    if form.isbn != book.isbn && IsbnExistsExcept(db, form.isbn, id) {
      return Fail(IsbnTaken);
    }
    var quantity := valid.value;
    ghost var edited := EditedBook(db.books[id], form, quantity, now);
    ApplyBookForm(book, form, quantity);
    assert book.Row().(createdAt := db.books[id].createdAt, updatedAt := now) == edited;
    if IsbnsUnique(db.books) {
      WriteKeepsIsbnsUnique(db.books, id, edited);
    }
    out := book.Update(db, now);
  }

  /** `DeleteBook`: refused while the book has a pending request or an
      outstanding loan. */
  method DeleteBook(db: Db, user: Option<Actor>, path: string) returns (out: Outcome)
    requires db.Valid()
    modifies db
    ensures db.Valid()
    ensures var id := PathId(path, BooksPrefix, "/delete");
      out == (
      if user.None? then Fail(NotLoggedIn)
      else if !user.value.isLibrarian then Fail(PermissionDenied)
      else if id.None? then Fail(InvalidId)
      else if id.value !in old(db.books) then Fail(BookNotFound)
      else if old(HasActiveOrPendingBorrows(db, id.value)) then Fail(BookHasLoans)
      else Pass)
    ensures out.Fail? ==> unchanged(db)
    ensures out.Pass? ==>
      var id := PathId(path, BooksPrefix, "/delete").value;
      && db.books == old(db.books) - {id}
      && LoanCount(db.borrows, id) == 0
      && db.borrows == old(db.borrows) && db.reservations == old(db.reservations)
      && db.users == old(db.users)
    ensures db.nextBookId == old(db.nextBookId) && db.nextBorrowId == old(db.nextBorrowId)
    ensures db.nextReservationId == old(db.nextReservationId) && db.nextUserId == old(db.nextUserId)
  {
    if user.None? {
      return Fail(NotLoggedIn);
    }
    if !user.value.isLibrarian {
      return Fail(PermissionDenied);
    }
    var parsed := PathId(path, BooksPrefix, "/delete");
    if parsed.None? {
      return Fail(InvalidId);
    }
    var id := parsed.value;
    var book, found := GetBookByID(db, id);
    if found.Fail? {
      return found;
    }
    if HasActiveOrPendingBorrows(db, id) {
      return Fail(BookHasLoans);
    }
    IdleBookHasNoLoans(db, id);
    out := book.Delete(db);
  }

  /** `BorrowBook`: a request is filed only for a book with a copy on the
      shelf that the user neither has a pending request for nor is
      borrowing; filing it does not move any shelf count. */
  method BorrowBook(db: Db, user: Option<Actor>, path: string, now: Time) returns (out: Outcome)
    requires db.Valid()
    modifies db
    ensures db.Valid()
    ensures var id := PathId(path, BooksPrefix, "/borrow");
      out == (
      if user.None? then Fail(NotLoggedIn)
      else if id.None? then Fail(InvalidId)
      else if id.value !in old(db.books) then Fail(BookNotFound)
      else if old(db.books[id.value].available) <= 0 then Fail(NoCopiesAvailable)
      else if old(HasBorrow(db.borrows, user.value.id, id.value, Pending)) then Fail(PendingRequestExists)
      else if old(HasBorrow(db.borrows, user.value.id, id.value, Approved)) then Fail(AlreadyBorrowing)
      else Pass)
    ensures out.Fail? ==> unchanged(db)
    ensures out.Pass? ==>
      var id := PathId(path, BooksPrefix, "/borrow").value;
      && db.borrows == old(db.borrows)[old(db.nextBorrowId) := Borrows.NewRequest(user.value.id, id, now)]
      && db.books == old(db.books) && db.reservations == old(db.reservations)
      && db.users == old(db.users)
      && HasBorrow(db.borrows, user.value.id, id, Pending)
    ensures db.nextBookId == old(db.nextBookId) && db.nextReservationId == old(db.nextReservationId)
    ensures db.nextUserId == old(db.nextUserId)
  {
    if user.None? {
      return Fail(NotLoggedIn);
    }
    var parsed := PathId(path, BooksPrefix, "/borrow");
    if parsed.None? {
      return Fail(InvalidId);
    }
    var id := parsed.value;
    var book, found := GetBookByID(db, id);
    if found.Fail? {
      return found;
    }
    if book.available <= 0 {
      return Fail(NoCopiesAvailable);
    }
    var hasPending := Borrows.HasPendingBorrowRequest(db, user.value.id, id);
    if hasPending {
      return Fail(PendingRequestExists);
    }
    var isBorrowing := Borrows.IsCurrentlyBorrowing(db, user.value.id, id);
    if isBorrowing {
      return Fail(AlreadyBorrowing);
    }
    ghost var next := db.nextBorrowId;
    out := Borrows.CreateBorrowRequest(db, user.value.id, id, now);
    assert db.borrows[next] == Borrows.NewRequest(user.value.id, id, now);
  }
}
