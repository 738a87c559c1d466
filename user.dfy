/** models/user.go: accounts. Email addresses are kept unique by the checks
    in `Create` and `Update` (the schema's UNIQUE constraint, which would
    only turn a race into a driver error, is not modelled); the role string decides
    the two permission flags. Password hashing is opaque: a hash arrives as a
    parameter and the bcrypt comparison is a function parameter. */
module Users {
  import opened Common
  import opened Tables

  const Librarian: string := "librarian"
  const Student: string := "student"

  /** Some user row carries this email. */
  predicate EmailTaken(users: map<int, UserRow>, email: string) {
    exists id :: id in users && users[id].email == email
  }

  /** Some user row other than `id` carries this email. */
  predicate EmailTakenByOther(users: map<int, UserRow>, email: string, id: int) {
    exists other :: other in users && other != id && users[other].email == email
  }

  /** No two users share an email. */
  ghost predicate EmailsUnique(users: map<int, UserRow>) {
    forall i, j :: i in users && j in users && users[i].email == users[j].email ==> i == j
  }

  /** Inserting a row under a fresh id whose email is not yet taken keeps the
      emails unique: the guard of `Create` suffices. */
  lemma InsertKeepsEmailsUnique(users: map<int, UserRow>, id: int, row: UserRow)
    requires EmailsUnique(users) && id !in users && !EmailTaken(users, row.email)
    ensures EmailsUnique(users[id := row])
  {
  }

  /** Rewriting one row whose new email no other row carries keeps the emails
      unique: the guard of `Update` suffices, and keeping one's own address is allowed. */
  lemma RewriteKeepsEmailsUnique(users: map<int, UserRow>, id: int, row: UserRow)
    requires EmailsUnique(users) && !EmailTakenByOther(users, row.email, id)
    ensures EmailsUnique(users[id := row])
  {
  }

  /** The Go `User` struct. `password` is the clear text a form supplies. */
  class User {
    var id: int
    var name: string
    var email: string
    var password: string
    var passwordHash: string
    var role: string
    var studentId: Option<string>
    var phone: Option<string>
    var createdAt: Time
    var updatedAt: Time
    var isLibrarian: bool
    var isStudent: bool

    /** A struct literal: the given form fields, everything else zero. */
    constructor (name: string, email: string, password: string, role: string,
                 studentId: Option<string>, phone: Option<string>)
      ensures this.name == name && this.email == email && this.password == password
      ensures this.role == role && this.studentId == studentId && this.phone == phone
      ensures id == 0 && passwordHash == "" && !isLibrarian && !isStudent
    {
      this.name, this.email, this.password, this.role := name, email, password, role;
      this.studentId, this.phone := studentId, phone;
      id, passwordHash, createdAt, updatedAt := 0, "", 0, 0;
      isLibrarian, isStudent := false, false;
    }

    /** The struct carries every column of `row`. */
    predicate Holds(row: UserRow)
      reads this
    {
      && name == row.name && email == row.email && passwordHash == row.passwordHash
      && role == row.role && studentId == row.studentId && phone == row.phone
      && createdAt == row.createdAt && updatedAt == row.updatedAt
    }

    /** The role flags agree with the role string. */
    predicate FlagsMatchRole()
      reads this
    {
      isLibrarian == (role == Librarian) && isStudent == (role == Student)
    }

    /** The computed-properties step repeated after every load and write. */
    method SetRoleFlags()
      modifies this
      ensures FlagsMatchRole()
      ensures !(isLibrarian && isStudent)
      ensures id == old(id) && name == old(name) && email == old(email) && role == old(role)
      ensures password == old(password) && passwordHash == old(passwordHash)
      ensures studentId == old(studentId) && phone == old(phone)
      ensures createdAt == old(createdAt) && updatedAt == old(updatedAt)
    {
      isLibrarian := role == Librarian;
      isStudent := role == Student;
    }

    /** `Create`: refuse a taken email and insert nothing; otherwise insert
        the row with `hashed` (the bcrypt hash of `password`), read back the
        id and timestamps and set the role flags. The struct's own
        `passwordHash` is not filled in. */
    method Create(db: Db, hashed: string, now: Time) returns (out: Outcome)
      requires db.Valid()
      modifies this, db
      ensures db.Valid()
      ensures old(EmailTaken(db.users, email)) ==> out == Fail(DuplicateEmail) && unchanged(db)
      ensures !old(EmailTaken(db.users, email)) ==>
        && out == Pass
        && id == old(db.nextUserId) && id !in old(db.users)
        && db.users == old(db.users)[id := UserRow(name, email, hashed, role, studentId, phone, now, now)]
        && db.nextUserId == old(db.nextUserId) + 1
        && createdAt == now && updatedAt == now && FlagsMatchRole()
        && db.books == old(db.books) && db.borrows == old(db.borrows)
        && db.reservations == old(db.reservations)
        && db.nextBookId == old(db.nextBookId) && db.nextBorrowId == old(db.nextBorrowId)
        && db.nextReservationId == old(db.nextReservationId)
      ensures old(EmailsUnique(db.users)) ==> EmailsUnique(db.users)
      ensures name == old(name) && email == old(email) && role == old(role)
      ensures password == old(password) && passwordHash == old(passwordHash)
      ensures studentId == old(studentId) && phone == old(phone)
    {
      if EmailTaken(db.users, email) {
        return Fail(DuplicateEmail);
      }
      var row := UserRow(name, email, hashed, role, studentId, phone, now, now);
      if EmailsUnique(db.users) {
        InsertKeepsEmailsUnique(db.users, db.nextUserId, row);
      }
      id := db.nextUserId;
      db.users := db.users[id := row];
      db.nextUserId := db.nextUserId + 1;
      createdAt, updatedAt := now, now;
      SetRoleFlags();
      out := Pass;
    }

    /** `Update`: refuse an email another user owns; otherwise rewrite name,
        email, role, student id and phone of the row with this id (never its
        hash or creation time) and set the role flags. */
    method Update(db: Db, now: Time) returns (out: Outcome)
      requires db.Valid()
      modifies this, db
      ensures db.Valid()
      ensures old(EmailTakenByOther(db.users, email, id)) ==>
        out == Fail(DuplicateEmail) && unchanged(db)
      ensures !old(EmailTakenByOther(db.users, email, id)) ==>
        && out == Pass && FlagsMatchRole()
        && (id in old(db.users) ==>
              db.users == old(db.users)[id := old(db.users)[id].(name := name, email := email,
                role := role, studentId := studentId, phone := phone, updatedAt := now)])
        && (id !in old(db.users) ==> db.users == old(db.users))
        && db.books == old(db.books) && db.borrows == old(db.borrows)
        && db.reservations == old(db.reservations)
        && db.nextBookId == old(db.nextBookId) && db.nextBorrowId == old(db.nextBorrowId)
        && db.nextReservationId == old(db.nextReservationId) && db.nextUserId == old(db.nextUserId)
      ensures old(EmailsUnique(db.users)) ==> EmailsUnique(db.users)
      ensures id == old(id) && name == old(name) && email == old(email) && role == old(role)
      ensures password == old(password) && passwordHash == old(passwordHash)
      ensures studentId == old(studentId) && phone == old(phone)
      ensures createdAt == old(createdAt) && updatedAt == old(updatedAt)
      ensures out.Fail? ==> isLibrarian == old(isLibrarian) && isStudent == old(isStudent)
    {
      if EmailTakenByOther(db.users, email, id) {
        return Fail(DuplicateEmail);
      }
      if id in db.users {
        var row := db.users[id].(name := name, email := email, role := role,
                                 studentId := studentId, phone := phone, updatedAt := now);
        if EmailsUnique(db.users) {
          RewriteKeepsEmailsUnique(db.users, id, row);
        }
        db.users := db.users[id := row];
      }
      SetRoleFlags();
      out := Pass;
    }

    /** `UpdatePassword`: store a new hash (of the new password) and the
        update time on this user's row; nothing else changes. */
    method UpdatePassword(db: Db, hashed: string, now: Time) returns (out: Outcome)
      requires db.Valid()
      modifies db
      ensures db.Valid() && out == Pass
      ensures id in old(db.users) ==>
        db.users == old(db.users)[id := old(db.users)[id].(passwordHash := hashed, updatedAt := now)]
      ensures id !in old(db.users) ==> db.users == old(db.users)
      ensures old(EmailsUnique(db.users)) ==> EmailsUnique(db.users)
      ensures db.books == old(db.books) && db.borrows == old(db.borrows)
      ensures db.reservations == old(db.reservations)
      ensures db.nextBookId == old(db.nextBookId) && db.nextBorrowId == old(db.nextBorrowId)
      ensures db.nextReservationId == old(db.nextReservationId) && db.nextUserId == old(db.nextUserId)
    {
      if id in db.users {
        db.users := db.users[id := db.users[id].(passwordHash := hashed, updatedAt := now)];
      }
      return Pass;
    }

    /** `Delete`: remove exactly the row with this id. */
    method Delete(db: Db) returns (out: Outcome)
      requires db.Valid()
      modifies db
      ensures db.Valid() && out == Pass
      ensures db.users == old(db.users) - {id}
      ensures old(EmailsUnique(db.users)) ==> EmailsUnique(db.users)
      ensures db.books == old(db.books) && db.borrows == old(db.borrows)
      ensures db.reservations == old(db.reservations)
      ensures db.nextBookId == old(db.nextBookId) && db.nextBorrowId == old(db.nextBorrowId)
      ensures db.nextReservationId == old(db.nextReservationId) && db.nextUserId == old(db.nextUserId)
    {
      db.users := db.users - {id};
      return Pass;
    }
  }

  /** A fresh struct loaded from row `id`, role flags set. */
  method Load(db: Db, id: int) returns (user: User)
    requires id in db.users
    ensures fresh(user) && user.id == id && user.FlagsMatchRole()
    ensures user.Holds(db.users[id])
  {
    var row := db.users[id];
    user := new User(row.name, row.email, "", row.role, row.studentId, row.phone);
    user.id, user.passwordHash := id, row.passwordHash;
    user.createdAt, user.updatedAt := row.createdAt, row.updatedAt;
    user.SetRoleFlags();
  }

  /** `GetUserByID`: the row's user, or "user not found". */
  method GetUserByID(db: Db, id: int) returns (user: User?, out: Outcome)
    ensures id !in db.users ==> user == null && out == Fail(UserNotFound)
    ensures id in db.users ==>
      && out == Pass && user != null && fresh(user) && user.id == id
      && user.Holds(db.users[id]) && user.FlagsMatchRole()
  {
    if id !in db.users {
      return null, Fail(UserNotFound);
    }
    user := Load(db, id);
    out := Pass;
  }

  /** `GetUserByEmail`: a user with this email, or "user not found". With
      unique emails the user is the only one with that address. */
  method GetUserByEmail(db: Db, email: string) returns (user: User?, out: Outcome)
    ensures !EmailTaken(db.users, email) ==> user == null && out == Fail(UserNotFound)
    ensures EmailTaken(db.users, email) ==>
      && out == Pass && user != null && fresh(user)
      && user.id in db.users && user.email == email && db.users[user.id].email == email
      && user.Holds(db.users[user.id]) && user.FlagsMatchRole()
  {
    if !EmailTaken(db.users, email) {
      return null, Fail(UserNotFound);
    }
    var id :| id in db.users && db.users[id].email == email;
    user := Load(db, id);
    out := Pass;
  }

  /** `Authenticate`: an unknown email and a wrong password give the same
      error, so a caller cannot tell which one failed. `matches(hash, password)`
      stands for the bcrypt comparison. */
  method Authenticate(db: Db, email: string, password: string, matches: (string, string) -> bool)
    returns (user: User?, out: Outcome)
    ensures out.Fail? ==> out == Fail(InvalidCredentials) && user == null
    ensures !EmailTaken(db.users, email) ==> out == Fail(InvalidCredentials)
    ensures out == Pass ==>
      && user != null && fresh(user) && user.id in db.users && user.email == email
      && user.Holds(db.users[user.id]) && user.FlagsMatchRole()
      && matches(db.users[user.id].passwordHash, password)
    ensures EmailsUnique(db.users) ==>
      (out == Pass <==> exists id :: id in db.users && db.users[id].email == email
                                     && matches(db.users[id].passwordHash, password))
  {
    var found, err := GetUserByEmail(db, email);
    if err.Fail? {
      return null, Fail(InvalidCredentials);
    }
    if !matches(found.passwordHash, password) {
      assert EmailsUnique(db.users) ==>
        forall id :: id in db.users && db.users[id].email == email ==> id == found.id;
      return null, Fail(InvalidCredentials);
    }
    var k := found.id;
    assert k in db.users && db.users[k].email == email && matches(db.users[k].passwordHash, password);
    return found, Pass;
  }

  /** `CreateDefaultLibrarian`: on an empty user table create the default
      librarian account (with `hashed`, the hash of its default password);
      with any user present do nothing. */
  method CreateDefaultLibrarian(db: Db, hashed: string, now: Time) returns (out: Outcome)
    requires db.Valid()
    modifies db
    ensures db.Valid() && out == Pass
    ensures |old(db.users)| > 0 ==> unchanged(db)
    ensures |old(db.users)| == 0 ==>
      && db.users == map[old(db.nextUserId) := UserRow("Admin Librarian", "admin@library.com", hashed,
                                                       Librarian, None, Some("1234567890"), now, now)]
      && db.nextUserId == old(db.nextUserId) + 1
      && db.books == old(db.books) && db.borrows == old(db.borrows)
      && db.reservations == old(db.reservations)
    ensures EmailsUnique(old(db.users)) ==> EmailsUnique(db.users)
    ensures db.nextBookId == old(db.nextBookId) && db.nextBorrowId == old(db.nextBorrowId)
    ensures db.nextReservationId == old(db.nextReservationId)
  {
    if |db.users| > 0 {
      return Pass;
    }
    var librarian := new User("Admin Librarian", "admin@library.com", "admin123", Librarian,
                              None, Some("1234567890"));
    assert db.users == map[];
    out := librarian.Create(db, hashed, now);
  }
}
