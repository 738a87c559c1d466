/** controllers/user_controller.go: the librarian's user administration
    handlers. Adding and editing validate the form before the model's
    email check; deleting refuses one's own account and any user with an
    outstanding loan or a pending request. */
module UserController {
  import opened Common
  import opened Tables
  import opened Ledger
  import opened Users
  import opened BookController

  /** The fields of the add/edit user form, as submitted. */
  datatype UserForm = UserForm(
    name: string, email: string, password: string, confirmPassword: string,
    role: string, studentId: string, phone: string)

  predicate ValidRole(role: string) {
    role == Librarian || role == Student
  }

  /** An optional text column filled from a form field: an empty field is NULL. */
  function NullString(s: string): (r: Option<string>)
    ensures r.None? <==> s == ""
    ensures r.Some? ==> r.value == s
  {
    if s == "" then None else Some(s)
  }

  /** `AddUser`'s form checks: name, email, password and role present, the
      password confirmed, the role one of the two known roles. */
  function ValidateNewUser(f: UserForm): (r: Outcome)
    ensures r == Pass <==>
      f.name != "" && f.email != "" && f.password != "" && f.role != ""
      && f.password == f.confirmPassword && ValidRole(f.role)
    ensures r == Fail(MissingFields) <==> f.name == "" || f.email == "" || f.password == "" || f.role == ""
    ensures r.Fail? ==> r.error in {MissingFields, PasswordMismatch, InvalidRole}
  {
    if f.name == "" || f.email == "" || f.password == "" || f.role == "" then Fail(MissingFields)
    else if f.password != f.confirmPassword then Fail(PasswordMismatch)
    else if !ValidRole(f.role) then Fail(InvalidRole)
    else Pass
  }

  /** `EditUser`'s form checks: name, email and role present and the role
      known; the password fields are not part of the edit form. */
  function ValidateEditedUser(f: UserForm): (r: Outcome)
    ensures r == Pass <==> f.name != "" && f.email != "" && f.role != "" && ValidRole(f.role)
    ensures r.Fail? ==> r.error in {MissingFields, InvalidRole}
  {
    if f.name == "" || f.email == "" || f.role == "" then Fail(MissingFields)
    else if !ValidRole(f.role) then Fail(InvalidRole)
    else Pass
  }

  /** A form that passes the add checks passes the edit checks. */
  lemma NewUserFormIsEditable(f: UserForm)
    requires ValidateNewUser(f) == Pass
    ensures ValidateEditedUser(f) == Pass
  {
  }

  /** `AddUser` (POST): the form checks, then `Create` with `hashed`, the
      hash of the form's password. */
  method AddUser(db: Db, user: Option<Actor>, form: UserForm, hashed: string, now: Time)
    returns (out: Outcome)
    requires db.Valid()
    modifies db
    ensures db.Valid()
    ensures out == (
      if user.None? then Fail(NotLoggedIn)
      else if !user.value.isLibrarian then Fail(PermissionDenied)
      else if ValidateNewUser(form).Fail? then ValidateNewUser(form)
      else if old(EmailTaken(db.users, form.email)) then Fail(DuplicateEmail)
      else Pass)
    ensures out.Fail? ==> unchanged(db)
    ensures out.Pass? ==>
      && db.users == old(db.users)[old(db.nextUserId) := UserRow(form.name, form.email, hashed, form.role,
                                     NullString(form.studentId), NullString(form.phone), now, now)]
      && db.books == old(db.books) && db.borrows == old(db.borrows)
      && db.reservations == old(db.reservations)
    ensures old(EmailsUnique(db.users)) ==> EmailsUnique(db.users)
    ensures db.nextBookId == old(db.nextBookId) && db.nextBorrowId == old(db.nextBorrowId)
    ensures db.nextReservationId == old(db.nextReservationId)
  {
    if user.None? {
      return Fail(NotLoggedIn);
    }
    if !user.value.isLibrarian {
      return Fail(PermissionDenied);
    }
    var valid := ValidateNewUser(form);
    if valid.Fail? {
      return valid;
    }
    var newUser := new User(form.name, form.email, form.password, form.role,
                            NullString(form.studentId), NullString(form.phone));
    out := newUser.Create(db, hashed, now);
  }

  /** The edit handler's in-place assignment of the form to the loaded user. */
  method ApplyUserForm(editUser: User, form: UserForm)
    modifies editUser
    ensures editUser.name == form.name && editUser.email == form.email && editUser.role == form.role
    ensures editUser.studentId == NullString(form.studentId) && editUser.phone == NullString(form.phone)
    ensures editUser.id == old(editUser.id) && editUser.passwordHash == old(editUser.passwordHash)
  {
    editUser.name, editUser.email, editUser.role := form.name, form.email, form.role;
    editUser.studentId, editUser.phone := NullString(form.studentId), NullString(form.phone);
  }

  /** `EditUser` (POST): a known user, a valid form, and an email no other
      user has; then name, email, role, student id and phone are rewritten
      and the password hash is kept. */
  method EditUser(db: Db, user: Option<Actor>, path: string, form: UserForm, now: Time)
    returns (out: Outcome)
    requires db.Valid()
    modifies db
    ensures db.Valid()
    ensures var id := PathId(path, "/users/edit/", "");
      out == (
      if user.None? then Fail(NotLoggedIn)
      else if !user.value.isLibrarian then Fail(PermissionDenied)
      else if id.None? then Fail(InvalidId)
      else if id.value !in old(db.users) then Fail(UserNotFound)
      else if ValidateEditedUser(form).Fail? then ValidateEditedUser(form)
      else if old(EmailTakenByOther(db.users, form.email, id.value)) then Fail(DuplicateEmail)
      else Pass)
    ensures out.Fail? ==> unchanged(db)
    ensures out.Pass? ==>
      var id := PathId(path, "/users/edit/", "").value;
      && db.users == old(db.users)[id := old(db.users[id]).(name := form.name, email := form.email,
           role := form.role, studentId := NullString(form.studentId), phone := NullString(form.phone),
           updatedAt := now)]
      && db.users[id].passwordHash == old(db.users[id].passwordHash)
      && db.books == old(db.books) && db.borrows == old(db.borrows)
      && db.reservations == old(db.reservations)
    ensures old(EmailsUnique(db.users)) ==> EmailsUnique(db.users)
    ensures db.nextBookId == old(db.nextBookId) && db.nextBorrowId == old(db.nextBorrowId)
    ensures db.nextReservationId == old(db.nextReservationId) && db.nextUserId == old(db.nextUserId)
  {
    if user.None? {
      return Fail(NotLoggedIn);
    }
    if !user.value.isLibrarian {
      return Fail(PermissionDenied);
    }
    var parsed := PathId(path, "/users/edit/", "");
    if parsed.None? {
      return Fail(InvalidId);
    }
    var id := parsed.value;
    var editUser, found := GetUserByID(db, id);
    if found.Fail? {
      return found;
    }
    var valid := ValidateEditedUser(form);
    if valid.Fail? {
      return valid;
    }
    ApplyUserForm(editUser, form);
    out := editUser.Update(db, now);
  }

  /** `DeleteUser`: a librarian may delete any other user who has neither
      an outstanding loan nor a pending request. */
  method DeleteUser(db: Db, user: Option<Actor>, path: string) returns (out: Outcome)
    requires db.Valid()
    modifies db
    ensures db.Valid()
    ensures var id := PathId(path, "/users/delete/", "");
      out == (
      if user.None? then Fail(NotLoggedIn)
      else if !user.value.isLibrarian then Fail(PermissionDenied)
      else if id.None? then Fail(InvalidId)
      else if id.value !in old(db.users) then Fail(UserNotFound)
      else if id.value == user.value.id then Fail(CannotDeleteSelf)
      else if old(UserHasBorrow(db.borrows, id.value, Approved)) then Fail(UserHasActiveBorrows)
      else if old(UserHasBorrow(db.borrows, id.value, Pending)) then Fail(UserHasPendingBorrows)
      else Pass)
    ensures out.Fail? ==> unchanged(db)
    ensures out.Pass? ==>
      var id := PathId(path, "/users/delete/", "").value;
      && id != user.value.id
      && db.users == old(db.users) - {id}
      && db.books == old(db.books) && db.borrows == old(db.borrows)
      && db.reservations == old(db.reservations)
    ensures db.nextBookId == old(db.nextBookId) && db.nextBorrowId == old(db.nextBorrowId)
    ensures db.nextReservationId == old(db.nextReservationId) && db.nextUserId == old(db.nextUserId)
  {
    if user.None? {
      return Fail(NotLoggedIn);
    }
    if !user.value.isLibrarian {
      return Fail(PermissionDenied);
    }
    var parsed := PathId(path, "/users/delete/", "");
    if parsed.None? {
      return Fail(InvalidId);
    }
    var id := parsed.value;
    var deleteUser, found := GetUserByID(db, id);
    if found.Fail? {
      return found;
    }
    if deleteUser.id == user.value.id {
      return Fail(CannotDeleteSelf);
    }
    if UserHasBorrow(db.borrows, id, Approved) {
      return Fail(UserHasActiveBorrows);
    }
    if UserHasBorrow(db.borrows, id, Pending) {
      return Fail(UserHasPendingBorrows);
    }
    out := deleteUser.Delete(db);
  }
}
