/** The handlers of `/students`. */
module StudentRoutes {
  import opened Common
  import opened UserModel
  import opened Access
  import opened Database
  import Text

  const Duplicate := "Username, email, or student ID already exists"
  const CreateFailed := "Error creating student"
  const StudentNotFound := "Student not found"
  const ShortPassword := "Password must be at least 6 characters"
  const UpdateFailed := "Error updating student"

  /** The `$or` of the duplicate checks: some user other than `except` matches
      the username, the email or the student id. */
  predicate Clash(users: map<Id, User>, except: Option<Id>, username: Option<string>,
                  email: Option<string>, studentId: Option<string>)
  {
    UsernameTaken(users, except, username) || EmailTaken(users, except, email) || StudentIdTaken(users, except, studentId)
  }

  /** `POST /students` (admin): 400 when any user has the username, the email
      or the student id, then 400 when the new document fails its validators;
      otherwise a user with role student whatever the body says, returned
      without its password. */
  function Create(db: Db, caller: Caller, username: string, email: string, password: string,
                  firstName: string, lastName: string, studentId: Option<string>): (r: Reply<Profile>)
    ensures !r.out.Ok? ==> r.db == db
    ensures r.out.Ok? ==> r.out.value.id == db.nextId && r.out.value.role == Student
  {
    if !IsAdmin(caller) then Reply(db, Forbidden(AdminRequired))
    else if Clash(db.users, None, Some(username), Some(email), studentId) then Reply(db, BadRequest(Duplicate))
    else
      var d := Draft(username, email, password, Student, firstName, lastName, studentId);
      if !Validates(d) then Reply(db, BadRequest(CreateFailed))
      else
        var u := Materialize(d);
        Reply(db.(users := db.users[db.nextId := u], nextId := db.nextId + 1), Ok(ProfileOf(db.nextId, u)))
  }

  /** `GET /students` (admin): the users whose role is student, without passwords. */
  function List(db: Db, caller: Caller): (r: Outcome<map<Id, Profile>>)
    ensures r.Ok? <==> IsAdmin(caller)
    ensures r.Ok? ==> forall id :: id in r.value <==> id in db.users && db.users[id].role == Student
    ensures r.Ok? ==> forall id :: id in r.value ==> r.value[id] == ProfileOf(id, db.users[id])
  {
    if !IsAdmin(caller) then Forbidden(AdminRequired)
    else Ok(map id | id in db.users && db.users[id].role == Student :: ProfileOf(id, db.users[id]))
  }

  /** `GET /students/:id`: the access check comes before the lookup. The
      lookup is by id alone: any user, whatever its role, is returned. */
  function Get(db: Db, caller: Caller, id: Id): (r: Outcome<Profile>)
    ensures r.Ok? <==> AdminOrSelf(caller, id) && id in db.users
    ensures r.Ok? ==> r.value == ProfileOf(id, db.users[id]) && r.value.id == id
  {
    if !AdminOrSelf(caller, id) then Forbidden(AccessDenied)
    else if id !in db.users then NotFound(StudentNotFound)
    else Ok(ProfileOf(id, db.users[id]))
  }

  /** The body of `PUT /students/:id`; each absent path is left as stored. */
  datatype StudentPatch = StudentPatch(
    username: Option<string>,
    email: Option<string>,
    password: Option<string>,
    firstName: Option<string>,
    lastName: Option<string>,
    studentId: Option<string>,
    enrolledClasses: Option<seq<Id>>,
    isActive: Option<bool>)

  /** A password of one to five characters is refused; an empty one counts as absent. */
  predicate PasswordTooShort(p: Option<string>)
  {
    p.Some? && 0 < |p.value| < MinPasswordLength
  }

  /** The password the update sets: the route's own hash of a long enough
      one, and nothing otherwise (the update does not run the save hook). */
  function NewPassword(p: Option<string>): Option<Secret>
  {
    if p.Some? && |p.value| >= MinPasswordLength then Some(Digest(Plain(p.value))) else None
  }

  /** The update validators on the paths the patch sets. `studentId`'s
      conditional `required` reads the role from the query, not the document,
      so it never demands a value here. */
  predicate PatchValidates(p: StudentPatch)
  {
    && (p.username.Some? ==> Text.Trim(p.username.value) != "")
    && (p.email.Some? ==> NormalizeEmail(p.email.value) != "")
    && (p.firstName.Some? ==> Text.Trim(p.firstName.value) != "")
    && (p.lastName.Some? ==> Text.Trim(p.lastName.value) != "")
  }

  function NormalizedEmailOpt(e: Option<string>): Option<string>
  {
    if e.Some? then Some(NormalizeEmail(e.value)) else None
  }

  /** The stored user after the update, setters applied: each path the patch
      gives is replaced by its value after the setters, each path it leaves
      out keeps its stored value, and the paths a patch cannot name (role,
      assigned classes, timetable) never change. */
  function ApplyPatch(u: User, p: StudentPatch): (r: User)
    ensures r.username == (if p.username.Some? then Text.Trim(p.username.value) else u.username)
    ensures r.email == (if p.email.Some? then NormalizeEmail(p.email.value) else u.email)
    ensures r.firstName == (if p.firstName.Some? then Text.Trim(p.firstName.value) else u.firstName)
    ensures r.lastName == (if p.lastName.Some? then Text.Trim(p.lastName.value) else u.lastName)
    ensures r.studentId == (if p.studentId.Some? then p.studentId else u.studentId)
    ensures r.enrolledClasses == (if p.enrolledClasses.Some? then p.enrolledClasses.value else u.enrolledClasses)
    ensures r.isActive == (if p.isActive.Some? then p.isActive.value else u.isActive)
    ensures r.password == (if p.password.Some? && |p.password.value| >= MinPasswordLength
                           then Digest(Plain(p.password.value)) else u.password)
    ensures r.role == u.role && r.assignedClasses == u.assignedClasses && r.timetable == u.timetable
  {
    u.(username := Overwrite(u.username, Text.TrimOpt(p.username)),
       email := Overwrite(u.email, NormalizedEmailOpt(p.email)),
       password := Overwrite(u.password, NewPassword(p.password)),
       firstName := Overwrite(u.firstName, Text.TrimOpt(p.firstName)),
       lastName := Overwrite(u.lastName, Text.TrimOpt(p.lastName)),
       studentId := Merge(u.studentId, p.studentId),
       enrolledClasses := Overwrite(u.enrolledClasses, p.enrolledClasses),
       isActive := Overwrite(u.isActive, p.isActive))
  }

  /** `PUT /students/:id` (admin): the duplicate check excluding this id, the
      short-password rule, the update validators, then the lookup. */
  function Update(db: Db, caller: Caller, id: Id, p: StudentPatch): (r: Reply<Profile>)
    ensures !r.out.Ok? ==> r.db == db
    ensures r.out.Ok? ==> id in db.users && r.db == db.(users := db.users[id := ApplyPatch(db.users[id], p)])
  {
    if !IsAdmin(caller) then Reply(db, Forbidden(AdminRequired))
    else if Clash(db.users, Some(id), p.username, p.email, p.studentId) then Reply(db, BadRequest(Duplicate))
    else if PasswordTooShort(p.password) then Reply(db, BadRequest(ShortPassword))
    else if !PatchValidates(p) then Reply(db, BadRequest(UpdateFailed))
    else if id !in db.users then Reply(db, NotFound(StudentNotFound))
    else
      var u := ApplyPatch(db.users[id], p);
      Reply(db.(users := db.users[id := u]), Ok(ProfileOf(id, u)))
  }

  // ---------------------------------------------------------------------------
  // Create

  /** A create succeeds exactly for an admin whose body clashes with no user
      and passes the validators; a clash is reported first. */
  lemma CreateOutcome(db: Db, caller: Caller, username: string, email: string, password: string,
                      firstName: string, lastName: string, studentId: Option<string>)
    ensures var r := Create(db, caller, username, email, password, firstName, lastName, studentId);
      var d := Draft(username, email, password, Student, firstName, lastName, studentId);
      && (r.out.Ok? <==> IsAdmin(caller) && !Clash(db.users, None, Some(username), Some(email), studentId) && Validates(d))
      && (IsAdmin(caller) && Clash(db.users, None, Some(username), Some(email), studentId) ==> r.out == BadRequest(Duplicate))
  {
  }

  /** The user a create inserts has a fresh id, role student, the given
      student id, the normalised username and email, no classes, is active
      and stores the digest of the given password; the response is that user
      without the password, and nothing else changes. */
  lemma CreateResult(db: Db, caller: Caller, username: string, email: string, password: string,
                     firstName: string, lastName: string, studentId: Option<string>)
    requires forall id :: id in db.users ==> id < db.nextId
    requires Create(db, caller, username, email, password, firstName, lastName, studentId).out.Ok?
    ensures var r := Create(db, caller, username, email, password, firstName, lastName, studentId);
      var id := db.nextId;
      var u := r.db.users[id];
      && id !in db.users
      && r.db == db.(users := db.users[id := u], nextId := db.nextId + 1)
      && u.role == Student && u.studentId == studentId
      && u.username == Text.Trim(username) && u.email == NormalizeEmail(email)
      && u.password == Digest(Plain(password))
      && u.enrolledClasses == [] && u.isActive
      && r.out.value == ProfileOf(id, u)
  {
  }

  lemma CreatePreservesValid(db: Db, caller: Caller, username: string, email: string, password: string,
                             firstName: string, lastName: string, studentId: Option<string>)
    requires Valid(db)
    ensures Valid(Create(db, caller, username, email, password, firstName, lastName, studentId).db)
  {
    var r := Create(db, caller, username, email, password, firstName, lastName, studentId);
    if r.out.Ok? {
      var d := Draft(username, email, password, Student, firstName, lastName, studentId);
      var u := Materialize(d);
      MaterializeFacts(d);
      assert !UsernameTaken(db.users, None, Some(username)) && !EmailTaken(db.users, None, Some(email));
      assert !StudentIdTaken(db.users, None, studentId);
      ValidWithNewUser(db, u);
    }
  }

  // ---------------------------------------------------------------------------
  // Get

  /** A non-admin asking for another id is refused whether or not it exists;
      an admin or the user itself gets 404 for a missing id and otherwise the
      stored user without its password. */
  lemma GetAccess(db: Db, caller: Caller, id: Id)
    ensures !AdminOrSelf(caller, id) ==> Get(db, caller, id) == Forbidden(AccessDenied)
    ensures AdminOrSelf(caller, id) && id !in db.users ==> Get(db, caller, id) == NotFound(StudentNotFound)
    ensures AdminOrSelf(caller, id) && id in db.users ==> Get(db, caller, id) == Ok(ProfileOf(id, db.users[id]))
  {
  }

  // ---------------------------------------------------------------------------
  // Update

  /** Guard order of update, each refusal writing nothing: the duplicate check
      comes first, so a clash is reported even for a missing id; then a
      password of one to five characters; then the validators; only then the
      404 for a missing id. */
  lemma UpdateGuardOrder(db: Db, caller: Caller, id: Id, p: StudentPatch)
    requires IsAdmin(caller)
    ensures Clash(db.users, Some(id), p.username, p.email, p.studentId) ==>
      Update(db, caller, id, p) == Reply(db, BadRequest(Duplicate))
    ensures !Clash(db.users, Some(id), p.username, p.email, p.studentId) && PasswordTooShort(p.password) ==>
      Update(db, caller, id, p) == Reply(db, BadRequest(ShortPassword))
    ensures !Clash(db.users, Some(id), p.username, p.email, p.studentId) && !PasswordTooShort(p.password)
            && !PatchValidates(p) ==>
      Update(db, caller, id, p) == Reply(db, BadRequest(UpdateFailed))
    ensures !Clash(db.users, Some(id), p.username, p.email, p.studentId) && !PasswordTooShort(p.password)
            && PatchValidates(p) && id !in db.users ==>
      Update(db, caller, id, p) == Reply(db, NotFound(StudentNotFound))
  {
  }

  /** A successful update: an absent or empty password keeps the stored
      digest, one of six or more characters replaces it by its digest; each
      other given path is stored after its setter (username and names
      trimmed, email lower-cased and trimmed) and each absent path keeps its
      stored value. The role, the assigned classes and the timetable never
      change, nor does any other user. */
  lemma UpdateFacts(db: Db, caller: Caller, id: Id, p: StudentPatch)
    requires Update(db, caller, id, p).out.Ok?
    ensures var r := Update(db, caller, id, p);
      var before := db.users[id];
      var after := r.db.users[id];
      && (p.password.None? || p.password == Some("") ==> after.password == before.password)
      && (p.password.Some? && |p.password.value| >= MinPasswordLength ==> after.password == Digest(Plain(p.password.value)))
      && after.role == before.role && after.timetable == before.timetable
      && after.assignedClasses == before.assignedClasses
      && (p.studentId.Some? ==> after.studentId == p.studentId)
      && (p.studentId.None? ==> after.studentId == before.studentId)
      && (p.username.Some? ==> after.username == Text.Trim(p.username.value))
      && (p.username.None? ==> after.username == before.username)
      && (p.email.Some? ==> after.email == NormalizeEmail(p.email.value))
      && (p.email.None? ==> after.email == before.email)
      && (p.firstName.Some? ==> after.firstName == Text.Trim(p.firstName.value))
      && (p.firstName.None? ==> after.firstName == before.firstName)
      && (p.lastName.Some? ==> after.lastName == Text.Trim(p.lastName.value))
      && (p.lastName.None? ==> after.lastName == before.lastName)
      && (p.enrolledClasses.Some? ==> after.enrolledClasses == p.enrolledClasses.value)
      && (p.enrolledClasses.None? ==> after.enrolledClasses == before.enrolledClasses)
      && (p.isActive.Some? ==> after.isActive == p.isActive.value)
      && (p.isActive.None? ==> after.isActive == before.isActive)
      && (forall other :: other in db.users && other != id ==> r.db.users[other] == db.users[other])
      && r.out.value == ProfileOf(id, after)
  {
  }

  /** Resubmitting a user's own username, email and student id is no conflict:
      the duplicate check leaves that user out, and the stored values are
      already as the setters leave them. */
  lemma OwnValuesNoClash(db: Db, id: Id)
    requires Valid(db) && id in db.users
    requires Normalized(db.users[id]) && db.users[id].studentId.Some?
    ensures var u := db.users[id];
      !Clash(db.users, Some(id), Some(u.username), Some(u.email), u.studentId)
  {
    var u := db.users[id];
    assert UsersUnique(db.users);
    forall other | other in db.users && other != id
      ensures db.users[other].username != Text.Trim(u.username)
      ensures db.users[other].email != NormalizeEmail(u.email)
      ensures db.users[other].studentId != u.studentId
    {
    }
  }

  /** An update that omits the student id sends `{ studentId: null }` in its
      duplicate check, which matches any other user that has no student id
      (an admin or a teacher): such an update is refused as a duplicate. */
  lemma UpdateWithoutStudentIdRefused(db: Db, caller: Caller, id: Id, other: Id, p: StudentPatch)
    requires IsAdmin(caller) && other in db.users && other != id && db.users[other].studentId.None?
    requires p.studentId.None?
    ensures Update(db, caller, id, p) == Reply(db, BadRequest(Duplicate))
  {
    assert StudentIdTaken(db.users, Some(id), None);
  }

  lemma UpdatePreservesValid(db: Db, caller: Caller, id: Id, p: StudentPatch)
    requires Valid(db)
    ensures Valid(Update(db, caller, id, p).db)
  {
    var r := Update(db, caller, id, p);
    if r.out.Ok? {
      var u := ApplyPatch(db.users[id], p);
      assert r.db == db.(users := db.users[id := u]);
      assert StoredPassword(u.password) by {
        assert WellFormed(db.users[id]);
      }
      forall a, b | a in r.db.users && b in r.db.users && a != b
        ensures && r.db.users[a].username != r.db.users[b].username
                && r.db.users[a].email != r.db.users[b].email
                && (r.db.users[a].studentId.Some? ==> r.db.users[a].studentId != r.db.users[b].studentId)
      {
        assert UsersUnique(db.users);
        if a == id || b == id {
          var o := if a == id then b else a;
          assert o in db.users && o != id;
          assert !UsernameTaken(db.users, Some(id), p.username);
          assert !EmailTaken(db.users, Some(id), p.email);
          assert !StudentIdTaken(db.users, Some(id), p.studentId);
        }
      }
      assert UsersValid(r.db.users, r.db.nextId);
    }
  }
}
