/** The handlers of `/teachers`. */
module TeacherRoutes {
  import opened Common
  import opened UserModel
  import opened ClassModel
  import opened Access
  import opened Database
  import ClassRoutes
  import Text

  const Duplicate := "Username or email already exists"
  const CreateFailed := "Error creating teacher"
  const TeacherNotFound := "Teacher not found"

  /** `POST /teachers` (admin): 400 when any user has the username or the
      email, then 400 when the new document fails its validators; otherwise a
      user with role teacher and no assigned classes, returned without its
      password. */
  function Create(db: Db, caller: Caller, username: string, email: string, password: string,
                  firstName: string, lastName: string): (r: Reply<Profile>)
    ensures !r.out.Ok? ==> r.db == db
    ensures r.out.Ok? ==> r.out.value.id == db.nextId && r.out.value.role == Teacher
  {
    if !IsAdmin(caller) then Reply(db, Forbidden(AdminRequired))
    else if UsernameTaken(db.users, None, Some(username)) || EmailTaken(db.users, None, Some(email)) then
      Reply(db, BadRequest(Duplicate))
    else
      var d := Draft(username, email, password, Teacher, firstName, lastName, None);
      if !UserModel.Validates(d) then Reply(db, BadRequest(CreateFailed))
      else
        var u := Materialize(d).(assignedClasses := []);
        Reply(db.(users := db.users[db.nextId := u], nextId := db.nextId + 1), Ok(ProfileOf(db.nextId, u)))
  }

  /** `GET /teachers` (admin): the users whose role is teacher, without passwords. */
  function List(db: Db, caller: Caller): (r: Outcome<map<Id, Profile>>)
    ensures r.Ok? <==> IsAdmin(caller)
    ensures r.Ok? ==> forall id :: id in r.value <==> id in db.users && db.users[id].role == Teacher
    ensures r.Ok? ==> forall id :: id in r.value ==> r.value[id] == ProfileOf(id, db.users[id])
  {
    if !IsAdmin(caller) then Forbidden(AdminRequired)
    else Ok(map id | id in db.users && db.users[id].role == Teacher :: ProfileOf(id, db.users[id]))
  }

  /** `PUT /teachers/:id/assign` (admin) with body `{ assignedClasses }`: the
      list replaces the user's `assignedClasses` as a whole. The lookup is by
      id alone, whatever the user's role, and no class document is touched. */
  function Assign(db: Db, caller: Caller, id: Id, assignedClasses: Option<seq<Id>>): (r: Reply<Profile>)
    ensures !r.out.Ok? ==> r.db == db
    ensures r.out.Ok? ==> id in db.users && r.db == db.(users := r.db.users)
  {
    if !IsAdmin(caller) then Reply(db, Forbidden(AdminRequired))
    else if id !in db.users then Reply(db, NotFound(TeacherNotFound))
    else
      var u := db.users[id].(assignedClasses := Overwrite(db.users[id].assignedClasses, assignedClasses));
      Reply(db.(users := db.users[id := u]), Ok(ProfileOf(id, u)))
  }

  /** `PUT /teachers/:id/timetable` (admin) with body `{ timetable }`: the
      entries replace the user's `timetable` as a whole. */
  function SetTimetable(db: Db, caller: Caller, id: Id, timetable: Option<seq<TimetableEntry>>): (r: Reply<Profile>)
    ensures !r.out.Ok? ==> r.db == db
    ensures r.out.Ok? ==> id in db.users && r.db == db.(users := r.db.users)
  {
    if !IsAdmin(caller) then Reply(db, Forbidden(AdminRequired))
    else if id !in db.users then Reply(db, NotFound(TeacherNotFound))
    else
      var u := db.users[id].(timetable := Overwrite(db.users[id].timetable, timetable));
      Reply(db.(users := db.users[id := u]), Ok(ProfileOf(id, u)))
  }

  /** `GET /teachers/:id`: the access check before the lookup. */
  function Get(db: Db, caller: Caller, id: Id): (r: Outcome<Profile>)
    ensures r.Ok? <==> AdminOrSelf(caller, id) && id in db.users
    ensures r.Ok? ==> r.value == ProfileOf(id, db.users[id]) && r.value.id == id
  {
    if !AdminOrSelf(caller, id) then Forbidden(AccessDenied)
    else if id !in db.users then NotFound(TeacherNotFound)
    else Ok(ProfileOf(id, db.users[id]))
  }

  /** `populate('assignedClasses')`: each id replaced by its class document,
      in order, an id that no class has dropped. */
  function Populate(classes: map<Id, Class>, ids: seq<Id>): (r: seq<(Id, Class)>)
    ensures |r| <= |ids|
    ensures forall k :: 0 <= k < |r| ==> r[k].0 in ids && r[k].0 in classes && r[k].1 == classes[r[k].0]
    ensures forall k :: 0 <= k < |ids| && ids[k] in classes ==> (ids[k], classes[ids[k]]) in r
  {
    if ids == [] then []
    else (if ids[0] in classes then [(ids[0], classes[ids[0]])] else []) + Populate(classes, ids[1..])
  }

  /** `GET /teachers/:id/classes`: the access check, the lookup, then the
      user's assigned classes as documents. */
  function Classes(db: Db, caller: Caller, id: Id): (r: Outcome<seq<(Id, Class)>>)
    ensures r.Ok? <==> AdminOrSelf(caller, id) && id in db.users
    ensures r.Ok? ==> id in db.users && r.value == Populate(db.classes, db.users[id].assignedClasses)
  {
    if !AdminOrSelf(caller, id) then Forbidden(AccessDenied)
    else if id !in db.users then NotFound(TeacherNotFound)
    else Ok(Populate(db.classes, db.users[id].assignedClasses))
  }

  function IdsOf(r: seq<(Id, Class)>): (ids: seq<Id>)
    ensures |ids| == |r| && forall k :: 0 <= k < |r| ==> ids[k] == r[k].0
  {
    if r == [] then [] else [r[0].0] + IdsOf(r[1..])
  }

  // ---------------------------------------------------------------------------
  // Create

  /** A create succeeds exactly for an admin whose username and email no user
      has and whose body passes the validators; a clash is reported first. */
  lemma CreateOutcome(db: Db, caller: Caller, username: string, email: string, password: string,
                      firstName: string, lastName: string)
    ensures var r := Create(db, caller, username, email, password, firstName, lastName);
      var d := Draft(username, email, password, Teacher, firstName, lastName, None);
      var clash := UsernameTaken(db.users, None, Some(username)) || EmailTaken(db.users, None, Some(email));
      && (r.out.Ok? <==> IsAdmin(caller) && !clash && UserModel.Validates(d))
      && (IsAdmin(caller) && clash ==> r.out == BadRequest(Duplicate))
  {
  }

  /** The user a create inserts has a fresh id, role teacher, no assigned
      classes, no student id, an empty timetable, is active and stores the
      digest of the given password; nothing else changes. */
  lemma CreateResult(db: Db, caller: Caller, username: string, email: string, password: string,
                     firstName: string, lastName: string)
    requires forall id :: id in db.users ==> id < db.nextId
    requires Create(db, caller, username, email, password, firstName, lastName).out.Ok?
    ensures var r := Create(db, caller, username, email, password, firstName, lastName);
      var id := db.nextId;
      var u := r.db.users[id];
      && id !in db.users
      && r.db == db.(users := db.users[id := u], nextId := db.nextId + 1)
      && u.role == Teacher && u.assignedClasses == [] && u.studentId.None? && u.timetable == []
      && u.username == Text.Trim(username) && u.email == NormalizeEmail(email)
      && u.password == Digest(Plain(password)) && u.isActive
      && r.out.value == ProfileOf(id, u)
  {
  }

  lemma CreatePreservesValid(db: Db, caller: Caller, username: string, email: string, password: string,
                             firstName: string, lastName: string)
    requires Valid(db)
    ensures Valid(Create(db, caller, username, email, password, firstName, lastName).db)
  {
    var r := Create(db, caller, username, email, password, firstName, lastName);
    if r.out.Ok? {
      var d := Draft(username, email, password, Teacher, firstName, lastName, None);
      var u := Materialize(d).(assignedClasses := []);
      MaterializeFacts(d);
      assert !UsernameTaken(db.users, None, Some(username)) && !EmailTaken(db.users, None, Some(email));
      ValidWithNewUser(db, u);
    }
  }

  // ---------------------------------------------------------------------------
  // Assign and timetable

  /** Assign succeeds exactly for an admin and an existing user of any role.
      The user's `assignedClasses` becomes exactly the given list (what was
      there before is not kept), every other path and every other user stay
      as they were, and no class changes: in particular no `Class.teacher`,
      so the by-teacher class query answers as before. */
  lemma AssignFacts(db: Db, caller: Caller, id: Id, ids: seq<Id>, viewer: Caller, t: Id)
    ensures var r := Assign(db, caller, id, Some(ids));
      && (r.out.Ok? <==> IsAdmin(caller) && id in db.users)
      && (IsAdmin(caller) && id !in db.users ==> r.out == NotFound(TeacherNotFound))
      && (r.out.Ok? ==>
            && r.db.users == db.users[id := db.users[id].(assignedClasses := ids)]
            && r.db.classes == db.classes
            && r.out.value.assignedClasses == ids
            && ClassRoutes.TeacherClasses(r.db, viewer, t) == ClassRoutes.TeacherClasses(db, viewer, t))
  {
  }

  /** After an assign, the user's classes route serves the classes of exactly
      the given list, in its order, each id without a class left out; when
      every id has a class, the ids served are the list itself. */
  lemma {:induction false} AssignThenClasses(db: Db, caller: Caller, id: Id, ids: seq<Id>, viewer: Caller)
    requires IsAdmin(caller) && id in db.users && AdminOrSelf(viewer, id)
    ensures var db1 := Assign(db, caller, id, Some(ids)).db;
      Classes(db1, viewer, id) == Ok(Populate(db.classes, ids))
    ensures (forall k :: 0 <= k < |ids| ==> ids[k] in db.classes) ==> IdsOf(Populate(db.classes, ids)) == ids
  {
    if forall k :: 0 <= k < |ids| ==> ids[k] in db.classes {
      PopulateAllPresent(db.classes, ids);
    }
  }

  lemma {:induction false} PopulateAllPresent(classes: map<Id, Class>, ids: seq<Id>)
    requires forall k :: 0 <= k < |ids| ==> ids[k] in classes
    ensures IdsOf(Populate(classes, ids)) == ids
  {
    if ids != [] {
      PopulateAllPresent(classes, ids[1..]);
      assert Populate(classes, ids) == [(ids[0], classes[ids[0]])] + Populate(classes, ids[1..]);
      assert IdsOf(Populate(classes, ids)) == [ids[0]] + IdsOf(Populate(classes, ids[1..]));
    }
  }

  /** Timetable succeeds exactly for an admin and an existing user; the
      user's `timetable` becomes exactly the given entries and nothing else
      changes. */
  lemma SetTimetableFacts(db: Db, caller: Caller, id: Id, entries: seq<TimetableEntry>)
    ensures var r := SetTimetable(db, caller, id, Some(entries));
      && (r.out.Ok? <==> IsAdmin(caller) && id in db.users)
      && (IsAdmin(caller) && id !in db.users ==> r.out == NotFound(TeacherNotFound))
      && (r.out.Ok? ==>
            && r.db.users == db.users[id := db.users[id].(timetable := entries)]
            && r.out.value.timetable == entries)
  {
  }

  lemma AssignPreservesValid(db: Db, caller: Caller, id: Id, assignedClasses: Option<seq<Id>>)
    requires Valid(db)
    ensures Valid(Assign(db, caller, id, assignedClasses).db)
  {
    var r := Assign(db, caller, id, assignedClasses);
    if r.out.Ok? {
      ValidWhenIdentitiesKept(db, r.db);
    }
  }

  lemma SetTimetablePreservesValid(db: Db, caller: Caller, id: Id, timetable: Option<seq<TimetableEntry>>)
    requires Valid(db)
    ensures Valid(SetTimetable(db, caller, id, timetable).db)
  {
    var r := SetTimetable(db, caller, id, timetable);
    if r.out.Ok? {
      ValidWhenIdentitiesKept(db, r.db);
    }
  }

  // ---------------------------------------------------------------------------
  // Reads

  /** Both single reads refuse a non-admin asking for another id whether or
      not it exists, and give 404 for a missing id only after that. */
  lemma ReadAccess(db: Db, caller: Caller, id: Id)
    ensures !AdminOrSelf(caller, id) ==>
      Get(db, caller, id) == Forbidden(AccessDenied) && Classes(db, caller, id) == Forbidden(AccessDenied)
    ensures AdminOrSelf(caller, id) && id !in db.users ==>
      Get(db, caller, id) == NotFound(TeacherNotFound) && Classes(db, caller, id) == NotFound(TeacherNotFound)
    ensures AdminOrSelf(caller, id) && id in db.users ==> Get(db, caller, id) == Ok(ProfileOf(id, db.users[id]))
  {
  }
}
