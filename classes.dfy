/** The handlers of `/classes`. */
module ClassRoutes {
  import opened Common
  import opened UserModel
  import opened ClassModel
  import opened Access
  import opened Database
  import Aggregate

  const ClassNotFound := "Class not found"
  const NotFoundEither := "Class or student not found"
  const OnlyStudents := "Only students can be enrolled in classes"
  const AlreadyEnrolled := "Student already enrolled"
  const AtCapacity := "Class is at maximum capacity"
  const Enrolled := "Student enrolled successfully"

  /** `POST /classes` (admin): the body's paths with `createdBy` forced to the
      caller; a failed validator or a taken code is a 400 (the duplicate-key
      error of the unique index has its own message). */
  function Create(db: Db, caller: Caller, input: ClassInput): (r: Reply<(Id, Class)>)
    ensures !r.out.Ok? ==> r.db == db
    ensures r.out.Ok? ==> r.out.value.0 == db.nextId && r.out.value.0 in r.db.classes
  {
    if !IsAdmin(caller) then Reply(db, Forbidden(AdminRequired))
    else if !ClassModel.Validates(input) then Reply(db, BadRequest("Error creating class"))
    else
      var c := Build(input, caller.id);
      if CodeInUse(db.classes, c.code, None) then Reply(db, BadRequest("Class code already exists"))
      else Reply(db.(classes := db.classes[db.nextId := c], nextId := db.nextId + 1), Ok((db.nextId, c)))
  }

  /** `GET /classes`: admins get every active class; anyone else the active
      classes whose `enrolledStudents` holds the caller. */
  function List(db: Db, caller: Caller): (r: Outcome<map<Id, Class>>)
    ensures r.Ok?
    ensures forall id :: id in r.value ==> id in db.classes && r.value[id] == db.classes[id]
  {
    Ok(map id | id in db.classes && db.classes[id].isActive
                && (IsAdmin(caller) || caller.id in db.classes[id].enrolledStudents) :: db.classes[id])
  }

  /** `enrolledStudents.some(student => student._id.equals(req.user._id))` after
      `populate`, which drops the ids no user document has. */
  predicate InPopulatedRoster(db: Db, c: Class, userId: Id)
  {
    userId in c.enrolledStudents && userId in db.users
  }

  /** `GET /classes/:id`: 404 before the access check, then 403 for a
      non-admin who is not on the roster. */
  function GetById(db: Db, caller: Caller, id: Id): (r: Outcome<Class>)
    ensures r.Ok? ==> id in db.classes && r.value == db.classes[id]
    ensures id !in db.classes ==> r == NotFound(ClassNotFound)
    ensures id in db.classes ==> (r.Ok? <==> IsAdmin(caller) || InPopulatedRoster(db, db.classes[id], caller.id))
  {
    if id !in db.classes then NotFound(ClassNotFound)
    else if !IsAdmin(caller) && !InPopulatedRoster(db, db.classes[id], caller.id) then Forbidden(AccessDenied)
    else Ok(db.classes[id])
  }

  /** The class and the student after a successful enroll: each appended to
      the other's array, the student saved without touching the password. */
  function EnrollEffect(db: Db, classId: Id, studentId: Id): Db
    requires classId in db.classes && studentId in db.users
  {
    var c := db.classes[classId];
    var s := db.users[studentId];
    db.(classes := db.classes[classId := c.(enrolledStudents := c.enrolledStudents + [studentId])],
        users := db.users[studentId := PreSave(s.(enrolledClasses := s.enrolledClasses + [classId]), false)])
  }

  /** `POST /classes/:id/enroll` (admin) with body `{ studentId }`. */
  function Enroll(db: Db, caller: Caller, classId: Id, studentId: Id): (r: Reply<string>)
    ensures !r.out.Ok? ==> r.db == db
    ensures r.out.Ok? ==> classId in db.classes && studentId in db.users && r.db == EnrollEffect(db, classId, studentId)
  {
    if !IsAdmin(caller) then Reply(db, Forbidden(AdminRequired))
    else if classId !in db.classes || studentId !in db.users then Reply(db, NotFound(NotFoundEither))
    else
      var c := db.classes[classId];
      if db.users[studentId].role != Student then Reply(db, BadRequest(OnlyStudents))
      else if studentId in c.enrolledStudents then Reply(db, BadRequest(AlreadyEnrolled))
      else if |c.enrolledStudents| >= c.maxCapacity then Reply(db, BadRequest(AtCapacity))
      else Reply(EnrollEffect(db, classId, studentId), Ok(Enrolled))
  }

  /** `PUT /classes/:id` (admin): the update validators run before the query,
      so an invalid patch is a 400 even for a missing class; the unique index
      turns a code another class has into a 400. */
  function Update(db: Db, caller: Caller, id: Id, patch: ClassPatch): (r: Reply<Class>)
    ensures !r.out.Ok? ==> r.db == db
    ensures r.out.Ok? ==> id in db.classes && r.db == db.(classes := db.classes[id := r.out.value])
  {
    if !IsAdmin(caller) then Reply(db, Forbidden(AdminRequired))
    else if !PatchValidates(patch) then Reply(db, BadRequest("Error updating class"))
    else if id !in db.classes then Reply(db, NotFound(ClassNotFound))
    else
      var c := ApplyPatch(db.classes[id], patch);
      if CodeInUse(db.classes, c.code, Some(id)) then Reply(db, BadRequest("Error updating class"))
      else Reply(db.(classes := db.classes[id := c]), Ok(c))
  }

  /** The `$addToSet` of the class on the given user, when that user exists. */
  function AddAssignedClass(users: map<Id, User>, userId: Id, classId: Id): map<Id, User>
  {
    if userId in users
    then users[userId := users[userId].(assignedClasses := AddToSet(users[userId].assignedClasses, classId))]
    else users
  }

  /** `PUT /classes/:id/assign-teacher` (admin) with body `{ teacherId }`: sets
      `Class.teacher`, then adds the class to that user's `assignedClasses`.
      Nothing checks that the user exists or is a teacher, and the previous
      teacher keeps the class. An absent `teacherId` leaves the class as it is. */
  function AssignTeacher(db: Db, caller: Caller, id: Id, teacherId: Option<Id>): (r: Reply<Class>)
    ensures !r.out.Ok? ==> r.db == db
    ensures r.db.attendance == db.attendance && r.db.results == db.results && r.db.nextId == db.nextId
    ensures r.out.Ok? ==> id in db.classes && r.db.classes == db.classes[id := r.out.value]
  {
    if !IsAdmin(caller) then Reply(db, Forbidden(AdminRequired))
    else if id !in db.classes then Reply(db, NotFound(ClassNotFound))
    else
      var c := db.classes[id].(teacher := Merge(db.classes[id].teacher, teacherId));
      var db1 := db.(classes := db.classes[id := c]);
      match teacherId
      case Some(t) => Reply(db1.(users := AddAssignedClass(db1.users, t, id)), Ok(c))
      case None => Reply(db1, Ok(c))
  }

  /** `GET /classes/teacher/:teacherId`: admin or that user; every class, active
      or not, whose `teacher` is the id. */
  function TeacherClasses(db: Db, caller: Caller, teacherId: Id): (r: Outcome<map<Id, Class>>)
    ensures r.Ok? <==> AdminOrSelf(caller, teacherId)
    ensures r.Ok? ==> forall id :: id in r.value <==> id in db.classes && db.classes[id].teacher == Some(teacherId)
    ensures r.Ok? ==> forall id :: id in r.value ==> r.value[id] == db.classes[id]
  {
    if !AdminOrSelf(caller, teacherId) then Forbidden(AccessDenied)
    else Ok(map id | id in db.classes && db.classes[id].teacher == Some(teacherId) :: db.classes[id])
  }

  // ---------------------------------------------------------------------------
  // Create

  /** A created class has a fresh id, the caller as creator whatever the body
      said, the normalised non-empty code, a schedule of weekdays, and the
      schema defaults where the body is silent; nothing else changes. A taken
      code gives the duplicate-key message. */
  lemma CreateFacts(db: Db, caller: Caller, input: ClassInput)
    requires forall id :: id in db.classes ==> id < db.nextId
    ensures var r := Create(db, caller, input);
      && (r.out.Ok? ==>
            var (id, c) := r.out.value;
            && id !in db.classes
            && r.db == db.(classes := db.classes[id := c], nextId := db.nextId + 1)
            && c.createdBy == caller.id
            && c.code == NormalizeCode(input.code) && c.code != ""
            && ScheduleValid(c.schedule)
            && (input.maxCapacity.None? ==> c.maxCapacity == DefaultMaxCapacity)
            && (input.isActive.None? ==> c.isActive)
            && c.enrolledStudents == input.enrolledStudents)
      && (r.out.Ok? <==> IsAdmin(caller) && ClassModel.Validates(input) && !CodeInUse(db.classes, NormalizeCode(input.code), None))
      && ((IsAdmin(caller) && ClassModel.Validates(input) && CodeInUse(db.classes, NormalizeCode(input.code), None))
            ==> r.out == BadRequest("Class code already exists"))
  {
    var r := Create(db, caller, input);
    if IsAdmin(caller) && ClassModel.Validates(input) {
      var c := Build(input, caller.id);
      assert c.code == NormalizeCode(input.code);
      assert c.createdBy == caller.id;
    }
  }

  lemma CreatePreservesValid(db: Db, caller: Caller, input: ClassInput)
    requires Valid(db)
    ensures Valid(Create(db, caller, input).db)
  {
    var r := Create(db, caller, input);
    if r.out.Ok? {
      var (id, c) := r.out.value;
      forall a, b | a in r.db.classes && b in r.db.classes && a != b
        ensures r.db.classes[a].code != r.db.classes[b].code
      {
        if a == id {
          assert !CodeInUse(db.classes, c.code, None);
          assert db.classes[b].code != c.code;
        } else if b == id {
          assert !CodeInUse(db.classes, c.code, None);
          assert db.classes[a].code != c.code;
        }
      }
    }
  }

  // ---------------------------------------------------------------------------
  // List and get

  /** The list: admins see exactly the active classes, anyone else exactly the
      active classes whose roster holds them, always a part of what an admin sees. */
  lemma ListVisibility(db: Db, caller: Caller, admin: Caller)
    requires IsAdmin(admin)
    ensures forall id :: id in List(db, admin).value <==> id in db.classes && db.classes[id].isActive
    ensures !IsAdmin(caller) ==> forall id :: id in List(db, caller).value <==>
              id in db.classes && db.classes[id].isActive && caller.id in db.classes[id].enrolledStudents
    ensures List(db, caller).value.Keys <= List(db, admin).value.Keys
  {
  }

  /** Get-by-id answers every caller 404 for a missing class, then 403 exactly
      for a non-admin off the populated roster. */
  lemma GetByIdAccess(db: Db, caller: Caller, id: Id)
    ensures id !in db.classes ==> GetById(db, caller, id) == NotFound(ClassNotFound)
    ensures id in db.classes ==>
      (GetById(db, caller, id).Forbidden? <==> !IsAdmin(caller) && !(caller.id in db.classes[id].enrolledStudents && caller.id in db.users))
  {
  }

  /** The list and get-by-id agree for a caller that is a stored user: a listed
      class can be fetched, and a fetchable active class is listed. */
  lemma ListAgreesWithGet(db: Db, caller: Caller, id: Id)
    requires caller.id in db.users
    ensures id in List(db, caller).value ==> GetById(db, caller, id) == Ok(db.classes[id])
    ensures GetById(db, caller, id).Ok? && db.classes[id].isActive ==> id in List(db, caller).value
  {
  }

  // ---------------------------------------------------------------------------
  // Enroll

  /** Guard order: not found before the role, the role before "already
      enrolled", "already enrolled" before the capacity. Every refusal changes
      nothing. */
  lemma EnrollGuardOrder(db: Db, caller: Caller, classId: Id, studentId: Id)
    requires IsAdmin(caller)
    ensures classId !in db.classes || studentId !in db.users ==>
      Enroll(db, caller, classId, studentId) == Reply(db, NotFound(NotFoundEither))
    ensures classId in db.classes && studentId in db.users && db.users[studentId].role != Student ==>
      Enroll(db, caller, classId, studentId) == Reply(db, BadRequest(OnlyStudents))
    ensures classId in db.classes && studentId in db.users && db.users[studentId].role == Student
            && studentId in db.classes[classId].enrolledStudents ==>
      Enroll(db, caller, classId, studentId) == Reply(db, BadRequest(AlreadyEnrolled))
  {
  }

  /** Once the other guards pass, enroll succeeds exactly when the roster is
      below `maxCapacity`; success grows the roster by one, so a roster within
      capacity stays within it. */
  lemma EnrollCapacity(db: Db, caller: Caller, classId: Id, studentId: Id)
    requires IsAdmin(caller)
    requires classId in db.classes && studentId in db.users
    requires db.users[studentId].role == Student && studentId !in db.classes[classId].enrolledStudents
    ensures var r := Enroll(db, caller, classId, studentId);
      && (r.out.Ok? <==> |db.classes[classId].enrolledStudents| < db.classes[classId].maxCapacity)
      && (!r.out.Ok? ==> r.out == BadRequest(AtCapacity))
      && (r.out.Ok? ==> |r.db.classes[classId].enrolledStudents| == |db.classes[classId].enrolledStudents| + 1)
      && (|db.classes[classId].enrolledStudents| <= db.classes[classId].maxCapacity ==>
            |r.db.classes[classId].enrolledStudents| <= r.db.classes[classId].maxCapacity)
  {
  }

  /** A successful enroll appends the student to the class's roster, where it
      then occurs exactly once, and the class to the student's classes; every
      other class, user, record and result, and the student's password, are as
      they were. */
  lemma {:induction false} EnrollFrame(db: Db, caller: Caller, classId: Id, studentId: Id)
    requires Enroll(db, caller, classId, studentId).out.Ok?
    ensures var db' := Enroll(db, caller, classId, studentId).db;
      && db'.classes.Keys == db.classes.Keys && db'.users.Keys == db.users.Keys
      && db'.classes[classId] == db.classes[classId].(enrolledStudents := db.classes[classId].enrolledStudents + [studentId])
      && db'.users[studentId] == db.users[studentId].(enrolledClasses := db.users[studentId].enrolledClasses + [classId])
      && Aggregate.Occurrences(db'.classes[classId].enrolledStudents, studentId) == 1
      && (forall id :: id in db.classes && id != classId ==> db'.classes[id] == db.classes[id])
      && (forall id :: id in db.users && id != studentId ==> db'.users[id] == db.users[id])
      && db'.attendance == db.attendance && db'.results == db.results && db'.nextId == db.nextId
  {
    var roster := db.classes[classId].enrolledStudents;
    Aggregate.OccurrencesAbsent(roster, studentId);
    Aggregate.OccurrencesAppend(roster, studentId, studentId);
  }

  /** Enrolling the same pair twice: the second call is refused as already
      enrolled and changes nothing, so the student is on the roster once. */
  lemma {:induction false} EnrollTwice(db: Db, caller: Caller, classId: Id, studentId: Id)
    requires Enroll(db, caller, classId, studentId).out.Ok?
    ensures var db1 := Enroll(db, caller, classId, studentId).db;
      && Enroll(db1, caller, classId, studentId) == Reply(db1, BadRequest(AlreadyEnrolled))
      && Aggregate.Occurrences(db1.classes[classId].enrolledStudents, studentId) == 1
  {
    EnrollFrame(db, caller, classId, studentId);
  }

  lemma EnrollPreservesValid(db: Db, caller: Caller, classId: Id, studentId: Id)
    requires Valid(db)
    ensures Valid(Enroll(db, caller, classId, studentId).db)
  {
    var r := Enroll(db, caller, classId, studentId);
    if r.out.Ok? {
      ValidWhenIdentitiesKept(db, r.db);
    }
  }

  // ---------------------------------------------------------------------------
  // Update and assign-teacher

  /** The capacity is checked only by enroll: an update may shrink
      `maxCapacity` under the roster (or lengthen the roster past it). */
  lemma UpdateCanExceedCapacity(db: Db, caller: Caller, id: Id)
    requires Valid(db) && IsAdmin(caller) && id in db.classes
    requires |db.classes[id].enrolledStudents| > 0
    ensures var patch := ClassPatch(None, None, None, None, None, None, None, None, Some(0), None, None, None);
      var r := Update(db, caller, id, patch);
      && r.out.Ok?
      && |r.db.classes[id].enrolledStudents| > r.db.classes[id].maxCapacity
  {
  }

  /** Update: a patch that fails its validators is refused before the lookup,
      so even a missing class gets 400; a valid patch for a missing class gets
      404; success overwrites exactly the paths the patch sets. */
  lemma UpdateGuardOrder(db: Db, caller: Caller, id: Id, patch: ClassPatch)
    requires IsAdmin(caller)
    ensures !PatchValidates(patch) ==> Update(db, caller, id, patch) == Reply(db, BadRequest("Error updating class"))
    ensures PatchValidates(patch) && id !in db.classes ==> Update(db, caller, id, patch) == Reply(db, NotFound(ClassNotFound))
    ensures Update(db, caller, id, patch).out.Ok? ==> Update(db, caller, id, patch).out.value == ApplyPatch(db.classes[id], patch)
  {
  }

  lemma UpdatePreservesValid(db: Db, caller: Caller, id: Id, patch: ClassPatch)
    requires Valid(db)
    ensures Valid(Update(db, caller, id, patch).db)
  {
    var r := Update(db, caller, id, patch);
    if r.out.Ok? {
      var c := r.out.value;
      forall a, b | a in r.db.classes && b in r.db.classes && a != b
        ensures r.db.classes[a].code != r.db.classes[b].code
      {
        if a == id {
          assert db.classes[b].code != c.code;
        } else if b == id {
          assert db.classes[a].code != c.code;
        }
      }
    }
  }

  /** Assign-teacher sets the class's teacher and adds the class to that
      user's `assignedClasses` once, with set semantics: repeating the call
      changes nothing more. No other class and no other user changes, so the
      previous teacher keeps the class. */
  lemma AssignTeacherFacts(db: Db, caller: Caller, id: Id, t: Id, previous: Id)
    requires IsAdmin(caller) && id in db.classes
    ensures var db1 := AssignTeacher(db, caller, id, Some(t)).db;
      && AssignTeacher(db, caller, id, Some(t)).out.Ok?
      && db1.classes == db.classes[id := db.classes[id].(teacher := Some(t))]
      && db1.users == (if t in db.users
                       then db.users[t := db.users[t].(assignedClasses := AddToSet(db.users[t].assignedClasses, id))]
                       else db.users)
      && db1.attendance == db.attendance && db1.results == db.results && db1.nextId == db.nextId
      && db1.classes[id].teacher == Some(t)
      && (t in db.users ==> t in db1.users && id in db1.users[t].assignedClasses)
      && AssignTeacher(db1, caller, id, Some(t)).db == db1
      && (previous in db.users && id in db.users[previous].assignedClasses ==>
            previous in db1.users && id in db1.users[previous].assignedClasses)
  {
    var db1 := AssignTeacher(db, caller, id, Some(t)).db;
    if t in db.users {
      assert id in db1.users[t].assignedClasses;
      assert AddToSet(db1.users[t].assignedClasses, id) == db1.users[t].assignedClasses;
      assert db1.classes[id := db1.classes[id]] == db1.classes;
      assert db1.users[t := db1.users[t]] == db1.users;
    } else {
      assert db1.classes[id := db1.classes[id]] == db1.classes;
    }
  }

  /** Without a `teacherId` the route answers with the class and changes nothing. */
  lemma AssignTeacherAbsent(db: Db, caller: Caller, id: Id)
    requires IsAdmin(caller) && id in db.classes
    ensures AssignTeacher(db, caller, id, None) == Reply(db, Ok(db.classes[id]))
  {
    assert db.classes[id := db.classes[id]] == db.classes;
  }

  lemma AssignTeacherPreservesValid(db: Db, caller: Caller, id: Id, teacherId: Option<Id>)
    requires Valid(db)
    ensures Valid(AssignTeacher(db, caller, id, teacherId).db)
  {
    var r := AssignTeacher(db, caller, id, teacherId);
    if r.out.Ok? {
      ValidWhenIdentitiesKept(db, r.db);
    }
  }
}
