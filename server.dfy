/** The server as a whole: `server.js` mounts the five routers of the core
    (and an auth router, which is not part of this model), so a request to
    the core's API is one of their handlers. Only the writes are collected here,
    as one `Write` per write route; `Apply` sends each to its handler and
    keeps the new database. */
module Server {
  import opened Common
  import opened UserModel
  import opened ClassModel
  import opened Access
  import opened Database
  import opened AttendanceModel
  import ClassRoutes
  import AttendanceRoutes
  import ResultRoutes
  import StudentRoutes
  import TeacherRoutes

  /** One write request, with its body and path parameters. */
  datatype Write =
    | CreateClass(input: ClassInput)                                  // POST /api/classes
    | Enroll(classId: Id, studentId: Id)                              // POST /api/classes/:id/enroll
    | UpdateClass(id: Id, classPatch: ClassPatch)                     // PUT /api/classes/:id
    | AssignTeacher(id: Id, teacherId: Option<Id>)                    // PUT /api/classes/:id/assign-teacher
    | MarkAttendance(classId: Id, studentId: Id, date: Instant, status: string,
                     notes: Option<string>, now: Instant)             // POST /api/attendance
    | SaveResult(classId: Id, studentId: Id, bodyTeacher: Option<Id>, marks: int,
                 grade: Option<string>, remarks: Option<string>)      // POST /api/results
    | CreateStudent(username: string, email: string, password: string, firstName: string,
                    lastName: string, studentNumber: Option<string>)  // POST /api/students
    | UpdateStudent(id: Id, studentPatch: StudentRoutes.StudentPatch) // PUT /api/students/:id
    | CreateTeacher(username: string, email: string, password: string, firstName: string,
                    lastName: string)                                 // POST /api/teachers
    | AssignClasses(id: Id, assignedClasses: Option<seq<Id>>)         // PUT /api/teachers/:id/assign
    | SetTimetable(id: Id, timetable: Option<seq<TimetableEntry>>)    // PUT /api/teachers/:id/timetable

  /** The database after the handler of `w` has run for `caller`. */
  function Apply(db: Db, caller: Caller, w: Write): Db
  {
    match w
    case CreateClass(input) => ClassRoutes.Create(db, caller, input).db
    case Enroll(classId, studentId) => ClassRoutes.Enroll(db, caller, classId, studentId).db
    case UpdateClass(id, p) => ClassRoutes.Update(db, caller, id, p).db
    case AssignTeacher(id, t) => ClassRoutes.AssignTeacher(db, caller, id, t).db
    case MarkAttendance(classId, studentId, date, status, notes, now) =>
      AttendanceRoutes.Mark(db, caller, classId, studentId, date, status, notes, now).db
    case SaveResult(classId, studentId, t, marks, grade, remarks) =>
      ResultRoutes.Save(db, caller, classId, studentId, t, marks, grade, remarks).db
    case CreateStudent(username, email, password, firstName, lastName, studentNumber) =>
      StudentRoutes.Create(db, caller, username, email, password, firstName, lastName, studentNumber).db
    case UpdateStudent(id, p) => StudentRoutes.Update(db, caller, id, p).db
    case CreateTeacher(username, email, password, firstName, lastName) =>
      TeacherRoutes.Create(db, caller, username, email, password, firstName, lastName).db
    case AssignClasses(id, ids) => TeacherRoutes.Assign(db, caller, id, ids).db
    case SetTimetable(id, entries) => TeacherRoutes.SetTimetable(db, caller, id, entries).db
  }

  /** The writes of each router. */
  predicate ClassWrite(w: Write)
  {
    w.CreateClass? || w.Enroll? || w.UpdateClass? || w.AssignTeacher?
  }

  predicate RecordWrite(w: Write)
  {
    w.MarkAttendance? || w.SaveResult?
  }

  /** Every write keeps every constraint of the database, whoever sends it. */
  lemma ApplyPreservesValid(db: Db, caller: Caller, w: Write)
    requires Valid(db)
    ensures Valid(Apply(db, caller, w))
  {
    if ClassWrite(w) {
      ClassWritePreservesValid(db, caller, w);
    } else if RecordWrite(w) {
      RecordWritePreservesValid(db, caller, w);
    } else {
      UserWritePreservesValid(db, caller, w);
    }
  }

  lemma ClassWritePreservesValid(db: Db, caller: Caller, w: Write)
    requires Valid(db) && ClassWrite(w)
    ensures Valid(Apply(db, caller, w))
  {
    match w
    case CreateClass(input) => ClassRoutes.CreatePreservesValid(db, caller, input);
    case Enroll(classId, studentId) => ClassRoutes.EnrollPreservesValid(db, caller, classId, studentId);
    case UpdateClass(id, p) => ClassRoutes.UpdatePreservesValid(db, caller, id, p);
    case AssignTeacher(id, t) => ClassRoutes.AssignTeacherPreservesValid(db, caller, id, t);
  }

  lemma RecordWritePreservesValid(db: Db, caller: Caller, w: Write)
    requires Valid(db) && RecordWrite(w)
    ensures Valid(Apply(db, caller, w))
  {
    match w
    case MarkAttendance(classId, studentId, date, status, notes, now) =>
      AttendanceRoutes.MarkPreservesValid(db, caller, classId, studentId, date, status, notes, now);
    case SaveResult(classId, studentId, t, marks, grade, remarks) =>
      ResultRoutes.SavePreservesValid(db, caller, classId, studentId, t, marks, grade, remarks);
  }

  lemma UserWritePreservesValid(db: Db, caller: Caller, w: Write)
    requires Valid(db) && !ClassWrite(w) && !RecordWrite(w)
    ensures Valid(Apply(db, caller, w))
  {
    match w
    case CreateStudent(username, email, password, firstName, lastName, studentNumber) =>
      StudentRoutes.CreatePreservesValid(db, caller, username, email, password, firstName, lastName, studentNumber);
    case UpdateStudent(id, p) => StudentRoutes.UpdatePreservesValid(db, caller, id, p);
    case CreateTeacher(username, email, password, firstName, lastName) =>
      TeacherRoutes.CreatePreservesValid(db, caller, username, email, password, firstName, lastName);
    case AssignClasses(id, ids) => TeacherRoutes.AssignPreservesValid(db, caller, id, ids);
    case SetTimetable(id, entries) => TeacherRoutes.SetTimetablePreservesValid(db, caller, id, entries);
  }

  /** No route deletes a document: every stored user and every stored class is
      still stored after any write. */
  lemma WritesNeverDelete(db: Db, caller: Caller, w: Write)
    ensures db.users.Keys <= Apply(db, caller, w).users.Keys
    ensures db.classes.Keys <= Apply(db, caller, w).classes.Keys
  {
  }

  /** Every user of `db` is still stored in `db1`, with the same password. */
  predicate PasswordsKept(db: Db, db1: Db)
  {
    forall id :: id in db.users ==> id in db1.users && db1.users[id].password == db.users[id].password
  }

  /** The student update is the only write that changes a stored password:
      every other write, including the two creates, which add a user under an
      id no stored user has, leaves the password of every stored user as it
      was. So a digest is never hashed a second time by a save. */
  lemma OtherWritesKeepPasswords(db: Db, caller: Caller, w: Write)
    requires forall id :: id in db.users ==> id < db.nextId
    requires !w.UpdateStudent?
    ensures PasswordsKept(db, Apply(db, caller, w))
  {
    if ClassWrite(w) {
      ClassWriteKeepsPasswords(db, caller, w);
    } else if !RecordWrite(w) {
      UserWriteKeepsPasswords(db, caller, w);
    }
  }

  lemma ClassWriteKeepsPasswords(db: Db, caller: Caller, w: Write)
    requires ClassWrite(w)
    ensures PasswordsKept(db, Apply(db, caller, w))
  {
    match w
    case AssignTeacher(id, t) =>
      var r := ClassRoutes.AssignTeacher(db, caller, id, t);
      if r.out.Ok? && t.Some? {
        ClassRoutes.AssignTeacherFacts(db, caller, id, t.value, t.value);
      }
    case _ =>
  }

  lemma UserWriteKeepsPasswords(db: Db, caller: Caller, w: Write)
    requires forall id :: id in db.users ==> id < db.nextId
    requires !ClassWrite(w) && !RecordWrite(w) && !w.UpdateStudent?
    ensures PasswordsKept(db, Apply(db, caller, w))
  {
  }
}
