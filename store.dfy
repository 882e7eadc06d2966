/** The database as one object whose tables the write routes update in place,
    one at a time. Each method performs its route's steps on the fields and
    is proved to leave exactly the state, and send exactly the response, that
    the route's handler function describes; the read routes are the handler
    functions applied to `Snapshot()`. */
module Store {
  import opened Common
  import opened UserModel
  import opened ClassModel
  import opened Access
  import opened Database
  import Text
  import AM = AttendanceModel
  import RM = ResultModel
  import ClassRoutes
  import AttendanceRoutes
  import ResultRoutes
  import StudentRoutes
  import TeacherRoutes

  class Store {
    var users: map<Id, User>
    var classes: map<Id, Class>
    var attendance: seq<AM.AttendanceRecord>
    var results: seq<RM.ResultRecord>
    var nextId: nat

    function Snapshot(): Db
      reads this
    {
      Db(users, classes, attendance, results, nextId)
    }

    ghost predicate Valid()
      reads this
    {
      Database.Valid(Snapshot())
    }

    /** An empty database. */
    constructor ()
      ensures Snapshot() == Empty && Valid()
    {
      users, classes, attendance, results, nextId := map[], map[], [], [], 0;
      EmptyValid();
    }

    // -------------------------------------------------------------------------
    // Scans

    /** The position `findOneAndUpdate` matches for an attendance key: the
        first record with the key, or the table's length when none has it. */
    method IndexOfKey(k: AM.Key) returns (i: nat)
      ensures i <= |attendance|
      ensures i < |attendance| ==> AM.Find(attendance, k) == Some(i)
      ensures i == |attendance| ==> AM.Find(attendance, k) == None
    {
      i := 0;
      while i < |attendance| && AM.KeyOf(attendance[i]) != k
        invariant i <= |attendance|
        invariant forall j :: 0 <= j < i ==> AM.KeyOf(attendance[j]) != k
      {
        i := i + 1;
      }
      if i < |attendance| {
        AM.FindFirst(attendance, k, i);
      }
    }

    /** The position `findOneAndUpdate` matches for a result's pair. */
    method IndexOfPair(classId: Id, studentId: Id) returns (i: nat)
      ensures i <= |results|
      ensures i < |results| ==> RM.Find(results, classId, studentId) == Some(i)
      ensures i == |results| ==> RM.Find(results, classId, studentId) == None
    {
      i := 0;
      while i < |results| && !(results[i].classId == classId && results[i].studentId == studentId)
        invariant i <= |results|
        invariant forall j :: 0 <= j < i ==> (results[j].classId, results[j].studentId) != (classId, studentId)
      {
        i := i + 1;
      }
      if i < |results| {
        RM.FindFirst(results, classId, studentId, i);
      }
    }

    // -------------------------------------------------------------------------
    // Classes

    method CreateClass(caller: Caller, input: ClassInput) returns (o: Outcome<(Id, Class)>)
      requires Valid()
      modifies this
      ensures Valid()
      ensures Reply(Snapshot(), o) == ClassRoutes.Create(old(Snapshot()), caller, input)
    {
      ghost var before := Snapshot();
      if !IsAdmin(caller) {
        return Forbidden(AdminRequired);
      }
      if !ClassModel.Validates(input) {
        return BadRequest("Error creating class");
      }
      var c := Build(input, caller.id);
      if CodeInUse(classes, c.code, None) {
        return BadRequest("Class code already exists");
      }
      var id := nextId;
      classes := classes[id := c];
      nextId := nextId + 1;
      o := Ok((id, c));
      assert Snapshot() == before.(classes := before.classes[id := c], nextId := before.nextId + 1);
      ClassRoutes.CreatePreservesValid(before, caller, input);
    }

    /** Enroll pushes onto the loaded class and the loaded student, then saves
        the class and then the student. */
    method Enroll(caller: Caller, classId: Id, studentId: Id) returns (o: Outcome<string>)
      requires Valid()
      modifies this
      ensures Valid()
      ensures Reply(Snapshot(), o) == ClassRoutes.Enroll(old(Snapshot()), caller, classId, studentId)
    {
      ClassRoutes.EnrollPreservesValid(Snapshot(), caller, classId, studentId);
      if !IsAdmin(caller) {
        return Forbidden(AdminRequired);
      }
      if classId !in classes || studentId !in users {
        return NotFound(ClassRoutes.NotFoundEither);
      }
      var c := classes[classId];
      var s := users[studentId];
      if s.role != Student {
        return BadRequest(ClassRoutes.OnlyStudents);
      }
      if studentId in c.enrolledStudents {
        return BadRequest(ClassRoutes.AlreadyEnrolled);
      }
      if |c.enrolledStudents| >= c.maxCapacity {
        return BadRequest(ClassRoutes.AtCapacity);
      }
      c := c.(enrolledStudents := c.enrolledStudents + [studentId]);
      s := s.(enrolledClasses := s.enrolledClasses + [classId]);
      classes := classes[classId := c];
      users := users[studentId := PreSave(s, false)];
      o := Ok(ClassRoutes.Enrolled);
    }

    method UpdateClass(caller: Caller, id: Id, patch: ClassPatch) returns (o: Outcome<Class>)
      requires Valid()
      modifies this
      ensures Valid()
      ensures Reply(Snapshot(), o) == ClassRoutes.Update(old(Snapshot()), caller, id, patch)
    {
      ClassRoutes.UpdatePreservesValid(Snapshot(), caller, id, patch);
      if !IsAdmin(caller) {
        return Forbidden(AdminRequired);
      }
      if !PatchValidates(patch) {
        return BadRequest("Error updating class");
      }
      if id !in classes {
        return NotFound(ClassRoutes.ClassNotFound);
      }
      var c := ApplyPatch(classes[id], patch);
      if CodeInUse(classes, c.code, Some(id)) {
        return BadRequest("Error updating class");
      }
      classes := classes[id := c];
      o := Ok(c);
    }

    /** Assign-teacher writes the class, then `$addToSet`s it on the user. */
    method AssignTeacher(caller: Caller, id: Id, teacherId: Option<Id>) returns (o: Outcome<Class>)
      requires Valid()
      modifies this
      ensures Valid()
      ensures Reply(Snapshot(), o) == ClassRoutes.AssignTeacher(old(Snapshot()), caller, id, teacherId)
    {
      ClassRoutes.AssignTeacherPreservesValid(Snapshot(), caller, id, teacherId);
      if !IsAdmin(caller) {
        return Forbidden(AdminRequired);
      }
      if id !in classes {
        return NotFound(ClassRoutes.ClassNotFound);
      }
      var c := classes[id].(teacher := Merge(classes[id].teacher, teacherId));
      classes := classes[id := c];
      if teacherId.Some? && teacherId.value in users {
        var t := teacherId.value;
        users := users[t := users[t].(assignedClasses := AddToSet(users[t].assignedClasses, id))];
      }
      o := Ok(c);
    }

    // -------------------------------------------------------------------------
    // Attendance and results

    /** Mark: the lookups and guards, then the upsert in place at the matched
        position, or an append. */
    method MarkAttendance(caller: Caller, classId: Id, studentId: Id, date: AM.Instant,
                          status: string, notes: Option<string>, now: AM.Instant)
      returns (o: Outcome<AM.AttendanceRecord>)
      requires Valid()
      modifies this
      ensures Valid()
      ensures Reply(Snapshot(), o) == AttendanceRoutes.Mark(old(Snapshot()), caller, classId, studentId, date, status, notes, now)
    {
      AttendanceRoutes.MarkPreservesValid(Snapshot(), caller, classId, studentId, date, status, notes, now);
      if classId !in classes || studentId !in users {
        return NotFound(AttendanceRoutes.NotFoundEither);
      }
      if caller.role == Teacher && classId !in caller.assignedClasses {
        return Forbidden(AttendanceRoutes.NotAllowed);
      }
      if caller.role != Admin && caller.role != Teacher {
        return Forbidden(AccessDenied);
      }
      if studentId !in classes[classId].enrolledStudents {
        return BadRequest(AttendanceRoutes.NotEnrolled);
      }
      var k := AM.Key(classId, studentId, date);
      var trimmed := Text.TrimOpt(notes);
      var i := IndexOfKey(k);
      var record;
      if i < |attendance| {
        record := attendance[i].(status := status, notes := Merge(attendance[i].notes, trimmed),
                                 markedBy := caller.id, timestamp := now);
        attendance := attendance[i := record];
      } else {
        record := AM.AttendanceRecord(classId, studentId, date, status, caller.id, trimmed, now);
        attendance := attendance + [record];
      }
      o := Ok(record);
    }

    method SaveResult(caller: Caller, classId: Id, studentId: Id, bodyTeacher: Option<Id>,
                      marks: int, grade: Option<string>, remarks: Option<string>)
      returns (o: Outcome<RM.ResultRecord>)
      requires Valid()
      modifies this
      ensures Valid()
      ensures Reply(Snapshot(), o) == ResultRoutes.Save(old(Snapshot()), caller, classId, studentId, bodyTeacher, marks, grade, remarks)
    {
      ResultRoutes.SavePreservesValid(Snapshot(), caller, classId, studentId, bodyTeacher, marks, grade, remarks);
      var teacher := if caller.role == Teacher then Some(caller.id) else bodyTeacher;
      if teacher.None? {
        return BadRequest(ResultRoutes.TeacherRequired);
      }
      var i := IndexOfPair(classId, studentId);
      var record;
      if i < |results| {
        record := results[i].(teacherId := teacher.value, marks := marks, grade := Merge(results[i].grade, grade),
                              remarks := Merge(results[i].remarks, remarks), updatedBy := Some(caller.id));
        results := results[i := record];
      } else {
        record := RM.ResultRecord(classId, studentId, teacher.value, marks, grade, remarks, Some(caller.id));
        results := results + [record];
      }
      o := Ok(record);
    }

    // -------------------------------------------------------------------------
    // Students and teachers

    method CreateStudent(caller: Caller, username: string, email: string, password: string,
                         firstName: string, lastName: string, studentId: Option<string>)
      returns (o: Outcome<Profile>)
      requires Valid()
      modifies this
      ensures Valid()
      ensures Reply(Snapshot(), o) == StudentRoutes.Create(old(Snapshot()), caller, username, email, password, firstName, lastName, studentId)
    {
      StudentRoutes.CreatePreservesValid(Snapshot(), caller, username, email, password, firstName, lastName, studentId);
      if !IsAdmin(caller) {
        return Forbidden(AdminRequired);
      }
      if StudentRoutes.Clash(users, None, Some(username), Some(email), studentId) {
        return BadRequest(StudentRoutes.Duplicate);
      }
      var d := Draft(username, email, password, Student, firstName, lastName, studentId);
      if !UserModel.Validates(d) {
        return BadRequest(StudentRoutes.CreateFailed);
      }
      var u := Materialize(d);
      ghost var before := Snapshot();
      var id := nextId;
      users := users[id := u];
      nextId := nextId + 1;
      o := Ok(ProfileOf(id, u));
      assert Snapshot() == before.(users := before.users[id := u], nextId := before.nextId + 1);
    }

    /** The student update: the checks, then the update document built path
        by path, the password added only when long enough, then the write. */
    method UpdateStudent(caller: Caller, id: Id, p: StudentRoutes.StudentPatch) returns (o: Outcome<Profile>)
      requires Valid()
      modifies this
      ensures Valid()
      ensures Reply(Snapshot(), o) == StudentRoutes.Update(old(Snapshot()), caller, id, p)
    {
      StudentRoutes.UpdatePreservesValid(Snapshot(), caller, id, p);
      if !IsAdmin(caller) {
        return Forbidden(AdminRequired);
      }
      if StudentRoutes.Clash(users, Some(id), p.username, p.email, p.studentId) {
        return BadRequest(StudentRoutes.Duplicate);
      }
      var hashed: Option<Secret> := None;
      if p.password.Some? && |p.password.value| >= MinPasswordLength {
        hashed := Some(Digest(Plain(p.password.value)));
      } else if p.password.Some? && 0 < |p.password.value| < MinPasswordLength {
        return BadRequest(StudentRoutes.ShortPassword);
      }
      if !StudentRoutes.PatchValidates(p) {
        return BadRequest(StudentRoutes.UpdateFailed);
      }
      if id !in users {
        return NotFound(StudentRoutes.StudentNotFound);
      }
      var u := users[id];
      u := u.(username := Overwrite(u.username, Text.TrimOpt(p.username)));
      u := u.(email := Overwrite(u.email, StudentRoutes.NormalizedEmailOpt(p.email)));
      u := u.(password := Overwrite(u.password, hashed));
      u := u.(firstName := Overwrite(u.firstName, Text.TrimOpt(p.firstName)));
      u := u.(lastName := Overwrite(u.lastName, Text.TrimOpt(p.lastName)));
      u := u.(studentId := Merge(u.studentId, p.studentId));
      u := u.(enrolledClasses := Overwrite(u.enrolledClasses, p.enrolledClasses));
      u := u.(isActive := Overwrite(u.isActive, p.isActive));
      users := users[id := u];
      o := Ok(ProfileOf(id, u));
    }

    method CreateTeacher(caller: Caller, username: string, email: string, password: string,
                         firstName: string, lastName: string)
      returns (o: Outcome<Profile>)
      requires Valid()
      modifies this
      ensures Valid()
      ensures Reply(Snapshot(), o) == TeacherRoutes.Create(old(Snapshot()), caller, username, email, password, firstName, lastName)
    {
      TeacherRoutes.CreatePreservesValid(Snapshot(), caller, username, email, password, firstName, lastName);
      if !IsAdmin(caller) {
        return Forbidden(AdminRequired);
      }
      if UsernameTaken(users, None, Some(username)) || EmailTaken(users, None, Some(email)) {
        return BadRequest(TeacherRoutes.Duplicate);
      }
      var d := Draft(username, email, password, Teacher, firstName, lastName, None);
      if !UserModel.Validates(d) {
        return BadRequest(TeacherRoutes.CreateFailed);
      }
      var u := Materialize(d).(assignedClasses := []);
      ghost var before := Snapshot();
      var id := nextId;
      users := users[id := u];
      nextId := nextId + 1;
      o := Ok(ProfileOf(id, u));
      assert Snapshot() == before.(users := before.users[id := u], nextId := before.nextId + 1);
    }

    method AssignClasses(caller: Caller, id: Id, assignedClasses: Option<seq<Id>>) returns (o: Outcome<Profile>)
      requires Valid()
      modifies this
      ensures Valid()
      ensures Reply(Snapshot(), o) == TeacherRoutes.Assign(old(Snapshot()), caller, id, assignedClasses)
    {
      TeacherRoutes.AssignPreservesValid(Snapshot(), caller, id, assignedClasses);
      if !IsAdmin(caller) {
        return Forbidden(AdminRequired);
      }
      if id !in users {
        return NotFound(TeacherRoutes.TeacherNotFound);
      }
      var u := users[id].(assignedClasses := Overwrite(users[id].assignedClasses, assignedClasses));
      users := users[id := u];
      o := Ok(ProfileOf(id, u));
    }

    method SetTimetable(caller: Caller, id: Id, timetable: Option<seq<TimetableEntry>>) returns (o: Outcome<Profile>)
      requires Valid()
      modifies this
      ensures Valid()
      ensures Reply(Snapshot(), o) == TeacherRoutes.SetTimetable(old(Snapshot()), caller, id, timetable)
    {
      TeacherRoutes.SetTimetablePreservesValid(Snapshot(), caller, id, timetable);
      if !IsAdmin(caller) {
        return Forbidden(AdminRequired);
      }
      if id !in users {
        return NotFound(TeacherRoutes.TeacherNotFound);
      }
      var u := users[id].(timetable := Overwrite(users[id].timetable, timetable));
      users := users[id := u];
      o := Ok(ProfileOf(id, u));
    }
  }
}
