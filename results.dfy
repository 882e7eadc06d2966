/** The handlers of `/results`. */
module ResultRoutes {
  import opened Common
  import opened UserModel
  import opened Access
  import opened Database
  import opened ResultModel

  const TeacherRequired := "Teacher required"

  /** The teacher a save records: a teacher caller is always recorded as
      itself; any other caller names one in the body. */
  function TeacherOf(caller: Caller, bodyTeacher: Option<Id>): Option<Id>
  {
    if caller.role == Teacher then Some(caller.id) else bodyTeacher
  }

  /** `POST /results` with body `{ classId, studentId, teacherId, marks, grade,
      remarks }`: 400 without a teacher, otherwise the upsert on (classId,
      studentId) with the caller as updater. No role check and no lookup of
      the class or the student: any authenticated caller that names a teacher
      may write. */
  function Save(db: Db, caller: Caller, classId: Id, studentId: Id, bodyTeacher: Option<Id>,
                marks: int, grade: Option<string>, remarks: Option<string>): (r: Reply<ResultRecord>)
    ensures !r.out.Ok? ==> r.db == db
    ensures r.out.Ok? ==> r.db == db.(results := r.db.results)
  {
    match TeacherOf(caller, bodyTeacher)
    case None => Reply(db, BadRequest(TeacherRequired))
    case Some(t) =>
      var (table, record) := Upsert(db.results, classId, studentId, t, marks, grade, remarks, caller.id);
      Reply(db.(results := table), Ok(record))
  }

  /** The query of `GET /results/class/:classId`: the class, narrowed to the
      caller's own results for a student and to the results the caller
      recorded for a teacher. */
  predicate ClassQueryMatches(caller: Caller, classId: Id, r: ResultRecord)
  {
    && r.classId == classId
    && (caller.role == Student ==> r.studentId == caller.id)
    && (caller.role == Teacher ==> r.teacherId == caller.id)
  }

  function SelectClass(rs: seq<ResultRecord>, caller: Caller, classId: Id): (r: seq<ResultRecord>)
    ensures forall x :: x in r <==> x in rs && ClassQueryMatches(caller, classId, x)
    ensures |r| <= |rs|
  {
    if rs == [] then []
    else (if ClassQueryMatches(caller, classId, rs[0]) then [rs[0]] else []) + SelectClass(rs[1..], caller, classId)
  }

  /** `GET /results/class/:classId`: never refused, and no 404 for a missing class. */
  function ClassResults(db: Db, caller: Caller, classId: Id): (r: Outcome<seq<ResultRecord>>)
    ensures r.Ok?
  {
    Ok(SelectClass(db.results, caller, classId))
  }

  function SelectStudent(rs: seq<ResultRecord>, studentId: Id): (r: seq<ResultRecord>)
    ensures forall x :: x in r <==> x in rs && x.studentId == studentId
    ensures |r| <= |rs|
  {
    if rs == [] then []
    else (if rs[0].studentId == studentId then [rs[0]] else []) + SelectStudent(rs[1..], studentId)
  }

  /** `GET /results/student/:studentId`: only a student asking for another
      student is refused; teachers and admins read anyone's results. */
  function StudentResults(db: Db, caller: Caller, studentId: Id): (r: Outcome<seq<ResultRecord>>)
    ensures r.Ok? <==> caller.role != Student || caller.id == studentId
    ensures !r.Ok? ==> r == Forbidden(AccessDenied)
    ensures r.Ok? ==> forall x :: x in r.value <==> x in db.results && x.studentId == studentId
  {
    if caller.role == Student && caller.id != studentId then Forbidden(AccessDenied)
    else Ok(SelectStudent(db.results, studentId))
  }

  // ---------------------------------------------------------------------------
  // Save

  /** A save succeeds exactly when a teacher is known, whatever the caller's
      role; a teacher is recorded as itself even when the body names another.
      On success exactly one result has the pair, with this call's teacher,
      marks and updater; every other result is untouched; the table grows
      only for a new pair. */
  lemma SaveFacts(db: Db, caller: Caller, classId: Id, studentId: Id, bodyTeacher: Option<Id>,
                  marks: int, grade: Option<string>, remarks: Option<string>)
    requires Valid(db)
    ensures var r := Save(db, caller, classId, studentId, bodyTeacher, marks, grade, remarks);
      && (r.out.Ok? <==> caller.role == Teacher || bodyTeacher.Some?)
      && (!r.out.Ok? ==> r.out == BadRequest(TeacherRequired))
      && (r.out.Ok? ==>
            && CountPair(r.db.results, classId, studentId) == 1
            && r.out.value in r.db.results
            && r.out.value.classId == classId && r.out.value.studentId == studentId
            && r.out.value.teacherId == (if caller.role == Teacher then caller.id else bodyTeacher.value)
            && r.out.value.marks == marks && r.out.value.updatedBy == Some(caller.id)
            && |r.db.results| == |db.results| + (if Find(db.results, classId, studentId).Some? then 0 else 1)
            && (forall i :: 0 <= i < |db.results| && (db.results[i].classId, db.results[i].studentId) != (classId, studentId) ==>
                  r.db.results[i] == db.results[i]))
  {
    if caller.role == Teacher || bodyTeacher.Some? {
      UpsertFacts(db.results, classId, studentId, TeacherOf(caller, bodyTeacher).value, marks, grade, remarks, caller.id);
    }
  }

  /** Saving the same pair twice keeps one result for it, with the second
      call's marks: the last write wins and the table does not grow. */
  lemma SaveTwice(db: Db, caller: Caller, classId: Id, studentId: Id, bodyTeacher: Option<Id>,
                  first: int, second: int, grade: Option<string>, remarks: Option<string>)
    requires Valid(db)
    requires Save(db, caller, classId, studentId, bodyTeacher, first, grade, remarks).out.Ok?
    ensures var db1 := Save(db, caller, classId, studentId, bodyTeacher, first, grade, remarks).db;
      var r2 := Save(db1, caller, classId, studentId, bodyTeacher, second, grade, remarks);
      && r2.out.Ok?
      && r2.out.value.marks == second
      && CountPair(r2.db.results, classId, studentId) == 1
      && |r2.db.results| == |db1.results|
  {
    var t := TeacherOf(caller, bodyTeacher).value;
    var db1 := Save(db, caller, classId, studentId, bodyTeacher, first, grade, remarks).db;
    UpsertFacts(db.results, classId, studentId, t, first, grade, remarks, caller.id);
    CountPairOfUnique(db1.results, classId, studentId);
    UpsertFacts(db1.results, classId, studentId, t, second, grade, remarks, caller.id);
  }

  lemma SavePreservesValid(db: Db, caller: Caller, classId: Id, studentId: Id, bodyTeacher: Option<Id>,
                           marks: int, grade: Option<string>, remarks: Option<string>)
    requires Valid(db)
    ensures Valid(Save(db, caller, classId, studentId, bodyTeacher, marks, grade, remarks).db)
  {
    if caller.role == Teacher || bodyTeacher.Some? {
      UpsertFacts(db.results, classId, studentId, TeacherOf(caller, bodyTeacher).value, marks, grade, remarks, caller.id);
    }
  }

  // ---------------------------------------------------------------------------
  // Reads

  /** What each role reads of a class's results: an admin every result of the
      class, a student exactly its own, a teacher exactly those it recorded. */
  lemma ClassResultsScope(db: Db, caller: Caller, classId: Id)
    ensures var rs := ClassResults(db, caller, classId).value;
      && (caller.role == Admin ==> forall x :: x in rs <==> x in db.results && x.classId == classId)
      && (caller.role == Student ==> forall x :: x in rs <==>
            x in db.results && x.classId == classId && x.studentId == caller.id)
      && (caller.role == Teacher ==> forall x :: x in rs <==>
            x in db.results && x.classId == classId && x.teacherId == caller.id)
  {
  }

  /** A student's results are refused exactly to another student; when served
      they are exactly the results of that student. */
  lemma StudentResultsAccess(db: Db, caller: Caller, studentId: Id)
    ensures var r := StudentResults(db, caller, studentId);
      && (r.Ok? <==> caller.role != Student || caller.id == studentId)
      && (r.Ok? ==> forall x :: x in r.value <==> x in db.results && x.studentId == studentId)
  {
  }

  /** A teacher saving a pair then reading the class sees the result it saved. */
  lemma TeacherSeesOwnSave(db: Db, caller: Caller, classId: Id, studentId: Id, bodyTeacher: Option<Id>,
                           marks: int, grade: Option<string>, remarks: Option<string>)
    requires Valid(db) && caller.role == Teacher
    ensures var r := Save(db, caller, classId, studentId, bodyTeacher, marks, grade, remarks);
      r.out.Ok? && r.out.value in ClassResults(r.db, caller, classId).value
  {
    SaveFacts(db, caller, classId, studentId, bodyTeacher, marks, grade, remarks);
  }
}
