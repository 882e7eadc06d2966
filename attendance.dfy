/** The handlers of `/attendance`. */
module AttendanceRoutes {
  import opened Common
  import opened UserModel
  import opened ClassModel
  import opened Access
  import opened Database
  import opened AttendanceModel
  import Aggregate

  const NotFoundEither := "Class or student not found"
  const NotAllowed := "Not allowed to mark attendance for this class"
  const NotEnrolled := "Student is not enrolled in this class"
  const ClassNotFound := "Class not found"

  /** `POST /attendance` with body `{ classId, studentId, date, status, notes }`:
      404 if either document is missing, then 403 for a teacher marking a class
      outside the caller's `assignedClasses`, then 403 for any role other than
      admin or teacher, then 400 for a student off the roster; otherwise the
      upsert on (classId, studentId, date), with the caller as marker and `now`
      as the time. The date is the key exactly as given, not truncated to a day. */
  function Mark(db: Db, caller: Caller, classId: Id, studentId: Id, date: Instant,
                status: string, notes: Option<string>, now: Instant): (r: Reply<AttendanceRecord>)
    ensures !r.out.Ok? ==> r.db == db
    ensures r.out.Ok? ==> r.db == db.(attendance := r.db.attendance)
  {
    if classId !in db.classes || studentId !in db.users then Reply(db, NotFound(NotFoundEither))
    else if caller.role == Teacher && classId !in caller.assignedClasses then Reply(db, Forbidden(NotAllowed))
    else if caller.role != Admin && caller.role != Teacher then Reply(db, Forbidden(AccessDenied))
    else if studentId !in db.classes[classId].enrolledStudents then Reply(db, BadRequest(NotEnrolled))
    else
      var (table, record) := Upsert(db.attendance, Key(classId, studentId, date), status, notes, caller.id, now);
      Reply(db.(attendance := table), Ok(record))
  }

  /** The filter object a read route builds: each present path must match. */
  datatype Query = Query(classId: Option<Id>, studentId: Option<Id>, date: Option<Instant>)

  predicate Matches(r: AttendanceRecord, q: Query)
  {
    && (q.classId.Some? ==> r.classId == q.classId.value)
    && (q.studentId.Some? ==> r.studentId == q.studentId.value)
    && (q.date.Some? ==> r.date == q.date.value)
  }

  /** `Attendance.find(query)`, in collection order. */
  function Select(rs: seq<AttendanceRecord>, q: Query): (r: seq<AttendanceRecord>)
    ensures forall x :: x in r <==> x in rs && Matches(x, q)
    ensures |r| <= |rs|
  {
    if rs == [] then []
    else (if Matches(rs[0], q) then [rs[0]] else []) + Select(rs[1..], q)
  }

  /** Reading a class's attendance or statistics: admins, and anyone on the
      class's roster. A teacher assigned to the class but not on it is refused. */
  predicate MayReadClass(caller: Caller, c: Class)
  {
    IsAdmin(caller) || caller.id in c.enrolledStudents
  }

  /** `GET /attendance/class/:classId?date=`. */
  function ClassAttendance(db: Db, caller: Caller, classId: Id, date: Option<Instant>): (r: Outcome<seq<AttendanceRecord>>)
    ensures classId !in db.classes ==> r == NotFound(ClassNotFound)
    ensures classId in db.classes ==>
      (r.Ok? <==> IsAdmin(caller) || caller.id in db.classes[classId].enrolledStudents)
    ensures r.Ok? ==> forall x :: x in r.value ==> x in db.attendance && x.classId == classId
  {
    if classId !in db.classes then NotFound(ClassNotFound)
    else if !MayReadClass(caller, db.classes[classId]) then Forbidden(AccessDenied)
    else Ok(Select(db.attendance, Query(Some(classId), None, date)))
  }

  /** `GET /attendance/student/:studentId`: admins, or the student themselves. */
  function StudentAttendance(db: Db, caller: Caller, studentId: Id): (r: Outcome<seq<AttendanceRecord>>)
    ensures r.Ok? <==> AdminOrSelf(caller, studentId)
    ensures r.Ok? ==> forall x :: x in r.value <==> x in db.attendance && x.studentId == studentId
  {
    if !AdminOrSelf(caller, studentId) then Forbidden(AccessDenied)
    else Ok(Select(db.attendance, Query(None, Some(studentId), None)))
  }

  function StatusesOf(rs: seq<AttendanceRecord>): (r: seq<string>)
    ensures |r| == |rs| && forall k :: 0 <= k < |rs| ==> r[k] == rs[k].status
  {
    if rs == [] then [] else [rs[0].status] + StatusesOf(rs[1..])
  }

  function DatesOf(rs: seq<AttendanceRecord>): (r: seq<Instant>)
    ensures |r| == |rs| && forall k :: 0 <= k < |rs| ==> r[k] == rs[k].date
  {
    if rs == [] then [] else [rs[0].date] + DatesOf(rs[1..])
  }

  datatype Stats = Stats(totalClasses: nat, statusBreakdown: seq<Aggregate.Bucket<string>>, enrolledStudents: nat)

  /** `GET /attendance/stats/:classId`: the `$group` of the class's records by
      status, the number of distinct dates among them, and the roster's length. */
  function ClassStats(db: Db, caller: Caller, classId: Id): (r: Outcome<Stats>)
    ensures classId !in db.classes ==> r == NotFound(ClassNotFound)
    ensures classId in db.classes ==>
      (r.Ok? <==> IsAdmin(caller) || caller.id in db.classes[classId].enrolledStudents)
    ensures r.Ok? ==> classId in db.classes && r.value.enrolledStudents == |db.classes[classId].enrolledStudents|
  {
    if classId !in db.classes then NotFound(ClassNotFound)
    else if !MayReadClass(caller, db.classes[classId]) then Forbidden(AccessDenied)
    else
      var records := Select(db.attendance, Query(Some(classId), None, None));
      Ok(Stats(|Aggregate.Distinct(DatesOf(records))|,
               Aggregate.Tally(StatusesOf(records)),
               |db.classes[classId].enrolledStudents|))
  }

  /** The number of records dated in `[from, until)`. */
  function CountDated(rs: seq<AttendanceRecord>, from: Instant, until: Instant): nat
  {
    if rs == [] then 0
    else (if from <= rs[0].date < until then 1 else 0) + CountDated(rs[1..], from, until)
  }

  /** The positions of the records dated in `[from, until)`. */
  function DatedPositions(rs: seq<AttendanceRecord>, from: Instant, until: Instant): set<nat>
  {
    set i: nat | i < |rs| && from <= rs[i].date < until
  }

  /** `countDocuments` counts each record in the window once. */
  lemma {:induction false} CountDatedPositions(rs: seq<AttendanceRecord>, from: Instant, until: Instant)
    ensures CountDated(rs, from, until) == |DatedPositions(rs, from, until)|
    decreases |rs|
  {
    if rs == [] {
      assert DatedPositions(rs, from, until) == {};
    } else {
      var p := rs[..|rs| - 1];
      var last := rs[|rs| - 1];
      assert rs == p + [last];
      CountDatedPositions(p, from, until);
      CountDatedAppend(p, last, from, until);
      var before := DatedPositions(p, from, until);
      if from <= last.date < until {
        assert DatedPositions(rs, from, until) == before + {|p|};
      } else {
        assert DatedPositions(rs, from, until) == before;
      }
    }
  }

  /** `GET /attendance/today/count` (admins): records dated from the start of
      today (local time) up to, not including, the start of tomorrow. Both
      instants come from the clock. */
  function TodayCount(db: Db, caller: Caller, todayStart: Instant, tomorrowStart: Instant): (r: Outcome<nat>)
    ensures r.Ok? <==> IsAdmin(caller)
    ensures r.Ok? ==> r.value == |DatedPositions(db.attendance, todayStart, tomorrowStart)|
  {
    if !IsAdmin(caller) then Forbidden(AccessDenied)
    else
      CountDatedPositions(db.attendance, todayStart, tomorrowStart);
      Ok(CountDated(db.attendance, todayStart, tomorrowStart))
  }

  // ---------------------------------------------------------------------------
  // Mark

  /** Guard order of mark: both lookups come before any role check, so every
      caller gets 404 for a missing class or student; a teacher outside its
      assigned classes gets 403 even for an enrolled student; a student
      caller gets 403; an admitted caller gets 400 for a student off the roster.
      Each refusal writes nothing. */
  lemma MarkGuardOrder(db: Db, caller: Caller, classId: Id, studentId: Id, date: Instant,
                       status: string, notes: Option<string>, now: Instant)
    ensures classId !in db.classes || studentId !in db.users ==>
      Mark(db, caller, classId, studentId, date, status, notes, now) == Reply(db, NotFound(NotFoundEither))
    ensures classId in db.classes && studentId in db.users && caller.role == Teacher && classId !in caller.assignedClasses ==>
      Mark(db, caller, classId, studentId, date, status, notes, now) == Reply(db, Forbidden(NotAllowed))
    ensures classId in db.classes && studentId in db.users && caller.role == Student ==>
      Mark(db, caller, classId, studentId, date, status, notes, now) == Reply(db, Forbidden(AccessDenied))
    ensures classId in db.classes && studentId in db.users
            && (caller.role == Admin || (caller.role == Teacher && classId in caller.assignedClasses))
            && studentId !in db.classes[classId].enrolledStudents ==>
      Mark(db, caller, classId, studentId, date, status, notes, now) == Reply(db, BadRequest(NotEnrolled))
  {
  }

  /** A mark succeeds exactly when both documents exist, the caller is an admin
      or a teacher assigned the class, and the student is on the roster. Then
      exactly one record has the key, carrying this call's status (any string:
      the enum is not enforced on this path), marker and time; records with
      other keys are untouched; the table grows only for a new key. */
  lemma MarkFacts(db: Db, caller: Caller, classId: Id, studentId: Id, date: Instant,
                  status: string, notes: Option<string>, now: Instant)
    requires Valid(db)
    ensures var r := Mark(db, caller, classId, studentId, date, status, notes, now);
      var k := Key(classId, studentId, date);
      && (r.out.Ok? <==> (&& classId in db.classes && studentId in db.users
                          && (caller.role == Admin || (caller.role == Teacher && classId in caller.assignedClasses))
                          && studentId in db.classes[classId].enrolledStudents))
      && (r.out.Ok? ==>
            && CountKey(r.db.attendance, k) == 1
            && KeyOf(r.out.value) == k && r.out.value in r.db.attendance
            && r.out.value.status == status && r.out.value.markedBy == caller.id && r.out.value.timestamp == now
            && |r.db.attendance| == |db.attendance| + (if Find(db.attendance, k).Some? then 0 else 1)
            && (forall i :: 0 <= i < |db.attendance| && KeyOf(db.attendance[i]) != k ==>
                  r.db.attendance[i] == db.attendance[i]))
  {
    if Mark(db, caller, classId, studentId, date, status, notes, now).out.Ok? {
      UpsertFacts(db.attendance, Key(classId, studentId, date), status, notes, caller.id, now);
    }
  }

  /** Marking the same key twice keeps one record for it, with the second
      call's status: the last write wins and the table does not grow. */
  lemma MarkTwice(db: Db, caller: Caller, classId: Id, studentId: Id, date: Instant,
                  first: string, second: string, notes: Option<string>, now: Instant, later: Instant)
    requires Valid(db)
    requires Mark(db, caller, classId, studentId, date, first, notes, now).out.Ok?
    ensures var db1 := Mark(db, caller, classId, studentId, date, first, notes, now).db;
      var r2 := Mark(db1, caller, classId, studentId, date, second, notes, later);
      var k := Key(classId, studentId, date);
      && r2.out.Ok?
      && r2.out.value.status == second
      && CountKey(r2.db.attendance, k) == 1
      && |r2.db.attendance| == |db1.attendance|
  {
    var k := Key(classId, studentId, date);
    var db1 := Mark(db, caller, classId, studentId, date, first, notes, now).db;
    UpsertFacts(db.attendance, k, first, notes, caller.id, now);
    CountKeyOfUnique(db1.attendance, k);
    UpsertFacts(db1.attendance, k, second, notes, caller.id, later);
  }

  /** The key holds the date exactly as given: two marks of one student at
      two different instants, even of the same day, leave two records, and
      the second does not overwrite the first. */
  lemma MarksAtDistinctInstants(db: Db, caller: Caller, classId: Id, studentId: Id, first: Instant, second: Instant,
                                status: string, notes: Option<string>, now: Instant)
    requires Valid(db) && first != second
    requires Mark(db, caller, classId, studentId, first, status, notes, now).out.Ok?
    ensures var r1 := Mark(db, caller, classId, studentId, first, status, notes, now);
      var r2 := Mark(r1.db, caller, classId, studentId, second, status, notes, now);
      && r2.out.Ok?
      && r1.out.value in r2.db.attendance
      && CountKey(r2.db.attendance, Key(classId, studentId, first)) == 1
      && CountKey(r2.db.attendance, Key(classId, studentId, second)) == 1
  {
    var k1 := Key(classId, studentId, first);
    var k2 := Key(classId, studentId, second);
    var r1 := Mark(db, caller, classId, studentId, first, status, notes, now);
    UpsertFacts(db.attendance, k1, status, notes, caller.id, now);
    var t1 := r1.db.attendance;
    var i := Find(t1, k1).value;
    UpsertFacts(t1, k2, status, notes, caller.id, now);
    var t2 := Upsert(t1, k2, status, notes, caller.id, now).0;
    assert t2[i] == t1[i];
    assert t1[i] == r1.out.value by {
      var j :| 0 <= j < |t1| && t1[j] == r1.out.value;
      assert KeyOf(t1[j]) == KeyOf(t1[i]);
    }
    assert KeyOf(t2[i]) == k1;
    CountKeyOfUnique(t2, k1);
  }

  /** The status enum is not enforced by mark: a status outside it is stored. */
  lemma MarkStoresUnlistedStatus(db: Db, caller: Caller, classId: Id, studentId: Id, date: Instant, now: Instant)
    requires IsAdmin(caller) && classId in db.classes && studentId in db.users
    requires studentId in db.classes[classId].enrolledStudents
    ensures !IsStatus("excused")
    ensures var r := Mark(db, caller, classId, studentId, date, "excused", None, now);
      r.out.Ok? && r.out.value.status == "excused" && !Conforms(r.out.value)
  {
  }

  lemma MarkPreservesValid(db: Db, caller: Caller, classId: Id, studentId: Id, date: Instant,
                           status: string, notes: Option<string>, now: Instant)
    requires Valid(db)
    ensures Valid(Mark(db, caller, classId, studentId, date, status, notes, now).db)
  {
    var r := Mark(db, caller, classId, studentId, date, status, notes, now);
    if r.out.Ok? {
      var (table, _) := Upsert(db.attendance, Key(classId, studentId, date), status, notes, caller.id, now);
      UpsertFacts(db.attendance, Key(classId, studentId, date), status, notes, caller.id, now);
      assert r.db == db.(attendance := table);
      ValidWithAttendance(db, table);
    }
  }

  // ---------------------------------------------------------------------------
  // Reads

  /** Class attendance: 404 for a missing class, then 403 unless the caller is
      an admin or on the roster (an assigned teacher is not enough); otherwise
      exactly the class's records, and with a date exactly those of that date. */
  lemma ClassAttendanceFacts(db: Db, caller: Caller, classId: Id, date: Option<Instant>)
    ensures classId !in db.classes ==> ClassAttendance(db, caller, classId, date) == NotFound(ClassNotFound)
    ensures classId in db.classes ==>
      (ClassAttendance(db, caller, classId, date).Ok? <==>
         caller.role == Admin || caller.id in db.classes[classId].enrolledStudents)
    ensures classId in db.classes && !ClassAttendance(db, caller, classId, date).Ok? ==>
      ClassAttendance(db, caller, classId, date) == Forbidden(AccessDenied)
    ensures classId in db.classes && caller.role == Teacher && classId in caller.assignedClasses
            && caller.id !in db.classes[classId].enrolledStudents ==>
      ClassAttendance(db, caller, classId, date) == Forbidden(AccessDenied)
    ensures var r := ClassAttendance(db, caller, classId, date);
      r.Ok? ==> forall x :: x in r.value <==>
        x in db.attendance && x.classId == classId && (date.Some? ==> x.date == date.value)
  {
  }

  /** The statistics: the status counts have one group per status that occurs,
      each counting that status's records, and sum to the class's number of
      records; `totalClasses` is the number of distinct dates among them, and
      so is at most that sum. */
  lemma StatsFacts(db: Db, caller: Caller, classId: Id)
    requires ClassStats(db, caller, classId).Ok?
    ensures var s := ClassStats(db, caller, classId).value;
      var records := Select(db.attendance, Query(Some(classId), None, None));
      && Aggregate.Total(s.statusBreakdown) == |records|
      && NoDuplicates(Aggregate.Keys(s.statusBreakdown))
      && (forall st :: Aggregate.CountOf(s.statusBreakdown, st) == Aggregate.Occurrences(StatusesOf(records), st))
      && (forall st :: st in Aggregate.Keys(s.statusBreakdown) <==> exists x :: x in records && x.status == st)
      && s.totalClasses == |set x | x in records :: x.date|
      && s.totalClasses <= Aggregate.Total(s.statusBreakdown)
      && (forall d :: d in Aggregate.Distinct(DatesOf(records)) <==> exists x :: x in records && x.date == d)
  {
    var records := Select(db.attendance, Query(Some(classId), None, None));
    Aggregate.TallyFacts(StatusesOf(records));
    StatusesCover(records);
    DatesCover(records);
    DistinctDates(records);
  }

  /** The number of distinct values of `DatesOf` is the number of dates the
      records carry. */
  lemma DistinctDates(records: seq<AttendanceRecord>)
    ensures |Aggregate.Distinct(DatesOf(records))| == |set x | x in records :: x.date|
  {
    var dates := DatesOf(records);
    Aggregate.DistinctCard(dates);
    forall d ensures d in dates <==> d in (set x | x in records :: x.date) {
      if d in dates {
        var k :| 0 <= k < |dates| && dates[k] == d;
        assert records[k] in records;
      }
    }
    assert (set d | d in dates) == (set x | x in records :: x.date);
  }

  lemma StatusesCover(records: seq<AttendanceRecord>)
    ensures forall st :: st in StatusesOf(records) <==> exists x :: x in records && x.status == st
  {
    var statuses := StatusesOf(records);
    forall st ensures st in statuses <==> exists x :: x in records && x.status == st {
      if st in statuses {
        var k :| 0 <= k < |statuses| && statuses[k] == st;
        assert records[k] in records;
      }
    }
  }

  lemma DatesCover(records: seq<AttendanceRecord>)
    ensures forall d :: d in Aggregate.Distinct(DatesOf(records)) <==> exists x :: x in records && x.date == d
  {
    var dates := DatesOf(records);
    forall d ensures d in Aggregate.Distinct(dates) <==> exists x :: x in records && x.date == d {
      if exists x :: x in records && x.date == d {
        var x :| x in records && x.date == d;
        var k :| 0 <= k < |records| && records[k] == x;
        assert dates[k] == d;
      }
    }
  }

  lemma {:induction false} CountDatedAppend(rs: seq<AttendanceRecord>, r: AttendanceRecord, from: Instant, until: Instant)
    ensures CountDated(rs + [r], from, until) == CountDated(rs, from, until) + (if from <= r.date < until then 1 else 0)
  {
    if rs != [] {
      assert (rs + [r])[1..] == rs[1..] + [r];
      CountDatedAppend(rs[1..], r, from, until);
    }
  }

  lemma {:induction false} CountDatedReplace(rs: seq<AttendanceRecord>, i: nat, r: AttendanceRecord, from: Instant, until: Instant)
    requires i < |rs| && rs[i].date == r.date
    ensures CountDated(rs[i := r], from, until) == CountDated(rs, from, until)
  {
    if i > 0 {
      assert rs[i := r][1..] == rs[1..][i - 1 := r];
      CountDatedReplace(rs[1..], i - 1, r, from, until);
    }
  }

  /** Today's count after a successful mark: one more when the key was new and
      dated today, the same otherwise. */
  lemma TodayCountAfterMark(db: Db, caller: Caller, admin: Caller, classId: Id, studentId: Id, date: Instant,
                            status: string, notes: Option<string>, now: Instant, todayStart: Instant, tomorrowStart: Instant)
    requires IsAdmin(admin)
    requires Mark(db, caller, classId, studentId, date, status, notes, now).out.Ok?
    ensures var db1 := Mark(db, caller, classId, studentId, date, status, notes, now).db;
      var isNew := Find(db.attendance, Key(classId, studentId, date)).None?;
      TodayCount(db1, admin, todayStart, tomorrowStart).value ==
        TodayCount(db, admin, todayStart, tomorrowStart).value + (if isNew && todayStart <= date < tomorrowStart then 1 else 0)
  {
    var k := Key(classId, studentId, date);
    var (table, record) := Upsert(db.attendance, k, status, notes, caller.id, now);
    match Find(db.attendance, k) {
      case Some(i) => CountDatedReplace(db.attendance, i, record, todayStart, tomorrowStart);
      case None => CountDatedAppend(db.attendance, record, todayStart, tomorrowStart);
    }
  }
}
