/** The `Attendance` schema and its collection, which the unique compound
    index on (classId, studentId, date) keeps to one record per key. */
module AttendanceModel {
  import opened Common
  import Text

  /** A JavaScript `Date`: milliseconds since the epoch, kept exactly as given. */
  type Instant = int

  /** The enum of the status path. */
  const Statuses: seq<string> := ["present", "absent", "late"]

  predicate IsStatus(s: string)
  {
    s in Statuses
  }

  datatype Key = Key(classId: Id, studentId: Id, date: Instant)

  datatype AttendanceRecord = AttendanceRecord(
    classId: Id,
    studentId: Id,
    date: Instant,
    status: string,
    markedBy: Id,
    notes: Option<string>,
    timestamp: Instant)

  function KeyOf(r: AttendanceRecord): Key
  {
    Key(r.classId, r.studentId, r.date)
  }

  /** What `save` would demand of a record: a status from the enum. The
      required ids and date are present by construction. No route saves an
      attendance record through its validators. */
  predicate Conforms(r: AttendanceRecord)
  {
    IsStatus(r.status)
  }

  /** The unique compound index. */
  predicate UniqueKeys(rs: seq<AttendanceRecord>)
  {
    forall i, j :: 0 <= i < j < |rs| ==> KeyOf(rs[i]) != KeyOf(rs[j])
  }

  function CountKey(rs: seq<AttendanceRecord>, k: Key): nat
  {
    if rs == [] then 0 else (if KeyOf(rs[0]) == k then 1 else 0) + CountKey(rs[1..], k)
  }

  /** The position of the record with key `k`, if any. */
  function Find(rs: seq<AttendanceRecord>, k: Key): (r: Option<nat>)
    ensures r.Some? ==> r.value < |rs| && KeyOf(rs[r.value]) == k
    ensures r.None? ==> forall i :: 0 <= i < |rs| ==> KeyOf(rs[i]) != k
  {
    if rs == [] then None
    else if KeyOf(rs[0]) == k then Some(0)
    else match Find(rs[1..], k)
      case Some(i) => Some(i + 1)
      case None => None
  }

  /** `findOneAndUpdate({ classId, studentId, date }, { status, notes, markedBy,
      timestamp }, { upsert: true, new: true })`: the matched record is
      overwritten, or a new one is inserted from the filter and the update.
      No validators run. Returns the new table and the record sent back. */
  function Upsert(rs: seq<AttendanceRecord>, k: Key, status: string, notes: Option<string>,
                  markedBy: Id, now: Instant): (seq<AttendanceRecord>, AttendanceRecord)
  {
    var trimmed := Text.TrimOpt(notes);
    match Find(rs, k)
    case Some(i) =>
      var r := rs[i].(status := status, notes := Merge(rs[i].notes, trimmed), markedBy := markedBy, timestamp := now);
      (rs[i := r], r)
    case None =>
      var r := AttendanceRecord(k.classId, k.studentId, k.date, status, markedBy, trimmed, now);
      (rs + [r], r)
  }

  /** `Find` answers the first position whose record has the key. */
  lemma {:induction false} FindFirst(rs: seq<AttendanceRecord>, k: Key, i: nat)
    requires i < |rs| && KeyOf(rs[i]) == k
    requires forall j :: 0 <= j < i ==> KeyOf(rs[j]) != k
    ensures Find(rs, k) == Some(i)
  {
    if i > 0 {
      FindFirst(rs[1..], k, i - 1);
    }
  }

  lemma {:induction false} CountKeyOfUnique(rs: seq<AttendanceRecord>, k: Key)
    requires UniqueKeys(rs)
    ensures CountKey(rs, k) == if Find(rs, k).Some? then 1 else 0
  {
    if rs != [] {
      CountKeyOfUnique(rs[1..], k);
      if KeyOf(rs[0]) == k {
        assert forall i :: 0 <= i < |rs[1..]| ==> rs[1..][i] == rs[i + 1];
        assert Find(rs[1..], k).None?;
      }
    }
  }

  /** After an upsert the table still has one record per key, exactly one of
      them has key `k` and carries this call's status, marker and time (the
      notes too when given), every record with another key is where and what
      it was, and the table grew by one exactly when no record had key `k`. */
  lemma UpsertFacts(rs: seq<AttendanceRecord>, k: Key, status: string, notes: Option<string>,
                    markedBy: Id, now: Instant)
    requires UniqueKeys(rs)
    ensures var (rs', r) := Upsert(rs, k, status, notes, markedBy, now);
      && UniqueKeys(rs')
      && CountKey(rs', k) == 1
      && KeyOf(r) == k && r in rs'
      && r.status == status && r.markedBy == markedBy && r.timestamp == now
      && (notes.Some? ==> r.notes == Some(Text.Trim(notes.value)))
      && |rs'| == |rs| + (if Find(rs, k).Some? then 0 else 1)
      && (forall i :: 0 <= i < |rs| && KeyOf(rs[i]) != k ==> rs'[i] == rs[i])
      && (Find(rs, k).Some? ==> r.notes == Merge(rs[Find(rs, k).value].notes, Text.TrimOpt(notes)))
  {
    var (rs', r) := Upsert(rs, k, status, notes, markedBy, now);
    match Find(rs, k) {
      case Some(i) => assert rs'[i] == r;
      case None => assert rs'[|rs|] == r;
    }
    assert UniqueKeys(rs');
    assert Find(rs', k).Some?;
    CountKeyOfUnique(rs', k);
  }
}
