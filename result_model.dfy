/** The `Result` schema. It declares no unique index: the collection holds one
    result per (classId, studentId) only because the one route that writes it
    upserts on that pair. */
module ResultModel {
  import opened Common

  datatype ResultRecord = ResultRecord(
    classId: Id,
    studentId: Id,
    teacherId: Id,
    marks: int,
    grade: Option<string>,
    remarks: Option<string>,
    updatedBy: Option<Id>)

  predicate OnePerPair(rs: seq<ResultRecord>)
  {
    forall i, j :: 0 <= i < j < |rs| ==>
      (rs[i].classId, rs[i].studentId) != (rs[j].classId, rs[j].studentId)
  }

  function CountPair(rs: seq<ResultRecord>, classId: Id, studentId: Id): nat
  {
    if rs == [] then 0
    else (if rs[0].classId == classId && rs[0].studentId == studentId then 1 else 0)
         + CountPair(rs[1..], classId, studentId)
  }

  /** The position of the first result for the pair, as `findOneAndUpdate` matches it. */
  function Find(rs: seq<ResultRecord>, classId: Id, studentId: Id): (r: Option<nat>)
    ensures r.Some? ==> r.value < |rs| && rs[r.value].classId == classId && rs[r.value].studentId == studentId
    ensures r.None? ==> forall i :: 0 <= i < |rs| ==> (rs[i].classId, rs[i].studentId) != (classId, studentId)
  {
    if rs == [] then None
    else if rs[0].classId == classId && rs[0].studentId == studentId then Some(0)
    else match Find(rs[1..], classId, studentId)
      case Some(i) => Some(i + 1)
      case None => None
  }

  /** `findOneAndUpdate({ classId, studentId }, { classId, studentId, teacherId,
      marks, grade, remarks, updatedBy }, { upsert: true, new: true,
      runValidators: true })`. An absent grade or remarks leaves the stored one. */
  function Upsert(rs: seq<ResultRecord>, classId: Id, studentId: Id, teacherId: Id, marks: int,
                  grade: Option<string>, remarks: Option<string>, updatedBy: Id): (seq<ResultRecord>, ResultRecord)
  {
    match Find(rs, classId, studentId)
    case Some(i) =>
      var r := rs[i].(teacherId := teacherId, marks := marks, grade := Merge(rs[i].grade, grade),
                      remarks := Merge(rs[i].remarks, remarks), updatedBy := Some(updatedBy));
      (rs[i := r], r)
    case None =>
      var r := ResultRecord(classId, studentId, teacherId, marks, grade, remarks, Some(updatedBy));
      (rs + [r], r)
  }

  /** `Find` answers the first position whose result has the pair. */
  lemma {:induction false} FindFirst(rs: seq<ResultRecord>, classId: Id, studentId: Id, i: nat)
    requires i < |rs| && rs[i].classId == classId && rs[i].studentId == studentId
    requires forall j :: 0 <= j < i ==> (rs[j].classId, rs[j].studentId) != (classId, studentId)
    ensures Find(rs, classId, studentId) == Some(i)
  {
    if i > 0 {
      FindFirst(rs[1..], classId, studentId, i - 1);
    }
  }

  lemma {:induction false} CountPairOfUnique(rs: seq<ResultRecord>, classId: Id, studentId: Id)
    requires OnePerPair(rs)
    ensures CountPair(rs, classId, studentId) == if Find(rs, classId, studentId).Some? then 1 else 0
  {
    if rs != [] {
      CountPairOfUnique(rs[1..], classId, studentId);
      assert forall i :: 0 <= i < |rs[1..]| ==> rs[1..][i] == rs[i + 1];
    }
  }

  /** The upsert keeps one result per pair, leaves exactly one for this pair
      carrying this call's teacher, marks and updater, keeps every other
      result where and what it was, and grows the table only for a new pair. */
  lemma UpsertFacts(rs: seq<ResultRecord>, classId: Id, studentId: Id, teacherId: Id, marks: int,
                    grade: Option<string>, remarks: Option<string>, updatedBy: Id)
    requires OnePerPair(rs)
    ensures var (rs', r) := Upsert(rs, classId, studentId, teacherId, marks, grade, remarks, updatedBy);
      && OnePerPair(rs')
      && CountPair(rs', classId, studentId) == 1
      && r in rs' && r.classId == classId && r.studentId == studentId
      && r.teacherId == teacherId && r.marks == marks && r.updatedBy == Some(updatedBy)
      && (grade.Some? ==> r.grade == grade) && (remarks.Some? ==> r.remarks == remarks)
      && |rs'| == |rs| + (if Find(rs, classId, studentId).Some? then 0 else 1)
      && (forall i :: 0 <= i < |rs| && (rs[i].classId, rs[i].studentId) != (classId, studentId) ==> rs'[i] == rs[i])
  {
    var (rs', r) := Upsert(rs, classId, studentId, teacherId, marks, grade, remarks, updatedBy);
    match Find(rs, classId, studentId) {
      case Some(i) => assert rs'[i] == r;
      case None => assert rs'[|rs|] == r;
    }
    assert OnePerPair(rs');
    assert Find(rs', classId, studentId).Some?;
    CountPairOfUnique(rs', classId, studentId);
  }
}
