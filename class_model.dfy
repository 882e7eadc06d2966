/** The `Class` schema. */
module ClassModel {
  import opened Common
  import Text

  /** The enum of `schedule.days`. */
  const Weekdays: seq<string> := ["Monday", "Tuesday", "Wednesday", "Thursday", "Friday", "Saturday", "Sunday"]

  predicate IsWeekday(d: string)
  {
    d in Weekdays
  }

  /** `schedule`: the weekdays and the free-text start and end times. */
  datatype Schedule = Schedule(days: seq<string>, start: string, end: string)

  predicate ScheduleValid(s: Schedule)
  {
    forall k :: 0 <= k < |s.days| ==> IsWeekday(s.days[k])
  }

  datatype Class = Class(
    name: string,
    code: string,
    description: Option<string>,
    instructor: string,
    schedule: Schedule,
    semester: string,
    year: int,
    enrolledStudents: seq<Id>,
    maxCapacity: int,
    isActive: bool,
    createdBy: Id,
    teacher: Option<Id>)

  const DefaultMaxCapacity := 50

  /** The setters of the code path: `uppercase`, then `trim`. The code is the
      upper-cased input with its surrounding white space removed. */
  function NormalizeCode(s: string): (r: string)
    ensures Text.IsTrimOf(r, Text.Upper(s))
    ensures forall k :: 0 <= k < |r| ==> !Text.IsLowerLetter(r[k])
    ensures r == [] || (!Text.IsSpace(r[0]) && !Text.IsSpace(r[|r| - 1]))
  {
    Text.TrimFacts(Text.Upper(s));
    Text.Trim(Text.Upper(s))
  }

  /** Normalising a stored code again leaves it as it is, so a code read back
      and resubmitted is the same code. */
  lemma NormalizeCodeIdempotent(s: string)
    ensures NormalizeCode(NormalizeCode(s)) == NormalizeCode(s)
  {
    var c := NormalizeCode(s);
    Text.UpperOfUpper(c);
  }

  /** The body of `POST /classes`: every path a request may set. */
  datatype ClassInput = ClassInput(
    name: string,
    code: string,
    description: Option<string>,
    instructor: string,
    schedule: Schedule,
    semester: string,
    year: Option<int>,
    enrolledStudents: seq<Id>,
    maxCapacity: Option<int>,
    isActive: Option<bool>,
    createdBy: Option<Id>,
    teacher: Option<Id>)

  /** `required` on name, code, instructor, semester and year, and the weekday enum. */
  predicate Validates(input: ClassInput)
  {
    && Text.Trim(input.name) != ""
    && NormalizeCode(input.code) != ""
    && Text.Trim(input.instructor) != ""
    && input.semester != ""
    && input.year.Some?
    && ScheduleValid(input.schedule)
  }

  /** `new Class({ ...body, createdBy })`: setters applied, defaults filled in,
      and the creator given by the route in place of any in the body. A
      description the body leaves out stays absent: the path has no default. */
  function Build(input: ClassInput, createdBy: Id): (r: Class)
    ensures r.createdBy == createdBy
    ensures r.name == Text.Trim(input.name) && r.code == NormalizeCode(input.code)
    ensures r.instructor == Text.Trim(input.instructor) && r.description == Text.TrimOpt(input.description)
    ensures r.maxCapacity == (if input.maxCapacity.Some? then input.maxCapacity.value else DefaultMaxCapacity)
    ensures r.isActive == (input.isActive.None? || input.isActive.value)
    ensures r.schedule == input.schedule && r.semester == input.semester
    ensures r.enrolledStudents == input.enrolledStudents && r.teacher == input.teacher
    ensures Validates(input) ==> r.code != "" && r.year == input.year.value && ScheduleValid(r.schedule)
  {
    Class(Text.Trim(input.name), NormalizeCode(input.code), Text.TrimOpt(input.description),
          Text.Trim(input.instructor), input.schedule, input.semester,
          Overwrite(0, input.year), input.enrolledStudents,
          Overwrite(DefaultMaxCapacity, input.maxCapacity), Overwrite(true, input.isActive),
          createdBy, input.teacher)
  }

  /** The body of `PUT /classes/:id`: each present path is `$set`. */
  datatype ClassPatch = ClassPatch(
    name: Option<string>,
    code: Option<string>,
    description: Option<string>,
    instructor: Option<string>,
    schedule: Option<Schedule>,
    semester: Option<string>,
    year: Option<int>,
    enrolledStudents: Option<seq<Id>>,
    maxCapacity: Option<int>,
    isActive: Option<bool>,
    createdBy: Option<Id>,
    teacher: Option<Id>)

  /** The update validators: they run only on the paths the patch sets. */
  predicate PatchValidates(p: ClassPatch)
  {
    && (p.name.Some? ==> Text.Trim(p.name.value) != "")
    && (p.code.Some? ==> NormalizeCode(p.code.value) != "")
    && (p.instructor.Some? ==> Text.Trim(p.instructor.value) != "")
    && (p.semester.Some? ==> p.semester.value != "")
    && (p.schedule.Some? ==> ScheduleValid(p.schedule.value))
  }

  /** The stored class after the `$set` of a patch, with the update setters
      applied: each path the patch gives is replaced by its value after the
      setters, each path it leaves out keeps its stored value. */
  function ApplyPatch(c: Class, p: ClassPatch): (r: Class)
    ensures r.name == (if p.name.Some? then Text.Trim(p.name.value) else c.name)
    ensures r.code == (if p.code.Some? then NormalizeCode(p.code.value) else c.code)
    ensures r.description == (if p.description.Some? then Text.TrimOpt(p.description) else c.description)
    ensures r.instructor == (if p.instructor.Some? then Text.Trim(p.instructor.value) else c.instructor)
    ensures r.schedule == (if p.schedule.Some? then p.schedule.value else c.schedule)
    ensures r.semester == (if p.semester.Some? then p.semester.value else c.semester)
    ensures r.year == (if p.year.Some? then p.year.value else c.year)
    ensures r.enrolledStudents == (if p.enrolledStudents.Some? then p.enrolledStudents.value else c.enrolledStudents)
    ensures r.maxCapacity == (if p.maxCapacity.Some? then p.maxCapacity.value else c.maxCapacity)
    ensures r.isActive == (if p.isActive.Some? then p.isActive.value else c.isActive)
    ensures r.createdBy == (if p.createdBy.Some? then p.createdBy.value else c.createdBy)
    ensures r.teacher == (if p.teacher.Some? then p.teacher else c.teacher)
    ensures PatchValidates(p) && c.code != "" ==> r.code != ""
  {
    Class(Overwrite(c.name, Text.TrimOpt(p.name)),
          Overwrite(c.code, if p.code.Some? then Some(NormalizeCode(p.code.value)) else None),
          Merge(c.description, Text.TrimOpt(p.description)),
          Overwrite(c.instructor, Text.TrimOpt(p.instructor)),
          Overwrite(c.schedule, p.schedule),
          Overwrite(c.semester, p.semester),
          Overwrite(c.year, p.year),
          Overwrite(c.enrolledStudents, p.enrolledStudents),
          Overwrite(c.maxCapacity, p.maxCapacity),
          Overwrite(c.isActive, p.isActive),
          Overwrite(c.createdBy, p.createdBy),
          Merge(c.teacher, p.teacher))
  }
}
