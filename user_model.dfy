/** The `User` schema: one collection for admins, teachers and students. */
module UserModel {
  import opened Common
  import Text

  datatype Role = Admin | Student | Teacher

  /** A stored password. bcrypt is kept symbolic: `Digest(p)` is the hash of
      `p`, and nothing in the model looks inside it. */
  datatype Secret = Plain(text: string) | Digest(of: Secret)

  datatype TimetableEntry = TimetableEntry(classId: Id, day: string, startTime: string, endTime: string)

  datatype User = User(
    username: string,
    email: string,
    password: Secret,
    role: Role,
    firstName: string,
    lastName: string,
    studentId: Option<string>,
    enrolledClasses: seq<Id>,
    assignedClasses: seq<Id>,
    timetable: seq<TimetableEntry>,
    isActive: bool)

  /** `minlength` of the password path. */
  const MinPasswordLength := 6

  /** The setters of the email path: `lowercase`, then `trim`. */
  function NormalizeEmail(s: string): string
  {
    Text.Trim(Text.Lower(s))
  }

  /** `lowercase` then `trim` once more changes nothing, so a stored email
      matches itself when resubmitted. */
  lemma NormalizeEmailIdempotent(s: string)
    ensures NormalizeEmail(NormalizeEmail(s)) == NormalizeEmail(s)
  {
    var e := NormalizeEmail(s);
    var l := Text.Lower(s);
    Text.TrimFacts(l);
    forall k | 0 <= k < |e| ensures !Text.IsUpperLetter(e[k]) {
      var j :| 0 <= j < |l| && l[j] == e[k];
    }
    Text.LowerOfLower(e);
    Text.TrimIdempotent(l);
  }

  /** A stored user's username and email as their setters leave them. */
  predicate Normalized(u: User)
  {
    Text.Trim(u.username) == u.username && NormalizeEmail(u.email) == u.email
  }

  /** The fields a route passes to `new User({...})`. */
  datatype Draft = Draft(
    username: string,
    email: string,
    password: string,
    role: Role,
    firstName: string,
    lastName: string,
    studentId: Option<string>)

  /** The validators `save` runs on a new document, after its setters and
      before the pre-save hook: `required` on the string paths (an empty
      string fails it), `minlength` on the plaintext password, and `studentId`
      required exactly when the role is student. */
  predicate Validates(d: Draft)
  {
    && Text.Trim(d.username) != ""
    && NormalizeEmail(d.email) != ""
    && |d.password| >= MinPasswordLength
    && Text.Trim(d.firstName) != ""
    && Text.Trim(d.lastName) != ""
    && (d.role == Student ==> d.studentId.Some? && d.studentId.value != "")
  }

  /** The pre-save hook: the password is hashed again only when it was modified. */
  function PreSave(u: User, passwordModified: bool): User
  {
    if passwordModified then u.(password := Digest(u.password)) else u
  }

  /** A password as the store keeps it: the digest of a plaintext that met the
      length rule. */
  predicate StoredPassword(p: Secret)
  {
    p.Digest? && p.of.Plain? && |p.of.text| >= MinPasswordLength
  }

  /** The document `new User(d).save()` writes: setters applied, array and
      flag defaults filled in, the plaintext replaced by its digest. */
  function Materialize(d: Draft): User
  {
    var doc := User(Text.Trim(d.username), NormalizeEmail(d.email), Plain(d.password), d.role,
                    Text.Trim(d.firstName), Text.Trim(d.lastName), d.studentId,
                    [], [], [], true);
    PreSave(doc, true)
  }

  /** A new document passes its validators and its hook exactly as the schema
      says: role and studentId taken from the draft, names normalised, empty
      arrays, active, and the password stored as the digest of the given
      plaintext, which met the length rule. */
  lemma MaterializeFacts(d: Draft)
    requires Validates(d)
    ensures var u := Materialize(d);
      && u.role == d.role && u.studentId == d.studentId
      && u.username == Text.Trim(d.username) && u.email == NormalizeEmail(d.email)
      && u.username != "" && u.email != ""
      && u.enrolledClasses == [] && u.assignedClasses == [] && u.timetable == []
      && u.isActive
      && u.password == Digest(Plain(d.password)) && StoredPassword(u.password)
      && (u.role == Student ==> u.studentId.Some?)
      && Normalized(u)
  {
    Text.TrimIdempotent(d.username);
    NormalizeEmailIdempotent(d.email);
  }

  /** What a route returns for a user: every path but the password. */
  datatype Profile = Profile(
    id: Id,
    username: string,
    email: string,
    role: Role,
    firstName: string,
    lastName: string,
    studentId: Option<string>,
    enrolledClasses: seq<Id>,
    assignedClasses: seq<Id>,
    timetable: seq<TimetableEntry>,
    isActive: bool)

  function ProfileOf(id: Id, u: User): Profile
  {
    Profile(id, u.username, u.email, u.role, u.firstName, u.lastName, u.studentId,
            u.enrolledClasses, u.assignedClasses, u.timetable, u.isActive)
  }
}
