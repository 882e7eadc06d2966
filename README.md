# Attendance Management System: the server core in Dafny

This project models the server of the Attendance Management System. That server is an Express
application over four Mongoose collections: users, classes, attendance records and results.

The modules follow the server's files:

- **Schemas.** `UserModel`, `ClassModel`, `AttendanceModel` and `ResultModel` hold the four
  schemas. They model the setters (`trim`, `lowercase`, `uppercase`), defaults, enums and
  validators, plus the pre-save password hook.
- **Database.** `Database` holds the four collections as one value, `Db`. It also holds the
  constraints the unique indexes and the routes' duplicate checks keep, as `Valid`.
- **Routes.** `ClassRoutes`, `AttendanceRoutes`, `ResultRoutes`, `StudentRoutes` and
  `TeacherRoutes` hold one handler function per route. Each write handler returns a `Reply`,
  which pairs the new database with the response. Each handler is an ordered chain of guards
  followed by one or two document writes (enroll and assign-teacher write both a class and a
  user).
- **Caller.** The authenticated caller (`req.user`: id, role, assigned classes) is an explicit
  parameter, `Access.Caller`.
- **Responses.** A response is `Ok`, `NotFound` (404), `Forbidden` (403) or `BadRequest`
  (400), carrying the message the route sends.
- **Store.** `Store.Store` is the in-memory, sequential store. It is a class with one field
  per collection and a counter for new ObjectIds. Its methods perform the write routes' steps
  on those fields in place. Attendance and results are upserted by scanning the table for the
  matched position. Each method is proved to leave exactly the state, and send exactly the
  response, that the route's handler function gives. Each method also keeps `Valid`.
- **Server.** `Server` collects the write routes of the five routers of the core as one `Write`
  request type, and proves facts about every write at once.
- **Helpers.** `Text` and `Aggregate` are helpers:
  - `Text`: ASCII white space and case, and `trim`;
  - `Aggregate`: the `distinct` and `$group` aggregations of the statistics route.

The model follows the code as written; in particular:

- **No date truncation.** The attendance key uses the request's date exactly as given
  (`new Date(date)`); it is not truncated to a day. `AttendanceRoutes.MarksAtDistinctInstants`
  shows that two instants of one day make two records.
- **No status check on mark.** Marking attendance runs no validators, so the status enum is
  not enforced (`AttendanceRoutes.MarkStoresUnlistedStatus`).
- **Reading attendance needs enrollment.** Reading a class's attendance or statistics needs
  the admin role or a place on the class's roster. A teacher not on the roster is refused, even
  when assigned to the class.
- **No checks on result writes.** Writing a result has no role check and no class-assignment
  check. Any caller that names a teacher may write.
- **No unique index on results.** The results collection declares no unique index. One result
  per (class, student) holds only because of the upsert.
- **Capacity checked only at enroll.** `PUT /classes/:id` may leave a roster above
  `maxCapacity`.
- **Assign-teacher keeps the old teacher.** The previous teacher keeps the class in its
  `assignedClasses`.
- **Assign does not update the class.** `PUT /teachers/:id/assign` never changes
  `Class.teacher`.
- **Missing classes dropped.** `GET /teachers/:id/classes` serves the *populated*
  `assignedClasses`. Ids that no class has are dropped, so the result is the stored list only
  when every id names a class (`TeacherRoutes.AssignThenClasses`).

The model reads Mongoose and the MongoDB driver as follows (Mongoose 6 or later):

- An update document's `undefined` keys are stripped rather than written (`Common.Overwrite`,
  `Common.Merge`).
- Path setters also apply to query filters. So a duplicate check compares the normalised
  username and email.
- An `undefined` value in a query filter is sent as `null`. `null` matches documents that lack
  the path.
  - So in `PUT /students/:id`, an update that leaves out `studentId` matches any other user
    without one (an admin or a teacher) and is refused as a duplicate
    (`StudentRoutes.UpdateWithoutStudentIdRefused`).
- `findByIdAndUpdate` with `runValidators` validates the update before the query runs. So an
  invalid update is a 400 even for a missing id.

## Model

| member | source | states |
|---|---|---|
| Common.AddToSet | project/server/routes/classes.js:136 | `$addToSet`: the stored array is kept as it is and the element is appended once, at the end, unless already present (then the array is unchanged); an array without duplicates stays without duplicates |
| Text.TrimFacts | project/server/models/User.js:5-10 | the `trim` setter returns the slice of its input left after removing exactly the white space at both ends: only white space lies outside the slice and the slice neither starts nor ends with white space; an already trimmed string is unchanged |
| UserModel.NormalizeEmailIdempotent | project/server/models/User.js:11-17 | normalising a stored (lowercased, trimmed) email again changes nothing |
| UserModel.MaterializeFacts | project/server/models/User.js:4-94 | a new user document that passes its validators has the drafted role and studentId, a trimmed non-empty username, a normalised email, empty class arrays and timetable, `isActive` true, and the digest of a password of at least 6 characters; a student always has a studentId |
| ClassModel.NormalizeCode | project/server/models/Class.js:9-15 | a stored code is the upper-cased input with exactly its surrounding white space removed, so it has no lower-case letter and no white space at either end |
| ClassModel.NormalizeCodeIdempotent | project/server/models/Class.js:9-15 | normalising a stored code again gives the same code |
| ClassModel.Build | project/server/models/Class.js:3-67 | a new class document has the setters applied to names, code, instructor and description, the route's creator, `maxCapacity` 50 and `isActive` true when the body is silent, an absent description left absent, and the body's schedule, semester, roster and teacher; a body that passes the validators gives a non-empty code, its year and weekday-only schedule days |
| ClassModel.ApplyPatch | project/server/routes/classes.js:109-113 | each path the update body gives is stored after its setter (name, instructor and description trimmed, code upper-cased and trimmed), each path it leaves out keeps its stored value |
| AttendanceModel.Find | project/server/routes/attendance.js:31-32 | the matched position holds a record with the key; no position matches exactly when no record has the key |
| AttendanceModel.CountKeyOfUnique | project/server/models/Attendance.js:41 | under the unique compound index a key occurs once when it is found and not at all otherwise |
| AttendanceModel.UpsertFacts | project/server/routes/attendance.js:31-43 | the upsert keeps one record per key and leaves exactly one record with the key, carrying this call's status, marker, time and trimmed notes (an absent note keeps the stored one); other records stay where and what they were; the table grows only for a new key |
| ResultModel.Find | project/server/routes/results.js:13-14 | the matched position holds a result for the pair; none matches exactly when no result has the pair |
| ResultModel.CountPairOfUnique | project/server/models/Result.js:3-35 | with one result per pair, a pair occurs once when found and not at all otherwise |
| ResultModel.UpsertFacts | project/server/routes/results.js:13-17 | the upsert keeps one result per pair and leaves exactly one for the pair with this call's teacher, marks and updater; other results are untouched; the table grows only for a new pair |
| ClassRoutes.Create | project/server/routes/classes.js:9-24 | a refused create changes nothing; a created class gets the next id and is stored under it |
| ClassRoutes.CreateFacts | project/server/routes/classes.js:9-24 | create succeeds exactly for an admin with a valid body whose normalised code no class has; a taken code gives "Class code already exists"; the new class has a fresh id, `createdBy` set to the caller whatever the body says, the normalised non-empty code, weekday-only schedule days, `maxCapacity` 50 and `isActive` true when the body is silent, and nothing else changes |
| ClassRoutes.CreatePreservesValid | project/server/models/Class.js:9-15 | create keeps class codes unique and every other database constraint |
| ClassRoutes.List | project/server/routes/classes.js:27-46 | the list always succeeds and serves only stored classes as stored |
| ClassRoutes.ListVisibility | project/server/routes/classes.js:31-40 | admins see exactly the active classes; anyone else sees exactly the active classes whose roster holds them, a subset of what an admin sees |
| ClassRoutes.GetById | project/server/routes/classes.js:49-68 | a missing id is a 404; for a stored class the read succeeds exactly for an admin or a user on the populated roster; a served class is the stored one |
| ClassRoutes.GetByIdAccess | project/server/routes/classes.js:55-62 | 404 comes before the access check; then there is a 403 exactly for a non-admin not on the populated roster |
| ClassRoutes.ListAgreesWithGet | project/server/routes/classes.js:31-62 | for a stored caller, every listed class can be fetched, and every fetchable active class is listed |
| ClassRoutes.Enroll | project/server/routes/classes.js:71-104 | a refused enroll changes nothing; a successful one appends the student to the roster and the class to the student's classes |
| ClassRoutes.EnrollGuardOrder | project/server/routes/classes.js:75-88 | a missing class or student is a 404; then a non-student is a 400 "Only students can be enrolled in classes"; then an enrolled student is a 400 "Student already enrolled", even in a full class; each refusal changes nothing |
| ClassRoutes.EnrollCapacity | project/server/routes/classes.js:90-95 | once the other guards pass, enroll succeeds exactly when the roster is below `maxCapacity`; success grows the roster by one, so a roster within capacity stays within it |
| ClassRoutes.EnrollFrame | project/server/routes/classes.js:94-98 | after enroll, the student occurs once on the roster and the class is appended to the student's classes; every other class, every other user, both record tables and the id counter are unchanged |
| ClassRoutes.EnrollTwice | project/server/routes/classes.js:86-94 | a second enroll of the same pair is refused as already enrolled and changes nothing; the student stays on the roster once |
| ClassRoutes.EnrollPreservesValid | project/server/routes/classes.js:94-98 | enroll keeps every database constraint |
| ClassRoutes.Update | project/server/routes/classes.js:107-121 | a refused update changes nothing; a successful one replaces only that class |
| ClassRoutes.UpdateCanExceedCapacity | project/server/routes/classes.js:109-113 | an update may set `maxCapacity` below the roster's size: capacity is checked only by enroll |
| ClassRoutes.UpdateGuardOrder | project/server/routes/classes.js:107-121 | an invalid patch is a 400 before the lookup, even for a missing class; a valid one for a missing class is a 404; success stores the class with the patch's paths overwritten |
| ClassRoutes.UpdatePreservesValid | project/server/routes/classes.js:109-119 | update keeps class codes unique: a code another class has is refused |
| ClassRoutes.AssignTeacherFacts | project/server/routes/classes.js:127-136 | assign-teacher stores exactly the class with `teacher` set, adds the class once to that user's `assignedClasses` when the user exists (with set semantics: repeating the call changes nothing more), and changes no other class, no other user, neither record table and not the id counter; the previous teacher keeps the class |
| ClassRoutes.AssignTeacherAbsent | project/server/routes/classes.js:127-136 | without a `teacherId` the route answers with the class and changes nothing |
| ClassRoutes.AssignTeacher | project/server/routes/classes.js:124-141 | a refused assign changes nothing; any assign leaves both record tables and the id counter as they were, and a successful one replaces only that class |
| ClassRoutes.AssignTeacherPreservesValid | project/server/routes/classes.js:127-136 | assign-teacher keeps every database constraint |
| ClassRoutes.TeacherClasses | project/server/routes/classes.js:144-155 | served exactly to an admin or to that user; the answer holds exactly the classes, active or not, whose teacher is the id, each as stored |
| AttendanceRoutes.Mark | project/server/routes/attendance.js:10-48 | a refused mark changes nothing; success changes only the attendance table |
| AttendanceRoutes.MarkGuardOrder | project/server/routes/attendance.js:13-30 | 404 for a missing class or student comes before any role check; then 403 for a teacher outside its assigned classes; then 403 "Access denied" for a student; then 400 for a student off the roster; each refusal writes nothing |
| AttendanceRoutes.MarkFacts | project/server/routes/attendance.js:19-43 | mark succeeds exactly when both documents exist, the caller is an admin or a teacher assigned the class, and the student is on the roster; then exactly one record has the key, with this call's status, marker and time; records with other keys are untouched; the table grows only for a new key |
| AttendanceRoutes.MarkTwice | project/server/routes/attendance.js:31-43 | marking a key again keeps one record for it, with the second status, and the table does not grow |
| AttendanceRoutes.MarksAtDistinctInstants | project/server/routes/attendance.js:31-32 | two marks at two different instants leave two records, one per instant; the first mark's record is still present |
| AttendanceRoutes.MarkStoresUnlistedStatus | project/server/routes/attendance.js:39-42 | a status outside the enum (`"excused"`) is stored by mark |
| AttendanceRoutes.MarkPreservesValid | project/server/models/Attendance.js:41 | mark keeps one record per (classId, studentId, date) and every other constraint |
| AttendanceRoutes.Select | project/server/routes/attendance.js:67-72 | `find(query)` serves exactly the records that match every path of the filter |
| AttendanceRoutes.ClassAttendance | project/server/routes/attendance.js:51-81 | a missing class is a 404; for a stored class the list is served exactly to an admin or a user on the roster (an assigned teacher off the roster is refused); a served list holds only stored records of that class |
| AttendanceRoutes.ClassAttendanceFacts | project/server/routes/attendance.js:57-70 | a missing class is a 404; for a stored class the read succeeds exactly for an admin or a user on the roster, and any other caller gets 403 "Access denied"; a served list is exactly the class's records, and with a date exactly those with that date |
| AttendanceRoutes.StudentAttendance | project/server/routes/attendance.js:84-101 | served exactly to an admin or to the student; the answer is exactly the records with that studentId |
| AttendanceRoutes.ClassStats | project/server/routes/attendance.js:104-138 | a missing class is a 404; for a stored class the statistics are served exactly to an admin or a user on the roster; `enrolledStudents` is the roster's length |
| AttendanceRoutes.StatsFacts | project/server/routes/attendance.js:118-134 | the status groups have distinct keys: one per status that occurs, each counting that status's records; their counts sum to the class's number of records; `totalClasses` is exactly the number of distinct dates among the class's records, so at most that sum |
| Aggregate.TallyFacts | project/server/routes/attendance.js:118-126 | `$group` with `$sum: 1`: distinct non-empty groups, one per value that occurs, each counting that value, totalling the number of inputs |
| Aggregate.Distinct | project/server/routes/attendance.js:128 | `distinct`: no duplicates, and exactly the values of the input |
| Aggregate.DistinctCard | project/server/routes/attendance.js:128 | `distinct` returns exactly one element per value of its input: its length is the number of distinct values |
| AttendanceRoutes.TodayCount | project/server/routes/attendance.js:141-160 | the count is served exactly to admins, and it is the number of stored records whose date lies in [start of today, start of tomorrow) |
| AttendanceRoutes.CountDatedPositions | project/server/routes/attendance.js:153-155 | `countDocuments` on the date window counts each record whose date lies in the window exactly once |
| AttendanceRoutes.CountDatedAppend | project/server/routes/attendance.js:153-155 | a new record adds one to the count exactly when its date is in the half-open interval |
| AttendanceRoutes.CountDatedReplace | project/server/routes/attendance.js:153-155 | overwriting a record with one of the same date keeps the count |
| AttendanceRoutes.TodayCountAfterMark | project/server/routes/attendance.js:153-155 | after a mark, today's count grows by one exactly when the key was new and its date lies in [start of today, start of tomorrow); otherwise it is unchanged |
| ResultRoutes.Save | project/server/routes/results.js:8-22 | a refused save changes nothing; success changes only the results table |
| ResultRoutes.SaveFacts | project/server/routes/results.js:11-17 | a save succeeds exactly when the caller is a teacher or names one, whatever its role; otherwise it is a 400 "Teacher required"; exactly one result has the pair, with the recorded teacher, these marks and the caller as updater; other results are untouched; the table grows only for a new pair |
| ResultRoutes.SaveTwice | project/server/routes/results.js:13-17 | saving a pair again keeps one result for it, with the second marks, and the table does not grow |
| ResultRoutes.SavePreservesValid | project/server/routes/results.js:13-17 | save keeps one result per pair and every other constraint |
| ResultRoutes.SelectClass | project/server/routes/results.js:28-31 | exactly the results of the class that pass the role filter |
| ResultRoutes.ClassResults | project/server/routes/results.js:25-39 | the class read is never refused |
| ResultRoutes.ClassResultsScope | project/server/routes/results.js:27-30 | an admin gets every result of the class, a student exactly its own, a teacher exactly those it recorded |
| ResultRoutes.SelectStudent | project/server/routes/results.js:48 | exactly the results with that studentId |
| ResultRoutes.StudentResults | project/server/routes/results.js:42-55 | refused with 403 "Access denied" exactly to a student asking for another student; teachers and admins read anyone's; a served list holds exactly the stored results with that studentId |
| ResultRoutes.StudentResultsAccess | project/server/routes/results.js:45-48 | refused exactly to a student asking for another student; when served, exactly that student's results |
| ResultRoutes.TeacherSeesOwnSave | project/server/routes/results.js:11-30 | a teacher that saves a result then finds it in that class's results |
| StudentRoutes.Create | project/server/routes/students.js:8-39 | a refused create changes nothing; a created user gets the next id and role student |
| StudentRoutes.CreateOutcome | project/server/routes/students.js:13-31 | create succeeds exactly for an admin whose username, email and studentId no user has and whose body passes the validators; a clash is a 400 "Username, email, or student ID already exists" before the validators run |
| StudentRoutes.CreateResult | project/server/routes/students.js:21-35 | the new user has a fresh id, role student whatever the body says, the given studentId, the normalised username and email, no classes, `isActive` true and the digest of the password; the response is that user without its password; nothing else changes |
| StudentRoutes.CreatePreservesValid | project/server/routes/students.js:13-31 | create keeps username, email and studentId unique and every stored password a digest |
| StudentRoutes.List | project/server/routes/students.js:42-52 | served exactly to admins; exactly the users with role student, without passwords |
| StudentRoutes.GetAccess | project/server/routes/students.js:55-74 | a non-admin asking for another id gets 403 whether or not the id exists; then a missing id is a 404; otherwise the stored user without its password |
| StudentRoutes.Get | project/server/routes/students.js:55-74 | served exactly to an admin or the user itself, for a stored id; the answer is that user's profile without its password, whatever its role |
| StudentRoutes.Update | project/server/routes/students.js:77-131 | a refused update changes nothing; success replaces only that user, with the patch applied |
| StudentRoutes.UpdateGuardOrder | project/server/routes/students.js:83-125 | the duplicate check (excluding this id) comes first, then the 1-5 character password rule, then the validators, and only then the 404 for a missing id; each refusal writes nothing |
| StudentRoutes.ApplyPatch | project/server/routes/students.js:98-112 | each path the update body gives is stored after its setter (username and names trimmed, email lower-cased and trimmed), a password of 6 or more characters as its digest; each path it leaves out keeps its stored value; role, assigned classes and timetable never change |
| StudentRoutes.UpdateFacts | project/server/routes/students.js:98-121 | an absent or empty password keeps the stored one; 6 or more characters store its digest; a given username, first and last name are stored trimmed, a given email normalised, and a given studentId, enrolledClasses and isActive as given; each absent path keeps its stored value; role, assigned classes and timetable never change; every other user is untouched; the response is the user without its password |
| StudentRoutes.OwnValuesNoClash | project/server/routes/students.js:83-95 | resubmitting a user's own username, email and studentId is no conflict |
| StudentRoutes.UpdateWithoutStudentIdRefused | project/server/routes/students.js:83-95 | an update without a studentId is refused as a duplicate whenever another user has no studentId |
| StudentRoutes.UpdatePreservesValid | project/server/routes/students.js:83-121 | update keeps username, email and studentId unique and every stored password a digest |
| TeacherRoutes.Create | project/server/routes/teachers.js:8-33 | a refused create changes nothing; a created user gets the next id and role teacher |
| TeacherRoutes.CreateOutcome | project/server/routes/teachers.js:12-27 | create succeeds exactly for an admin whose username and email no user has and whose body passes the validators; a clash is a 400 "Username or email already exists" first |
| TeacherRoutes.CreateResult | project/server/routes/teachers.js:18-29 | the new user has a fresh id, role teacher, empty `assignedClasses`, no studentId, an empty timetable, the normalised username and email, the digest of the password and `isActive` true; nothing else changes |
| TeacherRoutes.CreatePreservesValid | project/server/routes/teachers.js:12-27 | create keeps usernames and emails unique and every other constraint |
| TeacherRoutes.List | project/server/routes/teachers.js:36-45 | served exactly to admins; exactly the users with role teacher, without passwords |
| TeacherRoutes.Assign | project/server/routes/teachers.js:48-63 | a refused assign changes nothing; a successful one is for a stored user and changes only the users |
| TeacherRoutes.AssignFacts | project/server/routes/teachers.js:50-58 | assign succeeds exactly for an admin and an existing user; a missing user is a 404; `assignedClasses` becomes exactly the given list; every other user and every class stay as they were, so `Class.teacher` and the by-teacher class query are unchanged |
| TeacherRoutes.AssignPreservesValid | project/server/routes/teachers.js:51-55 | assign keeps every database constraint |
| TeacherRoutes.Populate | project/server/routes/teachers.js:107-110 | each served class is a stored class whose id is in the list; every listed id that names a class is served |
| TeacherRoutes.Classes | project/server/routes/teachers.js:102-118 | served exactly to an admin or the user itself, for a stored id; a served answer is the user's `assignedClasses`, populated |
| TeacherRoutes.AssignThenClasses | project/server/routes/teachers.js:102-114 | after an assign, the classes route serves the given list populated; when every id names a class, exactly the list, in order |
| TeacherRoutes.PopulateAllPresent | project/server/routes/teachers.js:107-114 | populating ids that all name classes serves exactly those ids, in order |
| TeacherRoutes.SetTimetable | project/server/routes/teachers.js:66-81 | a refused timetable update changes nothing; a successful one is for a stored user and changes only the users |
| TeacherRoutes.SetTimetableFacts | project/server/routes/teachers.js:68-76 | timetable succeeds exactly for an admin and an existing user; a missing user is a 404; `timetable` becomes exactly the given entries; nothing else changes |
| TeacherRoutes.SetTimetablePreservesValid | project/server/routes/teachers.js:69-73 | the timetable update keeps every database constraint |
| TeacherRoutes.ReadAccess | project/server/routes/teachers.js:84-118 | both single reads give 403 to a non-admin asking for another id, whether or not it exists; then a missing id is a 404; otherwise the profile without its password |
| TeacherRoutes.Get | project/server/routes/teachers.js:84-99 | served exactly to an admin or the user itself, for a stored id; the answer is that user's profile without its password |
| Server.ApplyPreservesValid | project/server/server.js:30-35 | every write of the five routers of the core keeps every database constraint, whoever sends it |
| Server.WritesNeverDelete | project/server/server.js:30-35 | no write of the five routers of the core deletes a user or a class |
| Server.OtherWritesKeepPasswords | project/server/models/User.js:85-94 | every write of the five routers of the core other than the student update, including the creates, leaves the password of every stored user as it was, so no save hashes a stored digest again |
| Store.Store.IndexOfKey | project/server/routes/attendance.js:31-32 | the scan stops at the first record with the key, or at the table's end exactly when no record has it |
| Store.Store.IndexOfPair | project/server/routes/results.js:13-14 | the scan stops at the first result for the pair, or at the table's end exactly when none has it |
| Store.Store.CreateClass | project/server/routes/classes.js:9-24 | the in-place create leaves the state, and sends the response, that `ClassRoutes.Create` gives, and keeps `Valid` |
| Store.Store.Enroll | project/server/routes/classes.js:71-104 | the two in-place pushes and saves give the state and response of `ClassRoutes.Enroll`, and keep `Valid` |
| Store.Store.UpdateClass | project/server/routes/classes.js:107-121 | the in-place update gives the state and response of `ClassRoutes.Update`, and keeps `Valid` |
| Store.Store.AssignTeacher | project/server/routes/classes.js:124-141 | the two writes give the state and response of `ClassRoutes.AssignTeacher`, and keep `Valid` |
| Store.Store.MarkAttendance | project/server/routes/attendance.js:10-48 | the scan and the in-place overwrite or append give the state and response of `AttendanceRoutes.Mark`, and keep `Valid` |
| Store.Store.SaveResult | project/server/routes/results.js:8-22 | the scan and the in-place overwrite or append give the state and response of `ResultRoutes.Save`, and keep `Valid` |
| Store.Store.CreateStudent | project/server/routes/students.js:8-39 | the insert gives the state and response of `StudentRoutes.Create`, and keeps `Valid` |
| Store.Store.UpdateStudent | project/server/routes/students.js:77-131 | the update built path by path gives the state and response of `StudentRoutes.Update`, and keeps `Valid` |
| Store.Store.CreateTeacher | project/server/routes/teachers.js:8-33 | the insert gives the state and response of `TeacherRoutes.Create`, and keeps `Valid` |
| Store.Store.AssignClasses | project/server/routes/teachers.js:48-63 | the overwrite gives the state and response of `TeacherRoutes.Assign`, and keeps `Valid` |
| Store.Store.SetTimetable | project/server/routes/teachers.js:66-81 | the overwrite gives the state and response of `TeacherRoutes.SetTimetable`, and keeps `Valid` |

## Left out

- The React front end under `project/src/`: UI rendering, component state and HTTP calls.
- The front end's calls to `/attendance/teacher/:id`, `/results/teacher/:id` and `/timetable/teacher/:id`: the server has no such routes.
- `project/server/routes/students.put.js`: a dead, unrouted copy of the student update, modelled once as `StudentRoutes.Update`.
- `project/server/server.js` and `project/server/seedAdmin.js`: process start-up, the database connection and the health check. Only the mounting of the five routers of the core is modelled, as `Server.Apply`; the auth router mounted at `/api/auth` (`routes/auth.js`) is not part of this model.
- Server.ApplyPreservesValid: ranges over the writes of the five routers of the core only; the routes of the auth router (`routes/auth.js`, mounted at `/api/auth`) are not covered, since that file is not part of this model.
- Server.WritesNeverDelete: ranges over the writes of the five routers of the core only; the routes of the auth router are not covered, since `routes/auth.js` is not part of this model.
- Server.OtherWritesKeepPasswords: ranges over the writes of the five routers of the core only; the routes of the auth router (which may register users or change passwords) are not covered, since `routes/auth.js` is not part of this model.
- The authentication middleware (`../middleware/auth.js`) is not part of this model.
  - The caller is a parameter.
  - `requireAdmin` is modelled as a 403 for any non-admin.
  - Its message text (`Access.AdminRequired`) is a placeholder.
- bcrypt: a hash is the symbolic `Digest(Plain(text))`, and salts are not modelled. `comparePassword` is not modelled, since no route in the core calls it.
- The clock: `new Date()` and the local start of today and tomorrow are parameters.
- Turning the `date` string into a `Date` is not modelled. The date is an integer instant.
- `populate`, `select('-password')` and `sort` only shape the output.
  - Reads serve records in collection order, with no date ordering.
  - Ids stand in for populated documents.
  - Two exceptions are modelled: the roster check of `GET /classes/:id` and the teachers' classes route both depend on `populate` dropping ids that no document has.
- The 500 responses of the `catch` blocks: the model has no database failures, and the full validation that `save()` runs on an existing document is not modelled.
- ClassRoutes.Enroll: does not model a failure of the student's `save()` after the class has been saved. One such failure is deterministic: `PUT /students/:id` runs only the update validators, which skip the conditional `required` of `studentId`, so it can store a student whose `studentId` is `""`. Enrolling that student saves the class, then `student.save()` runs full validation and rejects the empty `studentId`, and the route answers 500 with the class already updated and the student unchanged (classes.js:94-104). The model instead answers `Ok` and updates both documents. Enroll is sequential and has no rollback, as in the code.
- Concurrency: requests run one at a time.
- Text handling is ASCII only.
  - `Text.Trim` removes the ASCII white-space characters.
  - The case setters map only `A`-`Z` and `a`-`z`.
  - JavaScript's Unicode `trim` and case mapping are not modelled.
- Request bodies are assumed to carry the required string paths of the create routes, and `status` and `marks`, with the right types. Mongoose's casting of wrongly typed values (strings to numbers and ObjectIds) is not modelled.
- The `default: 'student'` of `role`: every route that creates a user sets the role itself.
- The conditional `required` of `studentId` for updates is not evaluated: under an update validator, `this` is the query, not the document.
- `Database.Valid` does not include the fact that stored usernames and emails are as their setters leave them.
  - `UserModel.MaterializeFacts` proves this fact for every created user.
  - `StudentRoutes.OwnValuesNoClash` takes it as a precondition.
- The `timestamps: true` fields (`createdAt`, `updatedAt`) are not modelled.
- Marks are modelled as integers.
- The `Store.Store` methods' contracts mention `old`, so they relate the store to the handler functions rather than standing alone. The pure handler functions carry the properties.
