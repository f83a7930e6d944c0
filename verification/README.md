# Attendance system — a Dafny model

This project models the core of an ASP.NET Core attendance system. A teacher
starts an attendance session for a class. The session carries a QR code that
expires after a few minutes. Enrolled students check in by scanning the code,
and each check-in is recorded as Present or Late. Absentees are backfilled
when the session is marked. Around that lifecycle sit the administration
actions, the teacher's and the student's pages, the student import from a
spreadsheet, the two builders and the QR payload text.

The database is a `Store` of seven tables, each a sequence in table order.
`Db.SaveChanges` accepts a new store exactly when the schema holds:

- primary keys are unique;
- the three unique indexes declared by the database context hold, plus
  Identity's index on normalised user names, which only users created through
  the account manager carry (a null name never collides);
- every foreign key resolves.

The cascade and restrict delete rules are computed explicitly. The application
also promises at most one attendance record per (session, student) pair. The
schema does not enforce that, so `Db.Valid` adds it as an invariant, and the
model proves that every operation preserves `Valid`.

Some inputs become explicit parameters:

- the clock is a `now` argument, in .NET ticks;
- a fresh GUID becomes a `code` or `id` argument;
- the signed-in user's id claim is an `Option<string>`;
- Identity's password policy and user-name character rules are a boolean `accepted`;
- a form field left blank, which MVC binds to null, is `None`.

Every action is a pure function from the store to a `Transition`: the store
afterwards plus a result or an error. A session builder or course builder is
threaded through as a value.

Modules follow the program's structure:

- `Base`, `Strings`, `Query`: .NET and LINQ primitives (trimming,
  upper-casing, `FirstOrDefault`, `Where`, `Except`).
- `Entities`: the records.
- `Db`: the schema and the delete rules.
- `DeleteRules`: the delete rules as all-input lemmas.
- `AttendanceSessions`, `Attendances`, `Semesters`: the model classes' predicates.
- `SessionBuilders`, `CourseBuilders`: the builders.
- `AttendanceService`, `StudentService`: the two services.
- `TeacherController`, `StudentController`, `AdminController`: the controllers.
- `Excel`: the spreadsheet reader and writer.
- `Json`, `QRPayload`: the QR payload text and a reference JSON writer.

## Model

| member | source | states |
|---|---|---|
| AttendanceSessions.IsQRCodeValid | AttendanceSystem/Models/AttendanceSession.cs:17-20 | by definition, a code is valid exactly while the session is active and the clock is strictly before the expiry; `InactiveNeverValid`, `InvalidAtExpiry` and `ExpiredStaysInvalid` state the consequences |
| AttendanceSessions.NewSession | AttendanceSystem/Models/AttendanceSession.cs:5-10 | a new session is active and has no class, code or id set yet |
| AttendanceSessions.InactiveNeverValid | AttendanceSystem/Models/AttendanceSession.cs:17-20 | an inactive session's code is valid at no time |
| AttendanceSessions.InvalidAtExpiry | AttendanceSystem/Models/AttendanceSession.cs:17-20 | the expiry comparison is strict: at the expiry instant the code is already invalid |
| AttendanceSessions.ExpiredStaysInvalid | AttendanceSystem/Models/AttendanceSession.cs:17-20 | once the expiry instant has passed, the code stays invalid at every later time |
| AttendanceSessions.ValidEarlier | AttendanceSystem/Models/AttendanceSession.cs:17-20 | a code valid at some time was valid at every earlier time |
| AttendanceSessions.AgreeEverywhereIsEqual | AttendanceSystem/Models/AttendanceSession.cs:5-10 | two sessions that agree on every field are the same session, so "changes only these fields" pins the rest |
| Attendances.StatusValue | AttendanceSystem/Models/Attendance.cs:3-9 | every status has a stored integer value from 0 to 3 |
| Attendances.StatusFromValue | AttendanceSystem/Models/Attendance.cs:3-9 | an integer names a status exactly when it is 0, 1, 2 or 3 |
| Attendances.StatusValueRoundTrip | AttendanceSystem/Models/Attendance.cs:3-9 | a status read back from its stored value is the same status, and there are exactly four statuses |
| Attendances.IsLate | AttendanceSystem/Models/Attendance.cs:25-33 | by definition, a record is late exactly when it has a check-in time whose time of day is strictly after the class start plus the threshold; the lemmas below state the consequences |
| Attendances.NewAttendance | AttendanceSystem/Models/Attendance.cs:13-19 | a new record defaults to Absent with no check-in time and no notes |
| Attendances.NotLateWithoutCheckIn | AttendanceSystem/Models/Attendance.cs:25-33 | a record without a check-in time is never late |
| Attendances.ThresholdIsExclusive | AttendanceSystem/Models/Attendance.cs:25-33 | a check-in exactly at class start plus the threshold is on time, and one tick later is late |
| Attendances.NeverLatePastMidnight | AttendanceSystem/Models/Attendance.cs:25-33 | when start plus threshold reaches midnight, no check-in is late, because the time of day stays below 24 hours |
| Attendances.RaisingThresholdOnlyClearsLate | AttendanceSystem/Models/Attendance.cs:25-33 | a record late under a higher threshold is late under every lower one |
| Semesters.IsCurrentSemester | AttendanceSystem/Models/Semester.cs:15-19 | by definition, a semester is current exactly when it is active and the clock lies between its start and end, both inclusive |
| Semesters.InactiveNeverCurrent | AttendanceSystem/Models/Semester.cs:15-19 | an inactive semester is never current |
| Semesters.InvertedNeverCurrent | AttendanceSystem/Models/Semester.cs:15-19 | a semester that ends before it starts is never current |
| Semesters.CurrentAtBothEnds | AttendanceSystem/Models/Semester.cs:15-19 | an active semester is current on its first and on its last instant, so both bounds are inclusive |
| Semesters.CurrentIsConvex | AttendanceSystem/Models/Semester.cs:15-19 | a semester current at two instants is current at every instant between them |
| SessionBuilders.Reset | AttendanceSystem/Patterns/Builder/AttendanceSessionBuilder.cs:25-32 | a fresh builder holds an active default session stamped with the clock |
| SessionBuilders.SetClass | AttendanceSystem/Patterns/Builder/AttendanceSessionBuilder.cs:34-39 | sets the class id to the class's id and leaves every other field alone |
| SessionBuilders.SetSessionDate | AttendanceSystem/Patterns/Builder/AttendanceSessionBuilder.cs:41-45 | sets the session date and leaves every other field alone |
| SessionBuilders.SetQRCodeExpiration | AttendanceSystem/Patterns/Builder/AttendanceSessionBuilder.cs:47-52 | sets the fresh code and the expiry `now` plus the minutes, and leaves every other field alone |
| SessionBuilders.SetActive | AttendanceSystem/Patterns/Builder/AttendanceSessionBuilder.cs:54-58 | sets the active flag only |
| SessionBuilders.Build | AttendanceSystem/Patterns/Builder/AttendanceSessionBuilder.cs:60-65 | returns the accumulated session without validation and leaves a reset builder |
| SessionBuilders.SecondBuildIsDefault | AttendanceSystem/Patterns/Builder/AttendanceSessionBuilder.cs:60-65 | a second build with no setter in between returns a default session |
| SessionBuilders.SettersOnDifferentFieldsCommute | AttendanceSystem/Patterns/Builder/AttendanceSessionBuilder.cs:34-45 | setting the class and the date gives the same builder in either order |
| SessionBuilders.ChainSetsEveryRequestedField | AttendanceSystem/Patterns/Builder/AttendanceSessionBuilder.cs:34-58 | the chain the service runs sets the class, date, code, expiry and active flag, and nothing else |
| CourseBuilders.Reset | AttendanceSystem/Patterns/Builder/CourseBuilder.cs:26-32 | a fresh builder holds an empty course with no semester and no credits |
| CourseBuilders.SetCode | AttendanceSystem/Patterns/Builder/CourseBuilder.cs:34-41 | refuses a missing or blank code without touching the builder, and otherwise stores the code upper-cased |
| CourseBuilders.SetName | AttendanceSystem/Patterns/Builder/CourseBuilder.cs:43-50 | refuses a missing or blank name without touching the builder, and otherwise stores it as given |
| CourseBuilders.SetDescription | AttendanceSystem/Patterns/Builder/CourseBuilder.cs:52-56 | always succeeds, and a missing description becomes the empty text |
| CourseBuilders.SetCredits | AttendanceSystem/Patterns/Builder/CourseBuilder.cs:58-65 | refuses zero or negative credits without touching the builder, and otherwise stores them |
| CourseBuilders.SetSemester | AttendanceSystem/Patterns/Builder/CourseBuilder.cs:67-75 | refuses a missing semester, and otherwise stores its id |
| CourseBuilders.Build | AttendanceSystem/Patterns/Builder/CourseBuilder.cs:77-90 | fails with the first missing part (code, name, semester) and keeps the builder; otherwise returns the course and resets |
| CourseBuilders.SettersKeepReachable | AttendanceSystem/Patterns/Builder/CourseBuilder.cs:26-90 | every setter, reset and build keeps the builder's stored code upper-case |
| CourseBuilders.BuiltCodeIsUpperCase | AttendanceSystem/Patterns/Builder/CourseBuilder.cs:39 | a built course has a non-empty code with no lower-case letter |
| CourseBuilders.FreshBuilderCannotBuild | AttendanceSystem/Patterns/Builder/CourseBuilder.cs:77-83 | building straight after a reset fails because the code is required |
| CourseBuilders.ChainBuildsRequestedCourse | AttendanceSystem/Patterns/Builder/CourseBuilder.cs:34-90 | with a non-blank code and name, positive credits and a semester, the setter chain builds exactly the requested course |
| CourseBuilders.BuildIgnoresCreditsAndDescription | AttendanceSystem/Patterns/Builder/CourseBuilder.cs:77-90 | whether a build succeeds does not depend on the credits or the description |
| Base.NextKey | AttendanceSystem/Models/Semester.cs:5 | an integer `Id` is an identity column by convention (here and in every other integer-keyed entity); the key given to an inserted row is positive and larger than every key present in the table, so it is unused |
| Db.SaveChanges | AttendanceSystem/Data/ApplicationDbContext.cs:28-94 | a save is accepted only when keys, unique indexes (the user-name index over present names only) and foreign keys all hold, and it is refused otherwise |
| Db.FindSessionIsTheSession | AttendanceSystem/Services/AttendanceService.cs:118-121 | with unique keys, looking a session up by id finds that very session |
| Db.FindClassIsTheClass | AttendanceSystem/Services/AttendanceService.cs:34-36 | with unique keys, looking a class up by id finds that very class |
| Db.DeleteClassCascade | AttendanceSystem/Data/ApplicationDbContext.cs:49-74 | deleting a class removes its enrollments and sessions and the sessions' records, and keeps keys and indexes unique |
| Db.DeleteUserCascade | AttendanceSystem/Data/ApplicationDbContext.cs:55-60 | deleting a user removes their enrollments and attendance records, and keeps keys and indexes unique |
| DeleteRules.DeleteClassAlwaysSucceeds | AttendanceSystem/Data/ApplicationDbContext.cs:49-74 | on a valid store, deleting a class never violates a constraint and leaves a valid store |
| DeleteRules.DeleteUserRestrictedByClasses | AttendanceSystem/Data/ApplicationDbContext.cs:42-46 | deleting a user fails exactly when the user teaches a class |
| DeleteRules.DeleteSemesterRestrictedByCourses | AttendanceSystem/Data/ApplicationDbContext.cs:28-32 | deleting a semester fails exactly when a course belongs to it |
| DeleteRules.DeleteCourseRestrictedByClasses | AttendanceSystem/Data/ApplicationDbContext.cs:35-39 | deleting a course fails exactly when a class belongs to it |
| DeleteRules.DeleteEnrollmentAlwaysSucceeds | AttendanceSystem/Data/ApplicationDbContext.cs:48-60 | an enrollment only refers to its class and its student, and no table refers to an enrollment, so removing one (the action at AttendanceSystem/Controllers/AdminController.cs:726-736) never violates a constraint and leaves a valid store |
| AttendanceService.CreateSession | AttendanceSystem/Services/AttendanceService.cs:32-53 | an unknown class fails with the store unchanged; otherwise exactly one active session is appended for the class, expiring `now` plus the minutes |
| AttendanceService.CreateSessionOutcome | AttendanceSystem/Services/AttendanceService.cs:32-53 | creation succeeds exactly when the class exists and the code is unused, and the store stays valid |
| AttendanceService.NewSessionKeepsValid | AttendanceSystem/Data/ApplicationDbContext.cs:92-94 | appending a session for an existing class with a fresh id and code keeps the store valid |
| AttendanceService.SubmitAttendance | AttendanceSystem/Services/AttendanceService.cs:55-98 | a failure leaves the store unchanged; a success appends one record checked in at `now`, Late exactly when the class's lateness rule says so |
| AttendanceService.SubmitOutcome | AttendanceSystem/Services/AttendanceService.cs:55-98 | check-in succeeds exactly when the session matches the code, is valid, the student is enrolled and has no record yet; the store stays valid |
| AttendanceService.SubmitKeepsValid | AttendanceSystem/Services/AttendanceService.cs:74-95 | check-in keeps at most one record per session and student |
| AttendanceService.SubmitAccepts | AttendanceSystem/Services/AttendanceService.cs:55-98 | an enrolled student without a record, scanning a valid session's own code, is accepted |
| AttendanceService.SubmitWithValidCode | AttendanceSystem/Services/AttendanceService.cs:64-79 | with a valid code only the enrollment and duplicate checks can refuse |
| AttendanceService.SubmitRejections | AttendanceSystem/Services/AttendanceService.cs:57-79 | each of the four errors is reported exactly when its check is the first to fail |
| AttendanceService.NewRecordKeepsValid | AttendanceSystem/Services/AttendanceService.cs:75-95 | a record for an existing session and user with a fresh id and a new (session, student) pair keeps the store valid |
| AttendanceService.SubmitAtMostOnce | AttendanceSystem/Services/AttendanceService.cs:74-79 | after a successful check-in the same student cannot check in to that session again, with any code at any time |
| AttendanceService.GetActiveSessionByQRCode | AttendanceSystem/Services/AttendanceService.cs:110-116 | finds an active session carrying the code, and finds nothing exactly when there is none |
| AttendanceService.ActiveSessionByCodeIsTheSession | AttendanceSystem/Services/AttendanceService.cs:110-116 | with unique codes, an active session is the one its code finds |
| AttendanceService.Deactivate | AttendanceSystem/Services/AttendanceService.cs:121-123 | clears the active flag of the session with that id only and changes no other field |
| AttendanceService.ExpireSession | AttendanceSystem/Services/AttendanceService.cs:118-126 | an unknown id is a no-op; otherwise only the active flags change, and only for that session |
| AttendanceService.ExpireOutcome | AttendanceSystem/Services/AttendanceService.cs:118-126 | expiry always succeeds on a valid store, keeps it valid, and leaves the session's code invalid at every time |
| AttendanceService.DeactivateKeepsSchema | AttendanceSystem/Services/AttendanceService.cs:121-124 | clearing an active flag keeps the store valid |
| AttendanceService.ExpireIdempotent | AttendanceSystem/Services/AttendanceService.cs:118-126 | expiring a session twice is the same as expiring it once |
| AttendanceService.NoCheckInAfterExpiry | AttendanceSystem/Services/AttendanceService.cs:64-65 | after expiry nobody can check in to that session |
| AttendanceService.EnrolledStudents | AttendanceSystem/Services/AttendanceService.cs:139 | lists exactly the students enrolled in the class |
| AttendanceService.RecordedStudents | AttendanceSystem/Services/AttendanceService.cs:142-145 | lists exactly the students who have a record for the session |
| AttendanceService.AbsentRecords | AttendanceSystem/Services/AttendanceService.cs:151-162 | one Absent record without check-in time per student, in order, with consecutive fresh ids |
| AttendanceService.AbsenceBackfill | AttendanceSystem/Services/AttendanceService.cs:139-162 | the new records name exactly the enrolled students without a record, each once, all Absent with fresh ids |
| AttendanceService.MarkAbsentStudents | AttendanceSystem/Services/AttendanceService.cs:128-165 | an unknown session is a no-op; otherwise existing records are kept as they are and only Absent records for that session are appended |
| AttendanceService.MarkAbsentAddsExactlyTheAbsentees | AttendanceSystem/Services/AttendanceService.cs:138-148 | the appended records name exactly the enrolled students without a record, each once |
| AttendanceService.BackfillKeepsValid | AttendanceSystem/Services/AttendanceService.cs:139-164 | appending the backfill keeps the store valid, including one record per session and student |
| AttendanceService.MarkAbsentKeepsValid | AttendanceSystem/Services/AttendanceService.cs:128-165 | marking absentees always succeeds on a valid store and keeps it valid |
| AttendanceService.MarkAbsentIsBackfill | AttendanceSystem/Services/AttendanceService.cs:128-165 | marking absentees appends the session's backfill to the records |
| AttendanceService.BackfillCompletes | AttendanceSystem/Services/AttendanceService.cs:148-162 | after the backfill every enrolled student has a record for the session |
| AttendanceService.BackfillHead | AttendanceSystem/Services/AttendanceService.cs:148 | the first backfilled student is enrolled and had no record |
| AttendanceService.BackfillEmptyWhenComplete | AttendanceSystem/Services/AttendanceService.cs:148 | when every enrolled student has a record, the backfill adds nothing |
| AttendanceService.AtMostOneRecord | AttendanceSystem/Services/AttendanceService.cs:75-79 | under the invariant, two records for the same session and student are the same record |
| AttendanceService.MarkAbsentCompletes | AttendanceSystem/Services/AttendanceService.cs:128-165 | afterwards every enrolled student has exactly one record for the session |
| AttendanceService.MarkAbsentIdempotent | AttendanceSystem/Services/AttendanceService.cs:128-165 | marking absentees a second time, at any time, changes nothing |
| AttendanceService.ClassAttendance | AttendanceSystem/Services/AttendanceService.cs:100-108 | lists exactly the records whose session belongs to the class |
| AttendanceService.ClassAttendanceDisjoint | AttendanceSystem/Services/AttendanceService.cs:100-108 | with unique session ids no record is listed for two different classes |
| TeacherController.Index | AttendanceSystem/Controllers/TeacherController.cs:25-34 | lists exactly the classes the caller teaches |
| TeacherController.ClassDetails | AttendanceSystem/Controllers/TeacherController.cs:36-52 | not found exactly for an unknown class, forbidden for another teacher's class, otherwise the caller's class |
| TeacherController.IndexAgreesWithClassDetails | AttendanceSystem/Controllers/TeacherController.cs:25-52 | a class is listed exactly when its details are shown to the caller, and forbidden exactly when it is not listed |
| TeacherController.StartSession | AttendanceSystem/Controllers/TeacherController.cs:55-67 | a failure adds no session and returns to the class; a success appends a fifteen-minute session and shows its QR page |
| TeacherController.AnyTeacherStartsSession | AttendanceSystem/Controllers/TeacherController.cs:55-67 | a teacher who does not teach the class can still open a session for it |
| TeacherController.StartOwnSession | AttendanceSystem/Controllers/TeacherController.cs:36-52 | the ownership guard of the other actions applied to starting a session |
| TeacherController.OnlyOwnerStartsSession | AttendanceSystem/Controllers/TeacherController.cs:44-49 | with the guard, a session is opened only on a class the caller teaches, and any other caller is forbidden |
| TeacherController.ShowQRCode | AttendanceSystem/Controllers/TeacherController.cs:69-91 | not found exactly for an unknown session; shown only to the class's teacher, with a payload that reads back as the session's id and code |
| TeacherController.ShowQRCodeGuards | AttendanceSystem/Controllers/TeacherController.cs:76-81 | on a valid store the page never crashes, and another teacher's session is forbidden |
| TeacherController.StartThenShow | AttendanceSystem/Controllers/TeacherController.cs:55-91 | the teacher who starts a session is shown its payload, and the code read from the payload finds that session |
| StudentController.CourseOfClass | AttendanceSystem/Controllers/StudentController.cs:55-58 | a course found for a class is the course of an existing class |
| StudentController.Submit | AttendanceSystem/Controllers/StudentController.cs:34-63 | the controller's own refusals leave the store unchanged, a missing id claim is refused, and a success names an existing course |
| StudentController.SubmitOutcome | AttendanceSystem/Controllers/StudentController.cs:34-63 | check-in through the page succeeds exactly when an active, valid session carries the code and the known student is enrolled without a record; the store stays valid |
| StudentController.SubmitSucceedsIff | AttendanceSystem/Controllers/StudentController.cs:36-53 | the success condition of check-in through the page |
| StudentController.SubmitChecksAgree | AttendanceSystem/Controllers/StudentController.cs:38-53 | the service never overturns the page's code and validity checks, and the course is always found |
| StudentController.CourseIsFound | AttendanceSystem/Controllers/StudentController.cs:55-58 | on a valid store every session's course is found |
| StudentController.MyRecords | AttendanceSystem/Controllers/StudentController.cs:82-88 | lists exactly the caller's attendance records |
| StudentController.MyEnrollments | AttendanceSystem/Controllers/StudentController.cs:75-79 | lists exactly the caller's enrollments |
| StudentController.MyAttendance | AttendanceSystem/Controllers/StudentController.cs:70-112 | the session count is the number of the caller's records, and the four status counts add up to it |
| StudentController.StatusCountsAddUp | AttendanceSystem/Controllers/StudentController.cs:93-96 | every record has exactly one of the four statuses |
| StudentController.MyAttendanceCounts | AttendanceSystem/Controllers/StudentController.cs:89-92 | the class count is the number of enrollments, no two for the same class, and a missing claim shows zeros |
| StudentService.EnrollStudentInClass | AttendanceSystem/Services/StudentService.cs:106-123 | an existing pair answers false with the store unchanged; otherwise exactly one enrollment of the pair is appended |
| StudentService.EnrollOutcome | AttendanceSystem/Services/StudentService.cs:106-123 | enrolling answers true exactly for a new pair of an existing class and user, fails only on an unknown one, and keeps the store valid |
| StudentService.EnrollTwiceIsOnce | AttendanceSystem/Services/StudentService.cs:109-110 | enrolling twice leaves the same store as enrolling once |
| StudentService.GetStudentById | AttendanceSystem/Services/StudentService.cs:97-104 | fails exactly when no user has the id, and otherwise returns a user with that id |
| StudentService.GetStudentByIdIsTheUser | AttendanceSystem/Services/StudentService.cs:97-104 | with unique ids the user found is that very user |
| StudentService.NormalizeRow | AttendanceSystem/Services/StudentService.cs:50-55 | a row is skipped exactly when its e-mail is missing or blank |
| StudentService.NormalizedRowIsTrimmed | AttendanceSystem/Services/StudentService.cs:53-55 | the e-mail and names are trimmed, a missing first or last name becomes "Unknown" or "Student", and a present empty one stays empty |
| StudentService.NormalizeRows | AttendanceSystem/Services/StudentService.cs:48-55 | one normalised row per input row, in order |
| StudentService.KeptRowsFrom | AttendanceSystem/Services/StudentService.cs:48-71 | the kept rows are in row order, readable, and not already registered |
| StudentService.KeptRowsAsWritten | AttendanceSystem/Services/StudentService.cs:58-59 | as written, a row is kept exactly when it is readable and its e-mail is not already registered |
| StudentService.KeptRowsDistinctEmails | AttendanceSystem/Services/StudentService.cs:58-59 | with the repeat check, the kept rows carry different e-mails |
| StudentService.StudentsFor | AttendanceSystem/Services/StudentService.cs:61-71 | one new student per kept row, in order, each with the next fresh id |
| StudentService.SaveStudents | AttendanceSystem/Services/StudentService.cs:74-77 | a refused batch leaves the store unchanged; an accepted one appends all the students |
| StudentService.ImportRead | AttendanceSystem/Services/StudentService.cs:42-95 | the import appends at most one student per row, none already registered, and changes nothing on failure |
| StudentService.ImportStudentsAsWritten | AttendanceSystem/Services/StudentService.cs:42-95 | the import as written: a failure changes nothing; a success appends at most one student per row, none with an address registered before the import or an empty one |
| StudentService.ImportStudents | AttendanceSystem/Services/StudentService.cs:42-95 | the corrected import also imports no e-mail twice |
| StudentService.ImportAsWrittenKeepsRowOrder | AttendanceSystem/Services/StudentService.cs:48-71 | the students imported follow the row order and are exactly the readable, unregistered rows |
| StudentService.NewStudent | AttendanceSystem/Services/StudentService.cs:61-71 | the new student carries the row's e-mail and names and, being added to the context directly, no normalised user name |
| StudentService.ImportReadOutcome | AttendanceSystem/Services/StudentService.cs:61-77 | with fresh, distinct ids the save is always accepted, repeats or not, because users without a normalised name never collide in the user-name index, and the store stays valid |
| StudentService.NewStudentsKeepValid | AttendanceSystem/Services/StudentService.cs:61-77 | users without a normalised name, under fresh and distinct ids, keep the store valid whatever their e-mails |
| StudentService.ImportKeepsValid | AttendanceSystem/Services/StudentService.cs:42-95 | the import, as written and as corrected, always succeeds and keeps the store valid |
| StudentService.ImportKeepsEmailsUnique | AttendanceSystem/Services/StudentService.cs:42-95 | the corrected import never gives two users the same e-mail |
| StudentService.ImportAsWrittenDuplicatesEmail | AttendanceSystem/Services/StudentService.cs:58-77 | as written, a file listing one new address twice creates two students with that address, and the store no longer has one address per user |
| StudentService.ImportSkipsRepeatedEmail | AttendanceSystem/Services/StudentService.cs:58-77 | the corrected import takes the first of the two rows and skips the repeat |
| Excel.LastColumn | AttendanceSystem/Patterns/Singleton/ExcelService.cs:57-61 | the column whose value a header ends up with is a column carrying that header |
| Excel.LastColumnIsRightmost | AttendanceSystem/Patterns/Singleton/ExcelService.cs:57-61 | with duplicate headers, the rightmost column wins |
| Excel.ReadsOneMoreColumn | AttendanceSystem/Patterns/Singleton/ExcelService.cs:57-61 | storing one more column's cell under its header extends the row read so far |
| Excel.ReadHeaders | AttendanceSystem/Patterns/Singleton/ExcelService.cs:47-52 | header c is the header cell's text, or "Column" and c when that cell is empty |
| Excel.ReadRow | AttendanceSystem/Patterns/Singleton/ExcelService.cs:55-63 | a row maps every header to the text of its rightmost column's cell, and an empty cell to "" |
| Excel.ReadExcel | AttendanceSystem/Patterns/Singleton/ExcelService.cs:35-67 | an empty sheet reads as nothing; otherwise one dictionary per data row in order, and the header row never appears |
| Excel.ReadRowKeys | AttendanceSystem/Patterns/Singleton/ExcelService.cs:55-63 | a row's keys are exactly the headers |
| Excel.Export | AttendanceSystem/Patterns/Singleton/ExcelService.cs:69-99 | a header row of property names, then one row per record, cell by cell |
| Excel.DistinctHeadersReadBack | AttendanceSystem/Patterns/Singleton/ExcelService.cs:35-67 | with distinct headers, a row reads back as exactly its cells under their headers |
| Excel.ExportReadsBack | AttendanceSystem/Patterns/Singleton/ExcelService.cs:35-99 | reading an exported sheet gives back every record under its property names |
| QRPayload.AttendanceQRData | AttendanceSystem/Patterns/Singleton/QRCodeService.cs:61-65 | the payload is 44 characters longer than the decimal id and the code together |
| QRPayload.FirstComma | AttendanceSystem/Patterns/Singleton/QRCodeService.cs:64 | finds the first comma, or the end when there is none |
| QRPayload.ParseQRDataRoundTrip | AttendanceSystem/Patterns/Singleton/QRCodeService.cs:61-65 | every payload reads back as the session id and code it was made from |
| QRPayload.QRDataInjective | AttendanceSystem/Patterns/Singleton/QRCodeService.cs:61-65 | different sessions or codes never share a payload |
| QRPayload.QRDataIsJsonIff | AttendanceSystem/Patterns/Singleton/QRCodeService.cs:64 | the payload is the intended JSON object exactly when the code has nothing to escape under section 7 of RFC 8259 |
| QRPayload.GuidPayloadIsJson | AttendanceSystem/Patterns/Singleton/QRCodeService.cs:61-65 | for a GUID code the payload is that JSON object, 80 characters longer than the decimal id |
| Json.EscapeChar | AttendanceSystem/Patterns/Singleton/QRCodeService.cs:64 | a character that must be escaped becomes an escape sequence, and any other stays as it is |
| Json.EscapeIsIdentityIff | AttendanceSystem/Patterns/Singleton/QRCodeService.cs:64 | escaping changes a string exactly when one of its characters must be escaped |
| Json.EscapeEachOfSafe | AttendanceSystem/Patterns/Singleton/QRCodeService.cs:64 | escaping each character of a safe string leaves it unchanged |
| AdminController.ReplaceKeepsKeys | AttendanceSystem/Controllers/AdminController.cs:87-88 | an update in place keeps every row's key and the keys' uniqueness |
| AdminController.ReplaceKeepsIndexIff | AttendanceSystem/Data/ApplicationDbContext.cs:84-94 | after an update a unique index still holds exactly when no other row shares the new row's index value |
| AdminController.CreateSemester | AttendanceSystem/Controllers/AdminController.cs:47-61 | an invalid form changes nothing; otherwise the form is appended with a fresh id and the clock's creation time |
| AdminController.CreateSemesterOutcome | AttendanceSystem/Controllers/AdminController.cs:47-61 | creation succeeds exactly for a valid form and keeps the store valid |
| AdminController.EditSemester | AttendanceSystem/Controllers/AdminController.cs:76-104 | a route id other than the form's is not found and changes nothing; a success with id 0 inserts the form under a new, unused id, and any other success replaces the semester with the form |
| AdminController.EditSemesterOutcome | AttendanceSystem/Controllers/AdminController.cs:76-104 | editing succeeds exactly for matching ids, a valid form and an id that is either 0 or an existing semester's; afterwards an existing id finds the form, and the store stays valid |
| AdminController.AppendSemesterKeepsValid | AttendanceSystem/Controllers/AdminController.cs:52-53 | a semester added under an unused key keeps the store valid |
| AdminController.ReplaceSemesterKeepsValid | AttendanceSystem/Controllers/AdminController.cs:87-88 | replacing a semester keeps the store valid |
| AdminController.ReplacedSemesterFound | AttendanceSystem/Controllers/AdminController.cs:87-88 | after the replacement the id finds the new semester |
| AdminController.DeleteSemester | AttendanceSystem/Controllers/AdminController.cs:108-118 | an unknown id is a no-op; otherwise the row is removed or the refusal surfaces unhandled |
| AdminController.DeleteSemesterOutcome | AttendanceSystem/Controllers/AdminController.cs:108-118 | deleting fails exactly when a course belongs to the semester; on success it is gone; the store stays valid |
| AdminController.RunSetters | AttendanceSystem/Controllers/AdminController.cs:151-160 | the setters succeed exactly for a non-blank code and name and positive credits, report the first failure, and otherwise hold the requested course |
| AdminController.RejectedNameKeepsCode | AttendanceSystem/Patterns/Builder/CourseBuilder.cs:34-50 | a refused name leaves the accepted code in the builder for the next request |
| AdminController.CreateCourse | AttendanceSystem/Controllers/AdminController.cs:139-171 | an unknown semester changes nothing; a success appends the requested course with its code upper-cased and resets the builder |
| AdminController.CreateCourseOutcome | AttendanceSystem/Controllers/AdminController.cs:139-171 | creation succeeds exactly when the semester exists, the setters accept and the (code, semester) pair is new; the store stays valid |
| AdminController.NewCourseKeepsValid | AttendanceSystem/Data/ApplicationDbContext.cs:84-86 | a course with a fresh id and a new (code, semester) pair keeps the store valid |
| AdminController.EditCourse | AttendanceSystem/Controllers/AdminController.cs:191-226 | an unknown course is not found, an unknown semester is refused, both changing nothing; a success replaces the course's fields as given |
| AdminController.EditCourseOutcome | AttendanceSystem/Controllers/AdminController.cs:191-226 | editing succeeds exactly when course and semester exist, the form is complete and no other course has the pair; the store stays valid |
| AdminController.ReplaceCourseValidIff | AttendanceSystem/Data/ApplicationDbContext.cs:84-86 | an edited course keeps the schema exactly when no other course has its (code, semester) pair |
| AdminController.ReplaceCourseKeepsReferences | AttendanceSystem/Controllers/AdminController.cs:212-216 | an edited course keeps keys unique and references resolved |
| AdminController.EditCourseKeepsCodeAsGiven | AttendanceSystem/Controllers/AdminController.cs:209 | an edit stores the code as typed, without upper-casing |
| AdminController.DeleteCourse | AttendanceSystem/Controllers/AdminController.cs:230-240 | an unknown id is a no-op; otherwise the row is removed or the refusal surfaces unhandled |
| AdminController.DeleteCourseOutcome | AttendanceSystem/Controllers/AdminController.cs:230-240 | deleting fails exactly when a class belongs to the course; on success it is gone; the store stays valid |
| AdminController.CreateClass | AttendanceSystem/Controllers/AdminController.cs:269-317 | an unknown course or teacher changes nothing; a null name is refused by the save and changes nothing; otherwise the class is appended as requested with a fresh id |
| AdminController.CreateClassOutcome | AttendanceSystem/Controllers/AdminController.cs:269-317 | creation succeeds exactly when course and teacher exist and the name is present, and the store stays valid |
| AdminController.AppendClassKeepsValid | AttendanceSystem/Controllers/AdminController.cs:300-301 | a class added under an unused key, with an existing course and teacher, keeps the store valid |
| AdminController.EditClass | AttendanceSystem/Controllers/AdminController.cs:346-399 | an unknown class is not found, an unknown course or teacher is refused, and a null name is refused by the save; a success replaces the class keeping its creation time |
| AdminController.EditClassOutcome | AttendanceSystem/Controllers/AdminController.cs:346-399 | editing succeeds exactly when class, course and teacher exist and the name is present, keeps enrollments and sessions, and keeps the store valid |
| AdminController.EditClassAccepted | AttendanceSystem/Controllers/AdminController.cs:373-383 | a complete edit of an existing class with an existing course and teacher is saved and keeps the store valid |
| AdminController.ReplaceClassKeepsValid | AttendanceSystem/Controllers/AdminController.cs:374-385 | replacing a class with an existing course and teacher keeps the store valid |
| AdminController.DeleteClass | AttendanceSystem/Controllers/AdminController.cs:403-413 | an unknown id is a no-op; otherwise the class is removed with its cascade |
| AdminController.DeleteClassOutcome | AttendanceSystem/Controllers/AdminController.cs:403-413 | deleting a class always succeeds, removes it and keeps the store valid |
| AdminController.AppendedKeyIsFresh | AttendanceSystem/Data/ApplicationDbContext.cs:84-94 | a row appended under a unique key has a key no earlier row has |
| AdminController.HoldsUserNameAny | AttendanceSystem/Controllers/AdminController.cs:464 | the account manager's duplicate check finds a holder exactly when some user has that normalised name |
| AdminController.CreateAccount | AttendanceSystem/Controllers/AdminController.cs:443-484 | a null e-mail, a taken e-mail, a refused password, a taken normalised name or a null first or last name changes nothing, each with its own error; a success appends exactly the requested account with its upper-cased user name |
| AdminController.CreateAccountOutcome | AttendanceSystem/Controllers/AdminController.cs:537-578 | an account is created exactly when every field is present, the e-mail is free, the password is accepted, the normalised name is free and the id is new, and the store stays valid |
| AdminController.CreateAccountKeepsEmailsUnique | AttendanceSystem/Controllers/AdminController.cs:446-450 | the e-mail check keeps every user's address distinct |
| AdminController.TaughtByAny | AttendanceSystem/Controllers/AdminController.cs:494-497 | the "teaches any class" query holds exactly when some class names the user as teacher |
| AdminController.DeleteTeacher | AttendanceSystem/Controllers/AdminController.cs:488-507 | an unknown id is a no-op; a teacher with a class is kept; otherwise the user is removed with the cascade |
| AdminController.DeleteTeacherOutcome | AttendanceSystem/Controllers/AdminController.cs:488-507 | deleting a teacher fails, never unhandled, exactly when they teach a class; on success they are gone; the store stays valid |
| AdminController.DeleteStudent | AttendanceSystem/Controllers/AdminController.cs:582-592 | an unknown id is a no-op; otherwise the user is removed with the cascade, or the refusal surfaces unhandled |
| AdminController.DeleteStudentOutcome | AttendanceSystem/Controllers/AdminController.cs:582-592 | deleting a student fails exactly when the user teaches a class; on success they are gone; the store stays valid |
| AdminController.DeletionsAgree | AttendanceSystem/Controllers/AdminController.cs:488-592 | both deletions leave the same store, and give the same answer for a user teaching no class |
| AdminController.CreateEnrollment | AttendanceSystem/Controllers/AdminController.cs:694-722 | an existing pair is refused exactly as already enrolled, with the store unchanged; a success appends exactly that enrollment |
| AdminController.CreateEnrollmentIsEnroll | AttendanceSystem/Services/StudentService.cs:106-123 | the admin action and the service's enrollment leave the same store and agree on success and on the duplicate |
| AdminController.CreateEnrollmentOutcome | AttendanceSystem/Controllers/AdminController.cs:694-722 | enrolling succeeds exactly for a new pair of an existing class and user, and the store stays valid |
| AdminController.DeleteEnrollment | AttendanceSystem/Controllers/AdminController.cs:726-736 | an unknown id is a no-op; otherwise the row is removed |
| AdminController.DeleteEnrollmentOutcome | AttendanceSystem/Controllers/AdminController.cs:726-736 | deleting an enrollment always succeeds, removes it and keeps the store valid |
| AdminController.ActiveSemester | AttendanceSystem/Controllers/AdminController.cs:757-759 | by definition, the first semester in table order that is active and whose dates include the clock; `ActiveSemesterIsFirstCurrent` states what it means |
| AdminController.ActiveSemesterIsFirstCurrent | AttendanceSystem/Controllers/AdminController.cs:757-759 | the reports' active semester is the first current one in table order, and none exactly when no semester is current |

## Left out

- Identity and roles. Account creation is one `AdminController.CreateAccount` for teachers and students. Adding the role, `UserManager`'s password policy (the `accepted` argument) and sign-in are not modelled.
- `AdminController.CreateAccount`: the account manager also fills the normalised e-mail and the security stamp; only the normalised user name, which the unique index covers, is modelled.
- Views, `TempData` messages, `ViewBag`, select lists and redirects beyond the outcome. `OrderByDescending` orderings are not modelled either; lists are in table order.
- The attendance rate in `MyAttendance` is a rounded floating-point percentage and is not modelled. Only the integer counts are.
- Concurrency. Each request runs alone. The read-then-insert duplicate check in check-in is not exactly-once under concurrent requests, and the model claims no such guarantee.
- `DateTime` range checks and overflow. Times are unbounded tick counts, and the time of day is the count modulo one day.
- `ToUpper` is modelled for ASCII letters only, not with culture rules.
- The QR image (QRCoder, PNG, base64). A student's scanner is assumed to hand the controller the code itself, not the payload.
- `Excel.Export`: styling, `AutoFit` and reflection over property names are not modelled; the export is given names and cell texts. The reader assumes the used range starts at cell A1, and EPPlus's cell-to-text conversion is abstracted as text cells.
- The builders' `createdAt` uses the clock at reset time, which becomes a parameter.
- `GetAllStudents`, `ViewAttendance`, `MyClasses` and `DownloadTemplate` are not modelled, being plain queries and views. The report counts other than the active semester and the import action's file upload wrapper are left out too.
- `AdminController.CreateClass` and `AdminController.EditClass`: a null teacher id has no value of its own. The source finds no user for it, and the model stands for it by any id that names no user; both answer with an unknown teacher.
- `AdminController.EditSemester`: the concurrency exception that is rethrown because the semester still exists (a write by a concurrent request) is not modelled, since requests run alone. The not-found answer for a semester that is gone is modelled.
- `AdminController.CreateSemester`: the new semester gets a fresh key whatever id the form carries. A form posted with a non-zero id, which the database would refuse to insert, is not modelled.
- One clock reading per request. The source reads `DateTime.UtcNow` separately at AttendanceSystem/Models/AttendanceSession.cs:19, AttendanceSystem/Services/AttendanceService.cs:44, 82, 91 and 159, AttendanceSystem/Patterns/Builder/AttendanceSessionBuilder.cs:50, and twice within one query at AttendanceSystem/Controllers/AdminController.cs:758. The model uses one `now` for all the readings of a request, so it does not cover the few ticks that pass between them.
- Database string comparisons are ordinal. The model compares strings exactly, as a binary collation does. SQL Server's default collation ignores case, and under it these comparisons would differ from the model's:
  - the unique (code, semester) course index (AttendanceSystem/Data/ApplicationDbContext.cs:84-86);
  - the e-mail lookups (AttendanceSystem/Services/StudentService.cs:58, AttendanceSystem/Controllers/AdminController.cs:447 and 541);
  - the QR code lookup (AttendanceSystem/Services/AttendanceService.cs:115).
  In particular, a code the lookup finds only up to case would still be refused by the service's ordinal check (AttendanceSystem/Services/AttendanceService.cs:61). `StudentController.SubmitChecksAgree` assumes ordinal codes.
- User timestamps. `ApplicationUser.CreatedAt` (set at AttendanceSystem/Controllers/AdminController.cs:460 and 554 and AttendanceSystem/Services/StudentService.cs:68) and `UpdatedAt` are not modelled; nothing in the core reads them.
- `Base.NextKey`: the key for a new row is one more than the largest present key. A real identity column never reuses a value, even after the newest row is deleted; the model may reuse it. Every promise about new rows needs only that the key is unused.
- `Class.GetScheduleInfo`, `Course.GetFullCourseName` and `ApplicationUser.GetFullName` are display helpers and are not modelled.

## Findings

| source | as written | input that shows it | evidently intended | confidence | as-written member | corrected member |
|---|---|---|---|---|---|---|
| AttendanceSystem/Services/StudentService.cs:58-77 | only addresses already in the database are skipped; a file that repeats a new address produces two students with the same e-mail, and the save accepts both because imported users carry no normalised user name for the unique index to compare | a sheet of two rows with the same unregistered e-mail | skip the repeat, as addresses already registered are skipped, and import the first row only | not executed | StudentService.ImportAsWrittenDuplicatesEmail | StudentService.ImportSkipsRepeatedEmail |
| AttendanceSystem/Controllers/TeacherController.cs:55-67 | starting a session checks only that the class exists, so any teacher can open one for another teacher's class, although details and QR pages of that class are forbidden to them | a teacher id that is not the class's teacher id | forbid callers who do not teach the class, as `ClassDetails` and `ShowQRCode` do | not executed | TeacherController.AnyTeacherStartsSession | TeacherController.OnlyOwnerStartsSession |
