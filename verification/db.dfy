/** The database behind `ApplicationDbContext`: seven tables held as sequences of
    rows in table order, the constraints the schema declares, and the
    cascade / restrict behaviour of deletions.

    Saving changes is modelled by `SaveChanges`: the database accepts a new state
    exactly when every primary key, unique index and foreign key holds in it, and
    otherwise raises an update exception and keeps the old state. A deletion is
    computed with its cascades applied; a `Restrict` relationship then shows up as
    a foreign key left dangling, which `SaveChanges` refuses.

    The schema has no unique index on (session, student) for attendance records;
    `OneRecordPerSessionStudent` is the application's own invariant, which only the
    operations' read-then-insert guards maintain. */
module Db {
  import opened Base
  import opened Query
  import opened Entities
  import opened Semesters
  import opened AttendanceSessions
  import opened Attendances

  datatype Store = Store(
    users: seq<User>,
    semesters: seq<Semester>,
    courses: seq<Course>,
    classes: seq<Class>,
    enrollments: seq<Enrollment>,
    sessions: seq<AttendanceSession>,
    attendances: seq<Attendance>)

  /** `DbUpdateException`: the database refused the changes. */
  datatype DbError = ConstraintViolation

  /** The new store and the outcome of one request. */
  datatype Transition<+T, +E> = Transition(store: Store, result: Result<T, E>)

  // Primary keys.
  function UserKey(u: User): string { u.id }
  function SemesterKey(x: Semester): int { x.id }
  function CourseKey(c: Course): int { c.id }
  function ClassKey(c: Class): int { c.id }
  function EnrollmentKey(e: Enrollment): int { e.id }
  function SessionKey(x: AttendanceSession): int { x.id }
  function AttendanceKey(a: Attendance): int { a.id }

  // Unique indexes.
  function CourseCodeIndex(c: Course): (string, int) { (c.code, c.semesterId) }
  function EnrollmentIndex(e: Enrollment): (int, string) { (e.classId, e.studentId) }
  function QRCodeIndex(x: AttendanceSession): string { x.qrCode }

  /** Identity's unique index on the normalised user name. The column is null
      for a user that did not go through the account manager, and such users
      never collide in the index. */
  function UserNameIndex(u: User): Option<string> { u.normalizedUserName }

  /** The pair the application keeps unique among attendance records. */
  function SessionStudent(a: Attendance): (int, string) { (a.sessionId, a.studentId) }

  predicate PrimaryKeysUnique(s: Store)
  {
    && DistinctBy(s.users, UserKey)
    && DistinctBy(s.semesters, SemesterKey)
    && DistinctBy(s.courses, CourseKey)
    && DistinctBy(s.classes, ClassKey)
    && DistinctBy(s.enrollments, EnrollmentKey)
    && DistinctBy(s.sessions, SessionKey)
    && DistinctBy(s.attendances, AttendanceKey)
  }

  /** The three unique indexes the schema declares, and Identity's index on user names. */
  predicate UniqueIndexesHold(s: Store)
  {
    && DistinctByNonNull(s.users, UserNameIndex)
    && DistinctBy(s.courses, CourseCodeIndex)
    && DistinctBy(s.enrollments, EnrollmentIndex)
    && DistinctBy(s.sessions, QRCodeIndex)
  }

  predicate HasUser(users: seq<User>, id: string) { exists u :: u in users && u.id == id }
  predicate HasSemester(xs: seq<Semester>, id: int) { exists x :: x in xs && x.id == id }
  predicate HasCourse(cs: seq<Course>, id: int) { exists c :: c in cs && c.id == id }
  predicate HasClass(cs: seq<Class>, id: int) { exists c :: c in cs && c.id == id }
  predicate HasSession(xs: seq<AttendanceSession>, id: int) { exists x :: x in xs && x.id == id }

  /** Every foreign key refers to an existing row. */
  predicate ReferencesResolve(s: Store)
  {
    && (forall c :: c in s.courses ==> HasSemester(s.semesters, c.semesterId))
    && (forall c :: c in s.classes ==> HasCourse(s.courses, c.courseId) && HasUser(s.users, c.teacherId))
    && (forall e :: e in s.enrollments ==> HasClass(s.classes, e.classId) && HasUser(s.users, e.studentId))
    && (forall x :: x in s.sessions ==> HasClass(s.classes, x.classId))
    && (forall a :: a in s.attendances ==> HasSession(s.sessions, a.sessionId) && HasUser(s.users, a.studentId))
  }

  /** What the database itself enforces. */
  predicate SchemaHolds(s: Store)
  {
    PrimaryKeysUnique(s) && UniqueIndexesHold(s) && ReferencesResolve(s)
  }

  /** At most one attendance record per (session, student). */
  predicate OneRecordPerSessionStudent(s: Store)
  {
    DistinctBy(s.attendances, SessionStudent)
  }

  /** The invariant every reachable store satisfies. */
  predicate Valid(s: Store)
  {
    SchemaHolds(s) && OneRecordPerSessionStudent(s)
  }

  /** `SaveChangesAsync()`: the database takes `next` when its constraints hold in it,
      and otherwise throws, leaving the stored state as it was. */
  function SaveChanges(next: Store): (r: Result<Store, DbError>)
    ensures r.Ok? ==> r.value == next && SchemaHolds(r.value)
    ensures r.Err? ==> !SchemaHolds(next)
  {
    if SchemaHolds(next) then Ok(next) else Err(ConstraintViolation)
  }

  // Lookups by primary key (`FindAsync`, `FirstOrDefaultAsync(x => x.Id == id)`).

  function FindUser(s: Store, id: string): (r: Option<User>)
    ensures r.Some? ==> r.value in s.users && r.value.id == id
    ensures r.None? <==> !HasUser(s.users, id)
  {
    FirstWhere(s.users, (u: User) => u.id == id)
  }

  function FindSemester(s: Store, id: int): (r: Option<Semester>)
    ensures r.Some? ==> r.value in s.semesters && r.value.id == id
    ensures r.None? <==> !HasSemester(s.semesters, id)
  {
    FirstWhere(s.semesters, (x: Semester) => x.id == id)
  }

  function FindCourse(s: Store, id: int): (r: Option<Course>)
    ensures r.Some? ==> r.value in s.courses && r.value.id == id
    ensures r.None? <==> !HasCourse(s.courses, id)
  {
    FirstWhere(s.courses, (c: Course) => c.id == id)
  }

  function FindClass(s: Store, id: int): (r: Option<Class>)
    ensures r.Some? ==> r.value in s.classes && r.value.id == id
    ensures r.None? <==> !HasClass(s.classes, id)
  {
    FirstWhere(s.classes, (c: Class) => c.id == id)
  }

  function FindSession(s: Store, id: int): (r: Option<AttendanceSession>)
    ensures r.Some? ==> r.value in s.sessions && r.value.id == id
    ensures r.None? <==> !HasSession(s.sessions, id)
  {
    FirstWhere(s.sessions, (x: AttendanceSession) => x.id == id)
  }

  function FindEnrollment(s: Store, id: int): (r: Option<Enrollment>)
    ensures r.Some? ==> r.value in s.enrollments && r.value.id == id
    ensures r.None? <==> !(exists e :: e in s.enrollments && e.id == id)
  {
    FirstWhere(s.enrollments, (e: Enrollment) => e.id == id)
  }

  /** With unique session keys, the session found by id is the only one with that id. */
  lemma FindSessionIsTheSession(s: Store, x: AttendanceSession)
    requires DistinctBy(s.sessions, SessionKey) && x in s.sessions
    ensures FindSession(s, x.id) == Some(x)
  {
    var r := FindSession(s, x.id);
    DistinctBySameKey(s.sessions, SessionKey, x, r.value);
  }

  /** With unique class keys, the class found by id is the only one with that id. */
  lemma FindClassIsTheClass(s: Store, c: Class)
    requires DistinctBy(s.classes, ClassKey) && c in s.classes
    ensures FindClass(s, c.id) == Some(c)
  {
    var r := FindClass(s, c.id);
    DistinctBySameKey(s.classes, ClassKey, c, r.value);
  }

  // Deletions.

  /** Ids of the sessions of class `classId`. */
  function SessionsOfClass(s: Store, classId: int): set<int>
  {
    set x | x in s.sessions && x.classId == classId :: x.id
  }

  /** Removing class `id` with its cascades: its enrollments, its sessions, and the
      attendance records of those sessions. */
  function DeleteClassCascade(s: Store, id: int): (r: Store)
    ensures r.users == s.users && r.semesters == s.semesters && r.courses == s.courses
    ensures forall c :: c in r.classes <==> c in s.classes && c.id != id
    ensures forall e :: e in r.enrollments <==> e in s.enrollments && e.classId != id
    ensures forall x :: x in r.sessions <==> x in s.sessions && x.classId != id
    ensures forall a :: a in r.attendances <==> a in s.attendances && a.sessionId !in SessionsOfClass(s, id)
    ensures PrimaryKeysUnique(s) && UniqueIndexesHold(s) ==> PrimaryKeysUnique(r) && UniqueIndexesHold(r)
    ensures OneRecordPerSessionStudent(s) ==> OneRecordPerSessionStudent(r)
  {
    var gone := SessionsOfClass(s, id);
    var keepClass := (c: Class) => c.id != id;
    var keepEnrollment := (e: Enrollment) => e.classId != id;
    var keepSession := (x: AttendanceSession) => x.classId != id;
    var keepAttendance := (a: Attendance) => a.sessionId !in gone;
    var r := Store(s.users, s.semesters, s.courses,
                   Where(s.classes, keepClass),
                   Where(s.enrollments, keepEnrollment),
                   Where(s.sessions, keepSession),
                   Where(s.attendances, keepAttendance));
    WhereKeepsDistinctBy(s.classes, keepClass, ClassKey);
    WhereKeepsDistinctBy(s.enrollments, keepEnrollment, EnrollmentKey);
    WhereKeepsDistinctBy(s.enrollments, keepEnrollment, EnrollmentIndex);
    WhereKeepsDistinctBy(s.sessions, keepSession, SessionKey);
    WhereKeepsDistinctBy(s.sessions, keepSession, QRCodeIndex);
    WhereKeepsDistinctBy(s.attendances, keepAttendance, AttendanceKey);
    WhereKeepsDistinctBy(s.attendances, keepAttendance, SessionStudent);
    r
  }

  /** Removing user `id` with its cascades: the user's enrollments and attendance records.
      Classes the user teaches are not removed: that relationship is `Restrict`. */
  function DeleteUserCascade(s: Store, id: string): (r: Store)
    ensures r.semesters == s.semesters && r.courses == s.courses && r.classes == s.classes
    ensures r.sessions == s.sessions
    ensures forall u :: u in r.users <==> u in s.users && u.id != id
    ensures forall e :: e in r.enrollments <==> e in s.enrollments && e.studentId != id
    ensures forall a :: a in r.attendances <==> a in s.attendances && a.studentId != id
    ensures PrimaryKeysUnique(s) && UniqueIndexesHold(s) ==> PrimaryKeysUnique(r) && UniqueIndexesHold(r)
    ensures OneRecordPerSessionStudent(s) ==> OneRecordPerSessionStudent(r)
  {
    var keepUser := (u: User) => u.id != id;
    var keepEnrollment := (e: Enrollment) => e.studentId != id;
    var keepAttendance := (a: Attendance) => a.studentId != id;
    var r := s.(users := Where(s.users, keepUser),
                enrollments := Where(s.enrollments, keepEnrollment),
                attendances := Where(s.attendances, keepAttendance));
    assert DistinctBy(s.users, UserKey) ==> DistinctBy(r.users, UserKey) by {
      if DistinctBy(s.users, UserKey) {
        WhereKeepsDistinctBy(s.users, keepUser, UserKey);
      }
    }
    assert DistinctByNonNull(s.users, UserNameIndex) ==> DistinctByNonNull(r.users, UserNameIndex) by {
      if DistinctByNonNull(s.users, UserNameIndex) {
        WhereKeepsDistinctByNonNull(s.users, keepUser, UserNameIndex);
      }
    }
    WhereKeepsDistinctBy(s.enrollments, keepEnrollment, EnrollmentKey);
    WhereKeepsDistinctBy(s.enrollments, keepEnrollment, EnrollmentIndex);
    WhereKeepsDistinctBy(s.attendances, keepAttendance, AttendanceKey);
    WhereKeepsDistinctBy(s.attendances, keepAttendance, SessionStudent);
    r
  }

  /** Deleting class `id`: a no-op when there is no such class. */
  function DeleteClass(s: Store, id: int): (r: Result<Store, DbError>)
    ensures !HasClass(s.classes, id) ==> r == Ok(s)
    ensures r.Ok? && HasClass(s.classes, id) ==> r.value == DeleteClassCascade(s, id)
  {
    if !HasClass(s.classes, id) then Ok(s) else SaveChanges(DeleteClassCascade(s, id))
  }

  /** Deleting user `id`: a no-op when there is no such user. */
  function DeleteUser(s: Store, id: string): (r: Result<Store, DbError>)
    ensures !HasUser(s.users, id) ==> r == Ok(s)
    ensures r.Ok? && HasUser(s.users, id) ==> r.value == DeleteUserCascade(s, id)
  {
    if !HasUser(s.users, id) then Ok(s) else SaveChanges(DeleteUserCascade(s, id))
  }

  /** The store without the rows of semester `id`; nothing cascades from a semester. */
  function RemoveSemesterRow(s: Store, id: int): (r: Store)
    ensures r == s.(semesters := r.semesters)
    ensures forall x :: x in r.semesters <==> x in s.semesters && x.id != id
    ensures PrimaryKeysUnique(s) ==> PrimaryKeysUnique(r)
  {
    var keep := (x: Semester) => x.id != id;
    WhereKeepsDistinctBy(s.semesters, keep, SemesterKey);
    s.(semesters := Where(s.semesters, keep))
  }

  /** The store without the rows of course `id`; nothing cascades from a course. */
  function RemoveCourseRow(s: Store, id: int): (r: Store)
    ensures r == s.(courses := r.courses)
    ensures forall c :: c in r.courses <==> c in s.courses && c.id != id
    ensures PrimaryKeysUnique(s) && UniqueIndexesHold(s) ==> PrimaryKeysUnique(r) && UniqueIndexesHold(r)
  {
    var keep := (c: Course) => c.id != id;
    WhereKeepsDistinctBy(s.courses, keep, CourseKey);
    WhereKeepsDistinctBy(s.courses, keep, CourseCodeIndex);
    s.(courses := Where(s.courses, keep))
  }

  /** The store without the rows of enrollment `id`. */
  function RemoveEnrollmentRow(s: Store, id: int): (r: Store)
    ensures r == s.(enrollments := r.enrollments)
    ensures forall e :: e in r.enrollments <==> e in s.enrollments && e.id != id
    ensures PrimaryKeysUnique(s) && UniqueIndexesHold(s) ==> PrimaryKeysUnique(r) && UniqueIndexesHold(r)
  {
    var keep := (e: Enrollment) => e.id != id;
    WhereKeepsDistinctBy(s.enrollments, keep, EnrollmentKey);
    WhereKeepsDistinctBy(s.enrollments, keep, EnrollmentIndex);
    s.(enrollments := Where(s.enrollments, keep))
  }

  /** Deleting semester `id` (its courses are `Restrict`): a no-op when there is no such semester. */
  function DeleteSemester(s: Store, id: int): (r: Result<Store, DbError>)
    ensures !HasSemester(s.semesters, id) ==> r == Ok(s)
    ensures r.Ok? && HasSemester(s.semesters, id) ==> r.value == RemoveSemesterRow(s, id)
  {
    if !HasSemester(s.semesters, id) then Ok(s) else SaveChanges(RemoveSemesterRow(s, id))
  }

  /** Deleting course `id` (its classes are `Restrict`): a no-op when there is no such course. */
  function DeleteCourse(s: Store, id: int): (r: Result<Store, DbError>)
    ensures !HasCourse(s.courses, id) ==> r == Ok(s)
    ensures r.Ok? && HasCourse(s.courses, id) ==> r.value == RemoveCourseRow(s, id)
  {
    if !HasCourse(s.courses, id) then Ok(s) else SaveChanges(RemoveCourseRow(s, id))
  }

  /** Deleting enrollment `id`: a no-op when there is no such enrollment. */
  function DeleteEnrollment(s: Store, id: int): (r: Result<Store, DbError>)
    ensures FindEnrollment(s, id).None? ==> r == Ok(s)
    ensures r.Ok? && FindEnrollment(s, id).Some? ==> r.value == RemoveEnrollmentRow(s, id)
  {
    if FindEnrollment(s, id).None? then Ok(s) else SaveChanges(RemoveEnrollmentRow(s, id))
  }
}
