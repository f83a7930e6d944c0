/** `StudentController`: checking in by scanning a session's code, and the
    counts on the student's attendance page. The signed-in user's id claim is an
    argument, `None` when the claim is missing; views, redirects and messages
    are not modelled beyond which outcome is shown. */
module StudentController {
  import opened Base
  import opened Strings
  import opened Query
  import opened Entities
  import opened AttendanceSessions
  import opened Attendances
  import opened Db
  import opened AttendanceService

  /** What `SubmitAttendance` reports instead of the success page: the
      controller's own two checks, an exception from the service, or the failed
      lookup of the session's course after the record was saved. */
  datatype SubmitError =
    | InvalidOrExpiredCode
    | UnknownStudent
    | Rejected(error: ServiceError)
    | MissingCourse

  /** The course of class `classId`, as the included navigation path loads it. */
  function CourseOfClass(s: Store, classId: int): (r: Option<Course>)
    ensures r.Some? ==> r.value in s.courses && exists c :: c in s.classes && c.id == classId && c.courseId == r.value.id
  {
    match FindClass(s, classId)
    case None => None
    case Some(c) => FindCourse(s, c.courseId)
  }

  /** `SubmitAttendance(qrCode)`: the active session carrying the code, checked for
      validity, then the student's id, then the service's check-in. On success the
      value is the name of the session's course, shown in the message. */
  function Submit(s: Store, qrCode: string, studentId: Option<string>, now: Ticks): (r: Transition<string, SubmitError>)
    ensures r.result.Err? && r.result.error != MissingCourse ==> r.store == s
    ensures r.result == Err(UnknownStudent) ==> studentId.None? || studentId.value == ""
    ensures r.result.Ok? ==> exists course :: course in s.courses && course.name == r.result.value
  {
    match GetActiveSessionByQRCode(s, qrCode)
    case None => Transition(s, Err(InvalidOrExpiredCode))
    case Some(x) =>
      if !IsQRCodeValid(x, now) then Transition(s, Err(InvalidOrExpiredCode))
      else if studentId.None? || IsEmpty(studentId.value) then Transition(s, Err(UnknownStudent))
      else
        var t := SubmitAttendance(s, x.id, studentId.value, qrCode, now);
        if t.result.Err? then Transition(s, Err(Rejected(t.result.error)))
        else
          match CourseOfClass(s, x.classId)
          case None => Transition(t.store, Err(MissingCourse))
          case Some(course) => Transition(t.store, Ok(course.name))
  }

  /** On a valid store the check-in through the controller succeeds exactly when
      an active session carries the code, the code is still valid, the student's
      id is known, and the student is enrolled in the session's class with no
      record for it yet. The service never repeats the controller's own checks
      with a different verdict, the course is always found, a failure leaves the
      store as it was, and the store stays valid. */
  lemma SubmitOutcome(s: Store, qrCode: string, studentId: Option<string>, now: Ticks)
    requires Valid(s)
    ensures var r := Submit(s, qrCode, studentId, now);
            && (r.result.Ok? <==>
                  && studentId.Some? && studentId.value != ""
                  && exists x :: && x in s.sessions && x.qrCode == qrCode && IsQRCodeValid(x, now)
                                 && Enrolled(s, x.classId, studentId.value) && !HasRecord(s, x.id, studentId.value))
            && r.result != Err(Rejected(InvalidSessionOrCode))
            && r.result != Err(Rejected(QRCodeExpired))
            && r.result != Err(MissingCourse)
            && (r.result.Err? ==> r.store == s)
            && Valid(r.store)
  {
    SubmitSucceedsIff(s, qrCode, studentId, now);
    SubmitChecksAgree(s, qrCode, studentId, now);
  }

  /** The success condition of the check-in through the controller. */
  lemma SubmitSucceedsIff(s: Store, qrCode: string, studentId: Option<string>, now: Ticks)
    requires Valid(s)
    ensures Submit(s, qrCode, studentId, now).result.Ok? <==>
              && studentId.Some? && studentId.value != ""
              && exists x :: && x in s.sessions && x.qrCode == qrCode && IsQRCodeValid(x, now)
                             && Enrolled(s, x.classId, studentId.value) && !HasRecord(s, x.id, studentId.value)
  {
    var r := Submit(s, qrCode, studentId, now);
    match GetActiveSessionByQRCode(s, qrCode)
    case None =>
      assert r.result.Err?;
      forall y | y in s.sessions && y.qrCode == qrCode ensures !IsQRCodeValid(y, now) {
      }
    case Some(x) =>
      forall y | y in s.sessions && y.qrCode == qrCode ensures y == x {
        DistinctBySameKey(s.sessions, QRCodeIndex, x, y);
      }
      if IsQRCodeValid(x, now) && studentId.Some? && studentId.value != "" {
        var sid := studentId.value;
        SubmitWithValidCode(s, x, sid, now);
        CourseIsFound(s, x);
        var t := SubmitAttendance(s, x.id, sid, qrCode, now);
        assert r.result.Ok? <==> t.result.Ok?;
      } else {
        assert r.result.Err?;
      }
  }

  /** On a valid store the service never repeats the controller's own checks with
      a different verdict, the course of the session is always found, a failure
      leaves the store as it was, and the store stays valid. */
  lemma SubmitChecksAgree(s: Store, qrCode: string, studentId: Option<string>, now: Ticks)
    requires Valid(s)
    ensures var r := Submit(s, qrCode, studentId, now);
            && r.result != Err(Rejected(InvalidSessionOrCode))
            && r.result != Err(Rejected(QRCodeExpired))
            && r.result != Err(MissingCourse)
            && (r.result.Err? ==> r.store == s)
            && Valid(r.store)
  {
    match GetActiveSessionByQRCode(s, qrCode)
    case None =>
    case Some(x) =>
      if IsQRCodeValid(x, now) && studentId.Some? && studentId.value != "" {
        SubmitWithValidCode(s, x, studentId.value, now);
        CourseIsFound(s, x);
      }
  }

  /** On a valid store the course of a session's class is always found. */
  lemma CourseIsFound(s: Store, x: AttendanceSession)
    requires Valid(s) && x in s.sessions
    ensures CourseOfClass(s, x.classId).Some?
  {
    assert HasClass(s.classes, x.classId);
    var c := FindClass(s, x.classId).value;
    assert HasCourse(s.courses, c.courseId);
  }

  // ---------------------------------------------------------------------------
  // The attendance page

  /** The figures `MyAttendance` shows. The attendance rate, a rounded
      floating-point percentage of present and late records, is not modelled. */
  datatype Stats = Stats(totalClasses: nat, totalSessions: nat, present: nat, late: nat, absent: nat, excused: nat)

  /** A row belongs to the signed-in user: a missing claim matches no row. */
  predicate IsCaller(studentId: Option<string>, rowStudentId: string)
  {
    studentId == Some(rowStudentId)
  }

  /** The student's attendance records, in table order. */
  function MyRecords(s: Store, studentId: Option<string>): (r: seq<Attendance>)
    ensures forall a :: a in r <==> a in s.attendances && IsCaller(studentId, a.studentId)
  {
    Where(s.attendances, (a: Attendance) => IsCaller(studentId, a.studentId))
  }

  function HasStatus(st: AttendanceStatus): Attendance -> bool
  {
    (a: Attendance) => a.status == st
  }

  /** `MyAttendance()`: the student's records and the counts over them. */
  function MyAttendance(s: Store, studentId: Option<string>): (r: (seq<Attendance>, Stats))
    ensures r.0 == MyRecords(s, studentId)
    ensures r.1.totalSessions == |r.0|
    ensures r.1.present + r.1.late + r.1.absent + r.1.excused == r.1.totalSessions
    ensures r.1.present + r.1.late <= r.1.totalSessions
  {
    var enrollments := MyEnrollments(s, studentId);
    var records := MyRecords(s, studentId);
    StatusCountsAddUp(records);
    (records, Stats(|enrollments|, |records|,
                    CountWhere(records, HasStatus(Present)), CountWhere(records, HasStatus(Late)),
                    CountWhere(records, HasStatus(Absent)), CountWhere(records, HasStatus(Excused))))
  }

  /** Every record has exactly one of the four statuses, so the four counts add
      up to the number of records. */
  lemma {:induction false} StatusCountsAddUp(rows: seq<Attendance>)
    ensures CountWhere(rows, HasStatus(Present)) + CountWhere(rows, HasStatus(Late))
            + CountWhere(rows, HasStatus(Absent)) + CountWhere(rows, HasStatus(Excused)) == |rows|
  {
    if |rows| > 0 {
      StatusCountsAddUp(rows[1..]);
    }
  }

  /** The student's enrollments. */
  function MyEnrollments(s: Store, studentId: Option<string>): (r: seq<Enrollment>)
    ensures forall e :: e in r <==> e in s.enrollments && IsCaller(studentId, e.studentId)
  {
    Where(s.enrollments, (e: Enrollment) => IsCaller(studentId, e.studentId))
  }

  /** The class count counts classes: on a valid store no two of the student's
      enrollments are for the same class (the unique index on (class, student)).
      A missing claim shows all zeros. */
  lemma MyAttendanceCounts(s: Store, studentId: Option<string>)
    ensures var stats := MyAttendance(s, studentId).1;
            && stats.totalClasses == |MyEnrollments(s, studentId)|
            && (studentId.None? ==> stats == Stats(0, 0, 0, 0, 0, 0))
    ensures Valid(s) ==>
              var es := MyEnrollments(s, studentId);
              forall i, j :: 0 <= i < j < |es| ==> es[i].classId != es[j].classId
  {
    var p := (e: Enrollment) => IsCaller(studentId, e.studentId);
    if studentId.None? {
      NoneMatchesNothing(s.enrollments, p);
      NoneMatchesNothing(s.attendances, (a: Attendance) => IsCaller(studentId, a.studentId));
      StatusCountsAddUp(MyRecords(s, studentId));
    }
    if Valid(s) {
      var es := MyEnrollments(s, studentId);
      WhereKeepsDistinctBy(s.enrollments, p, EnrollmentIndex);
      forall i, j | 0 <= i < j < |es| ensures es[i].classId != es[j].classId {
        assert es[i] in es && es[j] in es;
        assert EnrollmentIndex(es[i]) != EnrollmentIndex(es[j]);
      }
    }
  }

  /** A filter no row passes selects nothing. */
  lemma {:induction false} NoneMatchesNothing<T(!new)>(rows: seq<T>, p: T -> bool)
    requires forall x :: !p(x)
    ensures Where(rows, p) == []
  {
    if |rows| > 0 {
      NoneMatchesNothing(rows[1..], p);
    }
  }
}
