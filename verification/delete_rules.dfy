/** What the schema's delete behaviours mean for a valid store: which deletions
    cascade and always succeed, and which are refused because a `Restrict`
    relationship still has dependent rows. */
module DeleteRules {
  import opened Base
  import opened Query
  import opened Entities
  import opened Semesters
  import opened AttendanceSessions
  import opened Attendances
  import opened Db

  /** Deleting a class always succeeds on a valid store and leaves it valid: its
      enrollments, its sessions and their attendance records go with it. */
  lemma DeleteClassAlwaysSucceeds(s: Store, id: int)
    requires Valid(s)
    ensures DeleteClass(s, id).Ok? && Valid(DeleteClass(s, id).value)
  {
    if HasClass(s.classes, id) {
      var r := DeleteClassCascade(s, id);
      forall e | e in r.enrollments ensures HasClass(r.classes, e.classId) && HasUser(r.users, e.studentId) {
        var c :| c in s.classes && c.id == e.classId;
        assert c in r.classes;
      }
      forall x | x in r.sessions ensures HasClass(r.classes, x.classId) {
        var c :| c in s.classes && c.id == x.classId;
        assert c in r.classes;
      }
      forall a | a in r.attendances ensures HasSession(r.sessions, a.sessionId) && HasUser(r.users, a.studentId) {
        var x :| x in s.sessions && x.id == a.sessionId;
        assert x in r.sessions;
      }
      assert ReferencesResolve(r);
    }
  }

  /** Deleting an existing user is refused exactly when the user still teaches a
      class; otherwise the user's enrollments and attendance records go with it. */
  lemma DeleteUserRestrictedByClasses(s: Store, id: string)
    requires Valid(s)
    ensures DeleteUser(s, id).Err? <==> HasUser(s.users, id) && exists c :: c in s.classes && c.teacherId == id
    ensures DeleteUser(s, id).Ok? ==> Valid(DeleteUser(s, id).value)
  {
    if HasUser(s.users, id) {
      var r := DeleteUserCascade(s, id);
      if c :| c in s.classes && c.teacherId == id {
        assert c in r.classes && !HasUser(r.users, c.teacherId);
        assert !ReferencesResolve(r);
      } else {
        forall c | c in r.classes ensures HasCourse(r.courses, c.courseId) && HasUser(r.users, c.teacherId) {
          var u :| u in s.users && u.id == c.teacherId;
          assert u in r.users;
        }
        forall e | e in r.enrollments ensures HasClass(r.classes, e.classId) && HasUser(r.users, e.studentId) {
          var u :| u in s.users && u.id == e.studentId;
          assert u in r.users;
        }
        forall a | a in r.attendances ensures HasSession(r.sessions, a.sessionId) && HasUser(r.users, a.studentId) {
          var u :| u in s.users && u.id == a.studentId;
          assert u in r.users;
        }
        assert ReferencesResolve(r);
      }
    }
  }

  /** Deleting an existing semester is refused exactly when a course still belongs to it. */
  lemma DeleteSemesterRestrictedByCourses(s: Store, id: int)
    requires Valid(s)
    ensures DeleteSemester(s, id).Err? <==> HasSemester(s.semesters, id) && exists c :: c in s.courses && c.semesterId == id
    ensures DeleteSemester(s, id).Ok? ==> Valid(DeleteSemester(s, id).value)
  {
    if HasSemester(s.semesters, id) {
      var r := RemoveSemesterRow(s, id);
      if c :| c in s.courses && c.semesterId == id {
        assert c in r.courses && !HasSemester(r.semesters, c.semesterId);
        assert !ReferencesResolve(r);
      } else {
        forall c | c in r.courses ensures HasSemester(r.semesters, c.semesterId) {
          var x :| x in s.semesters && x.id == c.semesterId;
          assert x in r.semesters;
        }
        assert ReferencesResolve(r);
      }
    }
  }

  /** Deleting an existing course is refused exactly when a class still belongs to it. */
  lemma DeleteCourseRestrictedByClasses(s: Store, id: int)
    requires Valid(s)
    ensures DeleteCourse(s, id).Err? <==> HasCourse(s.courses, id) && exists c :: c in s.classes && c.courseId == id
    ensures DeleteCourse(s, id).Ok? ==> Valid(DeleteCourse(s, id).value)
  {
    if HasCourse(s.courses, id) {
      var r := RemoveCourseRow(s, id);
      if c :| c in s.classes && c.courseId == id {
        assert c in r.classes && !HasCourse(r.courses, c.courseId);
        assert !ReferencesResolve(r);
      } else {
        forall c | c in r.classes ensures HasCourse(r.courses, c.courseId) && HasUser(r.users, c.teacherId) {
          var x :| x in s.courses && x.id == c.courseId;
          assert x in r.courses;
        }
        assert ReferencesResolve(r);
      }
    }
  }

  /** Deleting an enrollment always succeeds on a valid store and leaves it valid. */
  lemma DeleteEnrollmentAlwaysSucceeds(s: Store, id: int)
    requires Valid(s)
    ensures DeleteEnrollment(s, id).Ok? && Valid(DeleteEnrollment(s, id).value)
  {
    if FindEnrollment(s, id).Some? {
      var r := RemoveEnrollmentRow(s, id);
      assert ReferencesResolve(r);
    }
  }
}
