/** `AttendanceService`: the attendance-session lifecycle as transitions of the
    store. A session is opened with an expiring QR code, students check in
    against it, it is expired, and the enrolled students who never checked in
    are backfilled as absent.

    Each request reads the clock once (`now`) and, when opening a session,
    receives the fresh GUID string `code`. The session builder the service is
    constructed with is threaded through as a value. */
module AttendanceService {
  import opened Base
  import opened Query
  import opened Entities
  import opened AttendanceSessions
  import opened Attendances
  import opened Db
  import opened SessionBuilders

  /** Why a request fails: the service's `InvalidOperationException`s, a null
      navigation property, or the database refusing the changes. */
  datatype ServiceError =
    | ClassNotFound
    | InvalidSessionOrCode
    | QRCodeExpired
    | NotEnrolled
    | AlreadySubmitted
    | MissingClass
    | SaveFailed(dbError: DbError)

  /** Student `studentId` is enrolled in class `classId`. */
  predicate Enrolled(s: Store, classId: int, studentId: string)
  {
    exists e :: e in s.enrollments && e.classId == classId && e.studentId == studentId
  }

  /** Student `studentId` already has a record for session `sessionId`. */
  predicate HasRecord(s: Store, sessionId: int, studentId: string)
  {
    exists a :: a in s.attendances && a.sessionId == sessionId && a.studentId == studentId
  }

  // ---------------------------------------------------------------------------
  // Opening a session

  /** The outcome of `CreateSessionAsync`, with the builder as it is afterwards. */
  datatype Creation = Creation(store: Store, builder: SessionBuilder, result: Result<AttendanceSession, ServiceError>)

  /** `CreateSessionAsync(classId, expirationMinutes)`. The database hands the new
      row the next identity value. */
  function CreateSession(s: Store, b: SessionBuilder, classId: int, expirationMinutes: int, code: string, now: Ticks): (r: Creation)
    ensures !HasClass(s.classes, classId) ==> r == Creation(s, b, Err(ClassNotFound))
    ensures r.result.Err? ==> r.store == s
    ensures r.result.Ok? ==>
              var x := r.result.value;
              && r.store == s.(sessions := s.sessions + [x])
              && x.classId == classId && x.isActive && x.sessionDate == now
              && x.qrCode == code && x.qrCodeExpiresAt == now + Minutes(expirationMinutes)
              && x.createdAt == b.session.createdAt
              && (forall y :: y in s.sessions ==> y.id != x.id)
    ensures HasClass(s.classes, classId) ==> r.builder == Reset(now)
  {
    match FindClass(s, classId)
    case None => Creation(s, b, Err(ClassNotFound))
    case Some(c) =>
      var chain := SetActive(SetQRCodeExpiration(SetSessionDate(SetClass(b, c), now), expirationMinutes, code, now), true);
      ChainSetsEveryRequestedField(b, c, now, expirationMinutes, code, now);
      assert AgreeOn(b.session, chain.session, CreatedAtField);
      var (built, next) := Build(chain, now);
      var x := built.(id := NextKey(s.sessions, SessionKey));
      assert forall y :: y in s.sessions ==> y.id != x.id;
      match SaveChanges(s.(sessions := s.sessions + [x]))
      case Ok(saved) => Creation(saved, next, Ok(x))
      case Err(e) => Creation(s, next, Err(SaveFailed(e)))
  }

  /** On a valid store, opening a session succeeds exactly when the class exists
      and the new code is not already in use (the unique index on the code), and
      the store stays valid. */
  lemma CreateSessionOutcome(s: Store, b: SessionBuilder, classId: int, expirationMinutes: int, code: string, now: Ticks)
    requires Valid(s)
    ensures var r := CreateSession(s, b, classId, expirationMinutes, code, now);
            && (r.result.Ok? <==> HasClass(s.classes, classId) && forall y :: y in s.sessions ==> y.qrCode != code)
            && Valid(r.store)
  {
    var r := CreateSession(s, b, classId, expirationMinutes, code, now);
    if HasClass(s.classes, classId) {
      var c := FindClass(s, classId).value;
      var chain := SetActive(SetQRCodeExpiration(SetSessionDate(SetClass(b, c), now), expirationMinutes, code, now), true);
      var x := chain.session.(id := NextKey(s.sessions, SessionKey));
      var next := s.(sessions := s.sessions + [x]);
      assert x.classId == classId && x.qrCode == code;
      if y :| y in s.sessions && y.qrCode == code {
        var k :| 0 <= k < |s.sessions| && s.sessions[k] == y;
        assert next.sessions[k] == y && next.sessions[|s.sessions|] == x;
        assert !DistinctBy(next.sessions, QRCodeIndex);
      } else {
        NewSessionKeepsValid(s, x);
        assert r.result.Ok?;
      }
    }
  }

  /** Adding a session with a new id and a new code, for an existing class, keeps
      the store valid. */
  lemma NewSessionKeepsValid(s: Store, x: AttendanceSession)
    requires Valid(s) && HasClass(s.classes, x.classId)
    requires forall y :: y in s.sessions ==> y.id != x.id && y.qrCode != x.qrCode
    ensures Valid(s.(sessions := s.sessions + [x]))
  {
    var next := s.(sessions := s.sessions + [x]);
    forall i | 0 <= i < |s.sessions| ensures SessionKey(s.sessions[i]) != SessionKey(x) && QRCodeIndex(s.sessions[i]) != QRCodeIndex(x) {
      assert s.sessions[i] in s.sessions;
    }
    AppendKeepsDistinctBy(s.sessions, x, SessionKey);
    AppendKeepsDistinctBy(s.sessions, x, QRCodeIndex);
    forall a | a in next.attendances ensures HasSession(next.sessions, a.sessionId) && HasUser(next.users, a.studentId) {
      var y :| y in s.sessions && y.id == a.sessionId;
      assert y in next.sessions;
    }
    assert ReferencesResolve(next);
  }

  // ---------------------------------------------------------------------------
  // Checking in

  /** `SubmitAttendanceAsync(sessionId, studentId, qrCode)`: the checks in the
      order the service makes them, then a record stamped `now` that is `Late`
      when the time of day is more than fifteen minutes past the class start. */
  function SubmitAttendance(s: Store, sessionId: int, studentId: string, qrCode: string, now: Ticks): (r: Transition<Attendance, ServiceError>)
    ensures r.result.Err? ==> r.store == s
    ensures r.result.Ok? ==> r.store == s.(attendances := s.attendances + [r.result.value])
    ensures r.result.Ok? ==>
              var a := r.result.value;
              && a.sessionId == sessionId && a.studentId == studentId && a.checkInTime == Some(now)
              && (a.status == Present || a.status == Late)
              && (forall b :: b in s.attendances ==> b.id != a.id)
              && exists x, c :: && x in s.sessions && x.id == sessionId && x.qrCode == qrCode
                                && IsQRCodeValid(x, now) && Enrolled(s, x.classId, studentId)
                                && !HasRecord(s, sessionId, studentId)
                                && c in s.classes && c.id == x.classId
                                && (a.status == Late <==> IsLate(a, c.startTime, DefaultLateThresholdMinutes))
  {
    var found := FindSession(s, sessionId);
    if found.None? || found.value.qrCode != qrCode then Transition(s, Err(InvalidSessionOrCode))
    else
      var x := found.value;
      var enrolled := (e: Enrollment) => e.classId == x.classId && e.studentId == studentId;
      var existing := (a: Attendance) => a.sessionId == sessionId && a.studentId == studentId;
      if !IsQRCodeValid(x, now) then Transition(s, Err(QRCodeExpired))
      else if !AnyWhere(s.enrollments, enrolled) then Transition(s, Err(NotEnrolled))
      else if FirstWhere(s.attendances, existing).Some? then Transition(s, Err(AlreadySubmitted))
      else
        assert Enrolled(s, x.classId, studentId) by {
          var i :| 0 <= i < |s.enrollments| && enrolled(s.enrollments[i]);
          assert s.enrollments[i] in s.enrollments;
        }
        assert !HasRecord(s, sessionId, studentId) by {
          forall a | a in s.attendances ensures !(a.sessionId == sessionId && a.studentId == studentId) {
            var i :| 0 <= i < |s.attendances| && s.attendances[i] == a;
            assert !existing(s.attendances[i]);
          }
        }
        match FindClass(s, x.classId)
        case None => Transition(s, Err(MissingClass))
        case Some(c) =>
          var late := TimeOfDay(now) > c.startTime + Minutes(15);
          var a := Attendance(NextKey(s.attendances, AttendanceKey), sessionId, studentId,
                              if late then Late else Present, Some(now), None, now);
          assert forall b :: b in s.attendances ==> b.id != a.id;
          match SaveChanges(s.(attendances := s.attendances + [a]))
          case Ok(saved) => Transition(saved, Ok(a))
          case Err(e) => Transition(s, Err(SaveFailed(e)))
  }

  /** A check-in can be accepted: the session exists with this code, its code is
      still valid, the student is enrolled in its class and has no record yet. */
  predicate CanSubmit(s: Store, sessionId: int, studentId: string, qrCode: string, now: Ticks)
  {
    exists x :: && x in s.sessions && x.id == sessionId && x.qrCode == qrCode
                && IsQRCodeValid(x, now) && Enrolled(s, x.classId, studentId)
                && !HasRecord(s, sessionId, studentId)
  }

  /** On a valid store the check-in succeeds exactly when every check passes, and
      the store stays valid. */
  lemma SubmitOutcome(s: Store, sessionId: int, studentId: string, qrCode: string, now: Ticks)
    requires Valid(s)
    ensures var r := SubmitAttendance(s, sessionId, studentId, qrCode, now);
            && (r.result.Ok? <==> CanSubmit(s, sessionId, studentId, qrCode, now))
            && Valid(r.store)
  {
    if CanSubmit(s, sessionId, studentId, qrCode, now) {
      var x :| && x in s.sessions && x.id == sessionId && x.qrCode == qrCode
               && IsQRCodeValid(x, now) && Enrolled(s, x.classId, studentId)
               && !HasRecord(s, sessionId, studentId);
      SubmitAccepts(s, x, studentId, now);
    }
    SubmitKeepsValid(s, sessionId, studentId, qrCode, now);
  }

  /** On a valid store a check-in, accepted or not, leaves the store valid. */
  lemma SubmitKeepsValid(s: Store, sessionId: int, studentId: string, qrCode: string, now: Ticks)
    requires Valid(s)
    ensures Valid(SubmitAttendance(s, sessionId, studentId, qrCode, now).store)
  {
    var r := SubmitAttendance(s, sessionId, studentId, qrCode, now);
    if r.result.Ok? {
      var a := r.result.value;
      var x :| && x in s.sessions && x.id == sessionId && Enrolled(s, x.classId, studentId);
      var e :| e in s.enrollments && e.classId == x.classId && e.studentId == studentId;
      NewRecordKeepsValid(s, a);
      assert r.store == s.(attendances := s.attendances + [a]);
    }
  }

  /** Every check passes: the check-in is accepted. */
  lemma SubmitAccepts(s: Store, x: AttendanceSession, studentId: string, now: Ticks)
    requires Valid(s) && x in s.sessions && IsQRCodeValid(x, now)
    requires Enrolled(s, x.classId, studentId) && !HasRecord(s, x.id, studentId)
    ensures SubmitAttendance(s, x.id, studentId, x.qrCode, now).result.Ok?
  {
    FindSessionIsTheSession(s, x);
    var enrolled := (e: Enrollment) => e.classId == x.classId && e.studentId == studentId;
    var existing := (a: Attendance) => a.sessionId == x.id && a.studentId == studentId;
    var e :| e in s.enrollments && e.classId == x.classId && e.studentId == studentId;
    var i :| 0 <= i < |s.enrollments| && s.enrollments[i] == e;
    assert AnyWhere(s.enrollments, enrolled) by {
      assert enrolled(s.enrollments[i]);
    }
    assert FirstWhere(s.attendances, existing).None? by {
      forall k | 0 <= k < |s.attendances| ensures !existing(s.attendances[k]) {
        assert s.attendances[k] in s.attendances;
      }
    }
    assert HasClass(s.classes, x.classId);
    var c := FindClass(s, x.classId).value;
    var a := Attendance(NextKey(s.attendances, AttendanceKey), x.id, studentId,
                        if TimeOfDay(now) > c.startTime + Minutes(15) then Late else Present, Some(now), None, now);
    NewRecordKeepsValid(s, a);
    assert SaveChanges(s.(attendances := s.attendances + [a])).Ok?;
  }

  /** For a session that carries the code and whose code is still valid, the
      check-in succeeds exactly when the student is enrolled and has no record
      yet; the two session checks never fail, and the store stays valid. */
  lemma SubmitWithValidCode(s: Store, x: AttendanceSession, studentId: string, now: Ticks)
    requires Valid(s) && x in s.sessions && IsQRCodeValid(x, now)
    ensures var r := SubmitAttendance(s, x.id, studentId, x.qrCode, now);
            && r.result != Err(InvalidSessionOrCode) && r.result != Err(QRCodeExpired)
            && (r.result.Ok? <==> Enrolled(s, x.classId, studentId) && !HasRecord(s, x.id, studentId))
            && Valid(r.store)
  {
    FindSessionIsTheSession(s, x);
    SubmitOutcome(s, x.id, studentId, x.qrCode, now);
    forall y | y in s.sessions && y.id == x.id ensures y == x {
      DistinctBySameKey(s.sessions, SessionKey, x, y);
    }
  }

  /** On a valid store, each of the service's four refusals happens exactly when
      its check is the first to fail. */
  lemma SubmitRejections(s: Store, sessionId: int, studentId: string, qrCode: string, now: Ticks)
    requires Valid(s)
    ensures var r := SubmitAttendance(s, sessionId, studentId, qrCode, now);
            && (r.result == Err(InvalidSessionOrCode) <==>
                  !exists x :: x in s.sessions && x.id == sessionId && x.qrCode == qrCode)
            && (r.result == Err(QRCodeExpired) <==>
                  exists x :: x in s.sessions && x.id == sessionId && x.qrCode == qrCode && !IsQRCodeValid(x, now))
            && (r.result == Err(NotEnrolled) <==>
                  exists x :: && x in s.sessions && x.id == sessionId && x.qrCode == qrCode && IsQRCodeValid(x, now)
                              && !Enrolled(s, x.classId, studentId))
            && (r.result == Err(AlreadySubmitted) <==>
                  exists x :: && x in s.sessions && x.id == sessionId && x.qrCode == qrCode && IsQRCodeValid(x, now)
                              && Enrolled(s, x.classId, studentId) && HasRecord(s, sessionId, studentId))
  {
    var r := SubmitAttendance(s, sessionId, studentId, qrCode, now);
    if HasSession(s.sessions, sessionId) {
      var x := FindSession(s, sessionId).value;
      // Session ids are unique, so every statement about "a session with this id" is about `x`.
      forall y | y in s.sessions && y.id == sessionId ensures y == x {
        DistinctBySameKey(s.sessions, SessionKey, x, y);
      }
      if x.qrCode == qrCode && IsQRCodeValid(x, now) && Enrolled(s, x.classId, studentId) {
        var existing := (a: Attendance) => a.sessionId == sessionId && a.studentId == studentId;
        if HasRecord(s, sessionId, studentId) {
          var a :| a in s.attendances && a.sessionId == sessionId && a.studentId == studentId;
          var i :| 0 <= i < |s.attendances| && s.attendances[i] == a;
          assert existing(s.attendances[i]);
          assert r.result == Err(AlreadySubmitted);
        }
      }
    }
  }

  /** Adding a record with a new id, for an existing session and user, that the
      student does not yet have for the session, keeps the store valid. */
  lemma NewRecordKeepsValid(s: Store, a: Attendance)
    requires Valid(s)
    requires HasSession(s.sessions, a.sessionId) && HasUser(s.users, a.studentId)
    requires forall b :: b in s.attendances ==> b.id != a.id
    requires !HasRecord(s, a.sessionId, a.studentId)
    ensures Valid(s.(attendances := s.attendances + [a]))
  {
    var next := s.(attendances := s.attendances + [a]);
    forall i | 0 <= i < |s.attendances| ensures AttendanceKey(s.attendances[i]) != AttendanceKey(a)
      && SessionStudent(s.attendances[i]) != SessionStudent(a)
    {
      assert s.attendances[i] in s.attendances;
    }
    AppendKeepsDistinctBy(s.attendances, a, AttendanceKey);
    AppendKeepsDistinctBy(s.attendances, a, SessionStudent);
    assert ReferencesResolve(next);
  }

  /** A student checks in at most once per session: after a successful check-in,
      every further attempt for the same session and student fails, whatever the
      code and the time. */
  lemma SubmitAtMostOnce(s: Store, sessionId: int, studentId: string, qrCode: string, now: Ticks,
                         qrCode2: string, later: Ticks)
    requires Valid(s)
    requires SubmitAttendance(s, sessionId, studentId, qrCode, now).result.Ok?
    ensures var s2 := SubmitAttendance(s, sessionId, studentId, qrCode, now).store;
            !SubmitAttendance(s2, sessionId, studentId, qrCode2, later).result.Ok?
  {
    var r := SubmitAttendance(s, sessionId, studentId, qrCode, now);
    SubmitOutcome(s, sessionId, studentId, qrCode, now);
    var s2 := r.store;
    assert r.result.value in s2.attendances;
    assert HasRecord(s2, sessionId, studentId);
    SubmitOutcome(s2, sessionId, studentId, qrCode2, later);
  }

  // ---------------------------------------------------------------------------
  // Looking a session up by its code

  /** `GetActiveSessionByQRCodeAsync(qrCode)`: the first active session with this code. */
  function GetActiveSessionByQRCode(s: Store, qrCode: string): (r: Option<AttendanceSession>)
    ensures r.Some? ==> r.value in s.sessions && r.value.qrCode == qrCode && r.value.isActive
    ensures r.None? <==> !exists x :: x in s.sessions && x.qrCode == qrCode && x.isActive
  {
    var p := (x: AttendanceSession) => x.qrCode == qrCode && x.isActive;
    var r := FirstWhere(s.sessions, p);
    assert r.None? <==> !exists x :: x in s.sessions && p(x) by {
      if x :| x in s.sessions && p(x) {
        var i :| 0 <= i < |s.sessions| && s.sessions[i] == x;
        assert p(s.sessions[i]);
      }
    }
    r
  }

  /** Codes are unique, so the lookup finds the one active session carrying the code. */
  lemma ActiveSessionByCodeIsTheSession(s: Store, x: AttendanceSession)
    requires DistinctBy(s.sessions, QRCodeIndex)
    requires x in s.sessions && x.isActive
    ensures GetActiveSessionByQRCode(s, x.qrCode) == Some(x)
  {
    var r := GetActiveSessionByQRCode(s, x.qrCode);
    DistinctBySameKey(s.sessions, QRCodeIndex, x, r.value);
  }

  // ---------------------------------------------------------------------------
  // Expiring a session

  /** The sessions with every row of id `id` switched off. */
  function Deactivate(xs: seq<AttendanceSession>, id: int): (r: seq<AttendanceSession>)
    ensures |r| == |xs|
    ensures forall i :: 0 <= i < |xs| ==> AgreeExcept(xs[i], r[i], {ActiveField})
    ensures forall i :: 0 <= i < |xs| ==> (r[i].isActive <==> xs[i].isActive && xs[i].id != id)
  {
    seq(|xs|, i requires 0 <= i < |xs| => if xs[i].id == id then xs[i].(isActive := false) else xs[i])
  }

  /** `ExpireSessionAsync(sessionId)`: an active session becomes inactive; an
      unknown or already inactive session is left alone. */
  function ExpireSession(s: Store, sessionId: int): (r: Result<Store, DbError>)
    ensures !HasSession(s.sessions, sessionId) ==> r == Ok(s)
    ensures r.Ok? ==> r.value == s.(sessions := r.value.sessions) && |r.value.sessions| == |s.sessions|
    ensures r.Ok? ==> forall i :: 0 <= i < |s.sessions| ==>
              && AgreeExcept(s.sessions[i], r.value.sessions[i], {ActiveField})
              && (s.sessions[i].id != sessionId ==> r.value.sessions[i] == s.sessions[i])
  {
    match FindSession(s, sessionId)
    case None => Ok(s)
    case Some(x) =>
      if !x.isActive then Ok(s)
      else
        var next := s.(sessions := Deactivate(s.sessions, sessionId));
        assert forall i :: 0 <= i < |s.sessions| && s.sessions[i].id != sessionId ==> next.sessions[i] == s.sessions[i] by {
          forall i | 0 <= i < |s.sessions| && s.sessions[i].id != sessionId ensures next.sessions[i] == s.sessions[i] {
            var a, b := s.sessions[i], next.sessions[i];
            assert AgreeExcept(a, b, {ActiveField}) && AgreeOn(a, b, ActiveField);
            AgreeEverywhereIsEqual(a, b);
          }
        }
        SaveChanges(next)
  }

  /** On a valid store, expiring succeeds, keeps the store valid, and leaves every
      session with this id inactive, so its code is never valid again. */
  lemma ExpireOutcome(s: Store, sessionId: int)
    requires Valid(s)
    ensures ExpireSession(s, sessionId).Ok?
    ensures var t := ExpireSession(s, sessionId).value;
            && Valid(t)
            && forall x, now :: x in t.sessions && x.id == sessionId ==> !IsQRCodeValid(x, now)
  {
    var r := ExpireSession(s, sessionId);
    if HasSession(s.sessions, sessionId) {
      var x := FindSession(s, sessionId).value;
      forall y | y in s.sessions && y.id == sessionId ensures y == x {
        DistinctBySameKey(s.sessions, SessionKey, x, y);
      }
      if x.isActive {
        var next := s.(sessions := Deactivate(s.sessions, sessionId));
        DeactivateKeepsSchema(s, sessionId);
        assert r == Ok(next);
        forall y | y in next.sessions && y.id == sessionId ensures !y.isActive {
          var i :| 0 <= i < |next.sessions| && next.sessions[i] == y;
          assert AgreeOn(s.sessions[i], y, IdField);
        }
      }
    }
  }

  /** Switching sessions off changes no key, code or class reference. */
  lemma DeactivateKeepsSchema(s: Store, id: int)
    requires Valid(s)
    ensures Valid(s.(sessions := Deactivate(s.sessions, id)))
  {
    var xs := s.sessions;
    var ys := Deactivate(xs, id);
    var next := s.(sessions := ys);
    forall i | 0 <= i < |xs|
      ensures SessionKey(xs[i]) == SessionKey(ys[i]) && QRCodeIndex(xs[i]) == QRCodeIndex(ys[i])
      ensures xs[i].classId == ys[i].classId
    {
      assert AgreeOn(xs[i], ys[i], IdField) && AgreeOn(xs[i], ys[i], QRCodeField) && AgreeOn(xs[i], ys[i], ClassIdField);
    }
    SameKeysKeepDistinctBy(xs, ys, SessionKey);
    SameKeysKeepDistinctBy(xs, ys, QRCodeIndex);
    forall y | y in ys ensures HasClass(next.classes, y.classId) {
      var i :| 0 <= i < |ys| && ys[i] == y;
      assert xs[i] in xs;
    }
    forall a | a in next.attendances ensures HasSession(ys, a.sessionId) && HasUser(next.users, a.studentId) {
      var y :| y in xs && y.id == a.sessionId;
      var i :| 0 <= i < |xs| && xs[i] == y;
      assert ys[i] in ys;
    }
    assert ReferencesResolve(next);
  }

  /** Expiring twice is expiring once. */
  lemma ExpireIdempotent(s: Store, sessionId: int)
    requires Valid(s)
    ensures ExpireSession(s, sessionId).Ok?
    ensures ExpireSession(ExpireSession(s, sessionId).value, sessionId) == ExpireSession(s, sessionId)
  {
    ExpireOutcome(s, sessionId);
    var t := ExpireSession(s, sessionId).value;
    var f := FindSession(t, sessionId);
    if f.Some? {
      assert !f.value.isActive;
    }
  }

  /** After a session is expired, no student can check in to it. */
  lemma NoCheckInAfterExpiry(s: Store, sessionId: int, studentId: string, qrCode: string, now: Ticks)
    requires Valid(s)
    ensures ExpireSession(s, sessionId).Ok?
            && !SubmitAttendance(ExpireSession(s, sessionId).value, sessionId, studentId, qrCode, now).result.Ok?
  {
    ExpireOutcome(s, sessionId);
    var t := ExpireSession(s, sessionId).value;
    SubmitOutcome(t, sessionId, studentId, qrCode, now);
  }

  // ---------------------------------------------------------------------------
  // Backfilling absences

  /** The ids of the students enrolled in class `classId`, in enrollment order. */
  function EnrolledStudents(s: Store, classId: int): (r: seq<string>)
    ensures forall id :: id in r <==> Enrolled(s, classId, id)
  {
    var inClass := (e: Enrollment) => e.classId == classId;
    var rows := Where(s.enrollments, inClass);
    var r := Select(rows, (e: Enrollment) => e.studentId);
    assert forall id :: id in r <==> Enrolled(s, classId, id) by {
      forall id ensures id in r <==> Enrolled(s, classId, id) {
        if e :| e in s.enrollments && e.classId == classId && e.studentId == id {
          assert e in rows;
          var i :| 0 <= i < |rows| && rows[i] == e;
          assert r[i] == id;
        }
        if id in r {
          var i :| 0 <= i < |r| && r[i] == id;
          assert rows[i] in rows;
        }
      }
    }
    r
  }

  /** The ids of the students that have a record for session `sessionId`. */
  function RecordedStudents(s: Store, sessionId: int): (r: seq<string>)
    ensures forall id :: id in r <==> HasRecord(s, sessionId, id)
  {
    var ofSession := (a: Attendance) => a.sessionId == sessionId;
    var rows := Where(s.attendances, ofSession);
    var r := Select(rows, (a: Attendance) => a.studentId);
    assert forall id :: id in r <==> HasRecord(s, sessionId, id) by {
      forall id ensures id in r <==> HasRecord(s, sessionId, id) {
        if a :| a in s.attendances && a.sessionId == sessionId && a.studentId == id {
          assert a in rows;
          var i :| 0 <= i < |rows| && rows[i] == a;
          assert r[i] == id;
        }
        if id in r {
          var i :| 0 <= i < |r| && r[i] == id;
          assert rows[i] in rows;
        }
      }
    }
    r
  }

  /** An absence record per student, numbered from `firstId` on. */
  function AbsentRecords(students: seq<string>, sessionId: int, firstId: int, now: Ticks): (r: seq<Attendance>)
    ensures |r| == |students|
    ensures forall i :: 0 <= i < |r| ==>
              && r[i].id == firstId + i && r[i].sessionId == sessionId && r[i].studentId == students[i]
              && r[i].status == Absent && r[i].checkInTime.None? && r[i].createdAt == now
  {
    seq(|students|, i requires 0 <= i < |students| => Attendance(firstId + i, sessionId, students[i], Absent, None, None, now))
  }

  /** The records `MarkAbsentStudentsAsync` adds for session `x` of class `c`. */
  function AbsenceBackfill(s: Store, x: AttendanceSession, c: Class, now: Ticks): (r: seq<Attendance>)
    ensures forall a :: a in r ==> a.sessionId == x.id && a.status == Absent && a.checkInTime.None?
    ensures forall id :: (exists a :: a in r && a.studentId == id) <==> Enrolled(s, c.id, id) && !HasRecord(s, x.id, id)
    ensures DistinctBy(r, SessionStudent)
    ensures forall i, a :: 0 <= i < |r| && a in s.attendances ==> r[i].id != a.id
    ensures DistinctBy(r, AttendanceKey)
  {
    var absent := Except(EnrolledStudents(s, c.id), RecordedStudents(s, x.id));
    var r := AbsentRecords(absent, x.id, NextKey(s.attendances, AttendanceKey), now);
    forall id | id in absent ensures exists a :: a in r && a.studentId == id {
      var i :| 0 <= i < |absent| && absent[i] == id;
      assert r[i] in r;
    }
    forall a | a in r ensures a.studentId in absent {
      var i :| 0 <= i < |r| && r[i] == a;
    }
    forall i, j | 0 <= i < j < |r| ensures SessionStudent(r[i]) != SessionStudent(r[j]) {
      assert absent[i] != absent[j];
    }
    forall i, a | 0 <= i < |r| && a in s.attendances ensures r[i].id != a.id {
      var k :| 0 <= k < |s.attendances| && s.attendances[k] == a;
    }
    r
  }

  /** `MarkAbsentStudentsAsync(sessionId)`: every student enrolled in the session's
      class who has no record for it gets an `Absent` record with no check-in time.
      An unknown session is left alone. */
  function MarkAbsentStudents(s: Store, sessionId: int, now: Ticks): (r: Result<Store, ServiceError>)
    ensures !HasSession(s.sessions, sessionId) ==> r == Ok(s)
    ensures r.Ok? ==> r.value == s.(attendances := r.value.attendances) && s.attendances <= r.value.attendances
    ensures r.Ok? ==> forall a :: a in r.value.attendances[|s.attendances|..] ==>
              a.sessionId == sessionId && a.status == Absent && a.checkInTime.None?
  {
    match FindSession(s, sessionId)
    case None => Ok(s)
    case Some(x) =>
      match FindClass(s, x.classId)
      case None => Err(MissingClass)
      case Some(c) =>
        var added := AbsenceBackfill(s, x, c, now);
        var next := s.(attendances := s.attendances + added);
        assert next.attendances[|s.attendances|..] == added;
        match SaveChanges(next)
        case Ok(saved) => Ok(saved)
        case Err(e) => Err(SaveFailed(e))
  }

  /** The backfill adds a record for exactly the students enrolled in the
      session's class who had no record for the session, one record each. */
  lemma MarkAbsentAddsExactlyTheAbsentees(s: Store, sessionId: int, now: Ticks)
    requires HasSession(s.sessions, sessionId) && MarkAbsentStudents(s, sessionId, now).Ok?
    ensures var added := MarkAbsentStudents(s, sessionId, now).value.attendances[|s.attendances|..];
            var x := FindSession(s, sessionId).value;
            && DistinctBy(added, SessionStudent)
            && forall id :: (exists a :: a in added && a.studentId == id) <==>
                              Enrolled(s, x.classId, id) && !HasRecord(s, sessionId, id)
  {
    var x := FindSession(s, sessionId).value;
    var c := FindClass(s, x.classId).value;
    var added := AbsenceBackfill(s, x, c, now);
    assert (s.attendances + added)[|s.attendances|..] == added;
  }

  /** Appending the backfill of a stored session and class keeps a valid store
      valid: the new records have new ids, refer to an existing session and
      student, and give no student a second record for the session. */
  lemma BackfillKeepsValid(s: Store, x: AttendanceSession, c: Class, now: Ticks)
    requires Valid(s) && x in s.sessions && c in s.classes
    ensures Valid(s.(attendances := s.attendances + AbsenceBackfill(s, x, c, now)))
  {
    var added := AbsenceBackfill(s, x, c, now);
    var next := s.(attendances := s.attendances + added);
    ConcatKeepsDistinctBy(s.attendances, added, AttendanceKey);
    forall i, j | 0 <= i < |s.attendances| && 0 <= j < |added|
      ensures SessionStudent(s.attendances[i]) != SessionStudent(added[j])
    {
      assert !HasRecord(s, x.id, added[j].studentId) by {
        assert added[j] in added;
      }
      assert s.attendances[i] in s.attendances;
    }
    ConcatKeepsDistinctBy(s.attendances, added, SessionStudent);
    forall a | a in added ensures HasSession(s.sessions, a.sessionId) && HasUser(s.users, a.studentId) {
      assert Enrolled(s, c.id, a.studentId);
      var e :| e in s.enrollments && e.classId == c.id && e.studentId == a.studentId;
    }
    assert ReferencesResolve(next);
  }

  /** On a valid store the backfill succeeds and keeps the store valid. */
  lemma MarkAbsentKeepsValid(s: Store, sessionId: int, now: Ticks)
    requires Valid(s)
    ensures MarkAbsentStudents(s, sessionId, now).Ok?
    ensures Valid(MarkAbsentStudents(s, sessionId, now).value)
  {
    if HasSession(s.sessions, sessionId) {
      var x := FindSession(s, sessionId).value;
      var c := FindClass(s, x.classId).value;
      BackfillKeepsValid(s, x, c, now);
    }
  }

  /** On a valid store the backfill appends exactly `AbsenceBackfill` for the session and its class. */
  lemma MarkAbsentIsBackfill(s: Store, sessionId: int, now: Ticks)
    requires Valid(s) && HasSession(s.sessions, sessionId)
    ensures var x := FindSession(s, sessionId).value;
            && HasClass(s.classes, x.classId)
            && MarkAbsentStudents(s, sessionId, now)
               == Ok(s.(attendances := s.attendances + AbsenceBackfill(s, x, FindClass(s, x.classId).value, now)))
  {
    MarkAbsentKeepsValid(s, sessionId, now);
  }

  /** After appending the backfill, every student enrolled in the class has a
      record for the session. */
  lemma BackfillCompletes(s: Store, x: AttendanceSession, c: Class, now: Ticks, studentId: string)
    requires Enrolled(s, c.id, studentId)
    ensures HasRecord(s.(attendances := s.attendances + AbsenceBackfill(s, x, c, now)), x.id, studentId)
  {
    var added := AbsenceBackfill(s, x, c, now);
    var t := s.(attendances := s.attendances + added);
    if HasRecord(s, x.id, studentId) {
      var a :| a in s.attendances && a.sessionId == x.id && a.studentId == studentId;
      assert a in t.attendances;
    } else {
      var a :| a in added && a.studentId == studentId;
      assert a in t.attendances;
    }
  }

  /** The first backfilled student is enrolled and had no record. */
  lemma BackfillHead(s: Store, x: AttendanceSession, c: Class, now: Ticks)
    ensures var r := AbsenceBackfill(s, x, c, now);
            |r| > 0 ==> Enrolled(s, c.id, r[0].studentId) && !HasRecord(s, x.id, r[0].studentId)
  {
    var r := AbsenceBackfill(s, x, c, now);
    if |r| > 0 {
      var id := r[0].studentId;
      assert exists a :: a in r && a.studentId == id by {
        assert r[0] in r;
      }
    }
  }

  /** When every enrolled student already has a record, the backfill adds nothing. */
  lemma BackfillEmptyWhenComplete(s: Store, x: AttendanceSession, c: Class, now: Ticks)
    requires forall id :: Enrolled(s, c.id, id) ==> HasRecord(s, x.id, id)
    ensures AbsenceBackfill(s, x, c, now) == []
  {
    BackfillHead(s, x, c, now);
  }

  /** With the application invariant, a student has at most one record per session. */
  lemma AtMostOneRecord(t: Store, sessionId: int, studentId: string)
    requires OneRecordPerSessionStudent(t)
    ensures forall a, b :: && a in t.attendances && b in t.attendances
                           && SessionStudent(a) == (sessionId, studentId) && SessionStudent(b) == (sessionId, studentId)
                           ==> a == b
  {
    forall a, b | && a in t.attendances && b in t.attendances
                  && SessionStudent(a) == (sessionId, studentId) && SessionStudent(b) == (sessionId, studentId)
      ensures a == b
    {
      DistinctBySameKey(t.attendances, SessionStudent, a, b);
    }
  }

  /** After the backfill every student enrolled in the session's class has exactly
      one record for the session. */
  lemma MarkAbsentCompletes(s: Store, sessionId: int, now: Ticks, studentId: string)
    requires Valid(s) && HasSession(s.sessions, sessionId)
    requires Enrolled(s, FindSession(s, sessionId).value.classId, studentId)
    ensures MarkAbsentStudents(s, sessionId, now).Ok?
    ensures var t := MarkAbsentStudents(s, sessionId, now).value;
            && HasRecord(t, sessionId, studentId)
            && forall a, b :: && a in t.attendances && b in t.attendances
                              && SessionStudent(a) == (sessionId, studentId) && SessionStudent(b) == (sessionId, studentId)
                              ==> a == b
  {
    var x := FindSession(s, sessionId).value;
    MarkAbsentIsBackfill(s, sessionId, now);
    var c := FindClass(s, x.classId).value;
    var t := s.(attendances := s.attendances + AbsenceBackfill(s, x, c, now));
    BackfillCompletes(s, x, c, now, studentId);
    BackfillKeepsValid(s, x, c, now);
    AtMostOneRecord(t, sessionId, studentId);
  }

  /** Running the backfill twice is running it once. */
  lemma MarkAbsentIdempotent(s: Store, sessionId: int, now: Ticks, later: Ticks)
    requires Valid(s)
    ensures MarkAbsentStudents(s, sessionId, now).Ok?
    ensures var t := MarkAbsentStudents(s, sessionId, now).value;
            MarkAbsentStudents(t, sessionId, later) == Ok(t)
  {
    MarkAbsentKeepsValid(s, sessionId, now);
    if HasSession(s.sessions, sessionId) {
      var x := FindSession(s, sessionId).value;
      MarkAbsentIsBackfill(s, sessionId, now);
      var c := FindClass(s, x.classId).value;
      var t := s.(attendances := s.attendances + AbsenceBackfill(s, x, c, now));
      BackfillKeepsValid(s, x, c, now);
      forall id | Enrolled(t, c.id, id) ensures HasRecord(t, x.id, id) {
        BackfillCompletes(s, x, c, now, id);
      }
      BackfillEmptyWhenComplete(t, x, c, later);
      assert t.attendances + [] == t.attendances;
      assert FindSession(t, sessionId) == Some(x);
      assert FindClass(t, x.classId) == Some(c);
      MarkAbsentIsBackfill(t, sessionId, later);
    }
  }

  // ---------------------------------------------------------------------------
  // Reading a class's records

  /** `GetClassAttendanceAsync(classId)`: the records of the class's sessions. */
  function ClassAttendance(s: Store, classId: int): (r: seq<Attendance>)
    ensures forall a :: a in r <==> a in s.attendances && exists x :: x in s.sessions && x.id == a.sessionId && x.classId == classId
  {
    var gone := SessionsOfClass(s, classId);
    Where(s.attendances, (a: Attendance) => a.sessionId in gone)
  }

  /** With unique session ids, a record belongs to the listing of at most one class. */
  lemma ClassAttendanceDisjoint(s: Store, c1: int, c2: int, a: Attendance)
    requires DistinctBy(s.sessions, SessionKey)
    requires a in ClassAttendance(s, c1) && a in ClassAttendance(s, c2)
    ensures c1 == c2
  {
    var x1 :| x1 in s.sessions && x1.id == a.sessionId && x1.classId == c1;
    var x2 :| x2 in s.sessions && x2.id == a.sessionId && x2.classId == c2;
    DistinctBySameKey(s.sessions, SessionKey, x1, x2);
  }
}
