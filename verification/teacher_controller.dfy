/** `TeacherController`: the teacher's class list, a class's details, starting a
    session and showing its QR payload. The signed-in user's id claim is an
    argument, `None` when the claim is missing; a class belongs to the caller
    when its teacher id equals the claim. */
module TeacherController {
  import opened Base
  import opened Query
  import opened Entities
  import opened AttendanceSessions
  import opened Db
  import opened SessionBuilders
  import opened AttendanceService
  import opened QRPayload

  /** What an action answers: its page, `NotFound()`, `Forbid()`, or an unhandled
      exception (a navigation property that did not load). */
  datatype Page<T> = Show(value: T) | NotFound | Forbid | Crash

  /** The caller is the class's teacher; a missing claim owns nothing. */
  predicate Owns(teacherId: Option<string>, c: Class)
  {
    teacherId == Some(c.teacherId)
  }

  /** `Index()`: the classes taught by the caller, in table order. */
  function Index(s: Store, teacherId: Option<string>): (r: seq<Class>)
    ensures forall c :: c in r <==> c in s.classes && Owns(teacherId, c)
  {
    Where(s.classes, (c: Class) => Owns(teacherId, c))
  }

  /** `ClassDetails(id)`: not found, forbidden to anyone but the class's teacher,
      otherwise the class. */
  function ClassDetails(s: Store, id: int, teacherId: Option<string>): (r: Page<Class>)
    ensures r != Crash
    ensures r == NotFound <==> !HasClass(s.classes, id)
    ensures r.Show? ==> r.value in s.classes && r.value.id == id && Owns(teacherId, r.value)
    ensures r == Forbid ==> exists c :: c in s.classes && c.id == id && !Owns(teacherId, c)
  {
    match FindClass(s, id)
    case None => NotFound
    case Some(c) => if !Owns(teacherId, c) then Forbid else Show(c)
  }

  /** On a valid store the listed classes are exactly the ones whose details the
      caller may see. */
  lemma IndexAgreesWithClassDetails(s: Store, teacherId: Option<string>, c: Class)
    requires Valid(s) && c in s.classes
    ensures c in Index(s, teacherId) <==> ClassDetails(s, c.id, teacherId) == Show(c)
    ensures c !in Index(s, teacherId) <==> ClassDetails(s, c.id, teacherId) == Forbid
  {
    FindClassIsTheClass(s, c);
  }

  /** Where `StartSession` sends the browser: to the new session's QR page, or
      back to the class with the error message. */
  datatype Redirect = ToShowQRCode(sessionId: int) | ToClassDetails(classId: int)

  /** The number of minutes a session started from the teacher's page stays open. */
  const SessionWindowMinutes: int := 15

  /** `StartSession(classId)` as written: a fifteen-minute session for the class.
      The caller is not consulted. */
  function StartSession(s: Store, b: SessionBuilder, classId: int, code: string, now: Ticks): (r: (Creation, Redirect))
    ensures r.0.result.Err? ==> r.0.store == s && r.1 == ToClassDetails(classId)
    ensures r.0.result.Ok? ==>
              && r.1 == ToShowQRCode(r.0.result.value.id)
              && r.0.result.value.qrCodeExpiresAt == now + Minutes(SessionWindowMinutes)
              && r.0.result.value.classId == classId
              && r.0.store.sessions == s.sessions + [r.0.result.value]
  {
    var created := CreateSession(s, b, classId, SessionWindowMinutes, code, now);
    match created.result
    case Ok(x) => (created, ToShowQRCode(x.id))
    case Err(_) => (created, ToClassDetails(classId))
  }

  /** Any signed-in teacher can open a session for a class taught by someone else. */
  lemma AnyTeacherStartsSession(s: Store, b: SessionBuilder, c: Class, teacherId: Option<string>, code: string, now: Ticks)
    requires Valid(s) && c in s.classes && !Owns(teacherId, c)
    requires forall y :: y in s.sessions ==> y.qrCode != code
    ensures StartSession(s, b, c.id, code, now).0.result.Ok?
  {
    assert HasClass(s.classes, c.id);
    CreateSessionOutcome(s, b, c.id, SessionWindowMinutes, code, now);
  }

  /** Starting a session as the other actions guard theirs: not found, forbidden to
      anyone but the class's teacher, otherwise `StartSession`. */
  function StartOwnSession(s: Store, b: SessionBuilder, classId: int, teacherId: Option<string>, code: string, now: Ticks)
    : (r: Page<(Creation, Redirect)>)
    ensures r != Crash
    ensures r == NotFound <==> !HasClass(s.classes, classId)
    ensures !r.Show? ==> r == NotFound || r == Forbid
    ensures r.Show? ==> r.value == StartSession(s, b, classId, code, now)
  {
    match FindClass(s, classId)
    case None => NotFound
    case Some(c) => if !Owns(teacherId, c) then Forbid else Show(StartSession(s, b, classId, code, now))
  }

  /** With the guard, a session is only ever added to a class of the caller's. */
  lemma OnlyOwnerStartsSession(s: Store, b: SessionBuilder, classId: int, teacherId: Option<string>, code: string, now: Ticks)
    requires Valid(s)
    ensures var r := StartOwnSession(s, b, classId, teacherId, code, now);
            r.Show? && r.value.0.result.Ok? ==>
              exists c :: c in s.classes && c.id == classId && Owns(teacherId, c)
    ensures var r := StartOwnSession(s, b, classId, teacherId, code, now);
            HasClass(s.classes, classId) && !Owns(teacherId, FindClass(s, classId).value) ==> r == Forbid
  {
  }

  /** `ShowQRCode(sessionId)`: not found, a crash when the session's class did not
      load, forbidden to anyone but the class's teacher, otherwise the session and
      the payload its QR image encodes. */
  function ShowQRCode(s: Store, sessionId: int, teacherId: Option<string>): (r: Page<(AttendanceSession, string)>)
    ensures r == NotFound <==> !HasSession(s.sessions, sessionId)
    ensures r.Show? ==>
              && r.value.0 in s.sessions && r.value.0.id == sessionId
              && (exists c :: c in s.classes && c.id == r.value.0.classId && Owns(teacherId, c))
              && ParseQRData(r.value.1) == Some((sessionId, r.value.0.qrCode))
  {
    match FindSession(s, sessionId)
    case None => NotFound
    case Some(x) =>
      match FindClass(s, x.classId)
      case None => Crash
      case Some(c) =>
        if !Owns(teacherId, c) then Forbid
        else
          ParseQRDataRoundTrip(x.id, x.qrCode);
          Show((x, AttendanceQRData(x.id, x.qrCode)))
  }

  /** On a valid store `ShowQRCode` never crashes, and a session of another
      teacher's class is forbidden. */
  lemma ShowQRCodeGuards(s: Store, x: AttendanceSession, teacherId: Option<string>)
    requires Valid(s) && x in s.sessions
    ensures ShowQRCode(s, x.id, teacherId) != Crash
    ensures (exists c :: c in s.classes && c.id == x.classId && !Owns(teacherId, c)) ==>
              ShowQRCode(s, x.id, teacherId) == Forbid
  {
    FindSessionIsTheSession(s, x);
    assert HasClass(s.classes, x.classId);
    var c := FindClass(s, x.classId).value;
    forall c' | c' in s.classes && c'.id == x.classId ensures c' == c {
      DistinctBySameKey(s.classes, ClassKey, c, c');
    }
  }

  /** The teacher who starts a session on their class is shown its QR payload, and
      the code read back from the payload leads a student's lookup to that
      session. */
  lemma StartThenShow(s: Store, b: SessionBuilder, c: Class, code: string, now: Ticks)
    requires Valid(s) && c in s.classes
    requires StartSession(s, b, c.id, code, now).0.result.Ok?
    ensures var (created, redirect) := StartSession(s, b, c.id, code, now);
            var x := created.result.value;
            && redirect == ToShowQRCode(x.id)
            && ShowQRCode(created.store, x.id, Some(c.teacherId)) == Show((x, AttendanceQRData(x.id, code)))
            && GetActiveSessionByQRCode(created.store, ParseQRData(AttendanceQRData(x.id, code)).value.1) == Some(x)
  {
    var (created, redirect) := StartSession(s, b, c.id, code, now);
    var x := created.result.value;
    var t := created.store;
    CreateSessionOutcome(s, b, c.id, SessionWindowMinutes, code, now);
    assert x in t.sessions;
    FindSessionIsTheSession(t, x);
    FindClassIsTheClass(t, c);
    ParseQRDataRoundTrip(x.id, code);
    ActiveSessionByCodeIsTheSession(t, x);
  }
}
