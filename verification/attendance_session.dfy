/** An `AttendanceSession`: one check-in window for one class meeting,
    identified to students by its QR code (a GUID string). */
module AttendanceSessions {
  import opened Base

  datatype AttendanceSession = AttendanceSession(
    id: int,
    classId: int,
    sessionDate: Ticks,
    qrCode: string,
    qrCodeExpiresAt: Ticks,
    isActive: bool,
    createdAt: Ticks)

  /** A session as `new AttendanceSession { CreatedAt = createdAt }` leaves it:
      every field at its CLR default, except `IsActive`, which defaults to true. */
  function NewSession(createdAt: Ticks): (r: AttendanceSession)
    ensures r.isActive && r.createdAt == createdAt
    ensures r.id == 0 && r.classId == 0 && r.qrCode == ""
  {
    AttendanceSession(0, 0, 0, "", 0, true, createdAt)
  }

  /** `IsQRCodeValid()`, with the clock reading passed in. The comparison with
      the expiry instant is strict. */
  predicate IsQRCodeValid(s: AttendanceSession, now: Ticks)
  {
    s.isActive && now < s.qrCodeExpiresAt
  }

  /** An inactive session's code is never valid, at any instant. */
  lemma InactiveNeverValid(s: AttendanceSession, now: Ticks)
    requires !s.isActive
    ensures !IsQRCodeValid(s, now)
  {
  }

  /** At the expiry instant itself the code is already invalid. */
  lemma InvalidAtExpiry(s: AttendanceSession)
    ensures !IsQRCodeValid(s, s.qrCodeExpiresAt)
  {
  }

  /** Once a code is invalid because its time is up, it stays invalid at every later instant. */
  lemma ExpiredStaysInvalid(s: AttendanceSession, t1: Ticks, t2: Ticks)
    requires s.qrCodeExpiresAt <= t1 <= t2
    ensures !IsQRCodeValid(s, t1) && !IsQRCodeValid(s, t2)
  {
  }

  /** A code valid now was valid at every earlier instant of the same session state. */
  lemma ValidEarlier(s: AttendanceSession, t1: Ticks, t2: Ticks)
    requires t1 <= t2 && IsQRCodeValid(s, t2)
    ensures IsQRCodeValid(s, t1)
  {
  }

  /** The fields of a session, for stating which ones an update touches. */
  datatype Field = IdField | ClassIdField | SessionDateField | QRCodeField
                 | ExpiresAtField | ActiveField | CreatedAtField

  /** `a` and `b` hold the same value in field `f`. */
  predicate AgreeOn(a: AttendanceSession, b: AttendanceSession, f: Field)
  {
    match f
    case IdField => a.id == b.id
    case ClassIdField => a.classId == b.classId
    case SessionDateField => a.sessionDate == b.sessionDate
    case QRCodeField => a.qrCode == b.qrCode
    case ExpiresAtField => a.qrCodeExpiresAt == b.qrCodeExpiresAt
    case ActiveField => a.isActive == b.isActive
    case CreatedAtField => a.createdAt == b.createdAt
  }

  /** `a` and `b` differ at most in the fields `changed`. */
  predicate AgreeExcept(a: AttendanceSession, b: AttendanceSession, changed: set<Field>)
  {
    forall f :: f !in changed ==> AgreeOn(a, b, f)
  }

  /** Agreeing on every field is equality. */
  lemma AgreeEverywhereIsEqual(a: AttendanceSession, b: AttendanceSession)
    requires AgreeExcept(a, b, {})
    ensures a == b
  {
    assert AgreeOn(a, b, IdField) && AgreeOn(a, b, ClassIdField) && AgreeOn(a, b, SessionDateField);
    assert AgreeOn(a, b, QRCodeField) && AgreeOn(a, b, ExpiresAtField) && AgreeOn(a, b, ActiveField);
    assert AgreeOn(a, b, CreatedAtField);
  }
}
