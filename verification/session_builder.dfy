/** `AttendanceSessionBuilder`: a session under construction, filled in by
    setters and handed out by `Build`, which then starts over. Nothing is
    validated. The builder's state is a value threaded through its callers;
    `now` is the clock reading at the call and `code` the fresh GUID string. */
module SessionBuilders {
  import opened Base
  import opened Entities
  import opened AttendanceSessions

  datatype SessionBuilder = SessionBuilder(session: AttendanceSession)

  /** The constructor and `Reset()`: a new session stamped with the current time. */
  function Reset(now: Ticks): (b: SessionBuilder)
    ensures b.session.isActive && b.session.createdAt == now
    ensures b.session == NewSession(now)
  {
    SessionBuilder(NewSession(now))
  }

  function SetClass(b: SessionBuilder, c: Class): (r: SessionBuilder)
    ensures r.session.classId == c.id
    ensures AgreeExcept(b.session, r.session, {ClassIdField})
  {
    SessionBuilder(b.session.(classId := c.id))
  }

  function SetSessionDate(b: SessionBuilder, date: Ticks): (r: SessionBuilder)
    ensures r.session.sessionDate == date
    ensures AgreeExcept(b.session, r.session, {SessionDateField})
  {
    SessionBuilder(b.session.(sessionDate := date))
  }

  /** A new code, valid for `expirationMinutes` from now. */
  function SetQRCodeExpiration(b: SessionBuilder, expirationMinutes: int, code: string, now: Ticks): (r: SessionBuilder)
    ensures r.session.qrCode == code
    ensures r.session.qrCodeExpiresAt == now + Minutes(expirationMinutes)
    ensures AgreeExcept(b.session, r.session, {QRCodeField, ExpiresAtField})
  {
    SessionBuilder(b.session.(qrCode := code, qrCodeExpiresAt := now + Minutes(expirationMinutes)))
  }

  function SetActive(b: SessionBuilder, isActive: bool): (r: SessionBuilder)
    ensures r.session.isActive == isActive
    ensures AgreeExcept(b.session, r.session, {ActiveField})
  {
    SessionBuilder(b.session.(isActive := isActive))
  }

  /** `Build()`: the accumulated session, unchecked, and the builder reset at `now`. */
  function Build(b: SessionBuilder, now: Ticks): (r: (AttendanceSession, SessionBuilder))
    ensures r.0 == b.session
    ensures r.1 == Reset(now)
  {
    (b.session, Reset(now))
  }

  /** A second `Build` with no setter in between hands out a default session. */
  lemma SecondBuildIsDefault(b: SessionBuilder, t1: Ticks, t2: Ticks)
    ensures Build(Build(b, t1).1, t2).0 == NewSession(t1)
  {
  }

  /** Setters that touch different fields commute. */
  lemma SettersOnDifferentFieldsCommute(b: SessionBuilder, c: Class, date: Ticks)
    ensures SetClass(SetSessionDate(b, date), c) == SetSessionDate(SetClass(b, c), date)
  {
  }

  /** The chain `CreateSessionAsync` runs produces a session that has exactly the
      requested class, date, code, expiry and activity, and keeps what the builder
      held in the other fields (its id and its creation time). */
  lemma ChainSetsEveryRequestedField(b: SessionBuilder, c: Class, date: Ticks, minutes: int, code: string, now: Ticks)
    ensures var x := SetActive(SetQRCodeExpiration(SetSessionDate(SetClass(b, c), date), minutes, code, now), true).session;
            && x.classId == c.id && x.sessionDate == date && x.qrCode == code
            && x.qrCodeExpiresAt == now + Minutes(minutes) && x.isActive
            && AgreeExcept(b.session, x, {ClassIdField, SessionDateField, QRCodeField, ExpiresAtField, ActiveField})
  {
    var b1 := SetClass(b, c);
    var b2 := SetSessionDate(b1, date);
    var b3 := SetQRCodeExpiration(b2, minutes, code, now);
    var b4 := SetActive(b3, true);
    forall f | f !in {ClassIdField, SessionDateField, QRCodeField, ExpiresAtField, ActiveField}
      ensures AgreeOn(b.session, b4.session, f)
    {
      assert AgreeOn(b.session, b1.session, f) && AgreeOn(b1.session, b2.session, f);
      assert AgreeOn(b2.session, b3.session, f) && AgreeOn(b3.session, b4.session, f);
    }
  }
}
