/** An `Attendance` record: the outcome of one student for one session. */
module Attendances {
  import opened Base

  /** `AttendanceStatus`, with the underlying values the database stores. */
  datatype AttendanceStatus = Present | Absent | Late | Excused

  /** The integer a status is persisted as (the enum's declaration order). */
  function StatusValue(st: AttendanceStatus): (n: int)
    ensures 0 <= n < 4
  {
    match st
    case Present => 0
    case Absent => 1
    case Late => 2
    case Excused => 3
  }

  /** Reading a stored integer back as a status; `None` outside the four declared values. */
  function StatusFromValue(n: int): (r: Option<AttendanceStatus>)
    ensures r.Some? <==> 0 <= n < 4
  {
    if n == 0 then Some(Present)
    else if n == 1 then Some(Absent)
    else if n == 2 then Some(Late)
    else if n == 3 then Some(Excused)
    else None
  }

  /** The status enum has exactly four values, and storing then reading a status
      gives it back: the stored integer identifies the status. */
  lemma StatusValueRoundTrip(st: AttendanceStatus)
    ensures StatusFromValue(StatusValue(st)) == Some(st)
    ensures st == Present || st == Absent || st == Late || st == Excused
  {
  }

  datatype Attendance = Attendance(
    id: int,
    sessionId: int,
    studentId: string,
    status: AttendanceStatus,
    checkInTime: Option<Ticks>,
    notes: Option<string>,
    createdAt: Ticks)

  /** A record as `new Attendance()` leaves it: status `Absent`, no check-in time. */
  function NewAttendance(createdAt: Ticks): (r: Attendance)
    ensures r.status == Absent && r.checkInTime.None? && r.notes.None?
    ensures r.createdAt == createdAt
  {
    Attendance(0, 0, "", Absent, None, None, createdAt)
  }

  /** The default late threshold of `IsLate`, in minutes. */
  const DefaultLateThresholdMinutes: int := 15

  /** `IsLate(classStartTime, lateThresholdMinutes)`: checked in, and the
      check-in's time of day is strictly after the class start plus the threshold. */
  predicate IsLate(a: Attendance, classStartTime: Ticks, lateThresholdMinutes: int)
  {
    match a.checkInTime
    case None => false
    case Some(t) => TimeOfDay(t) > classStartTime + Minutes(lateThresholdMinutes)
  }

  /** A record without a check-in time is never late. */
  lemma NotLateWithoutCheckIn(a: Attendance, classStartTime: Ticks, lateThresholdMinutes: int)
    requires a.checkInTime.None?
    ensures !IsLate(a, classStartTime, lateThresholdMinutes)
  {
  }

  /** A check-in exactly at the threshold is not late; one tick after it is. */
  lemma ThresholdIsExclusive(a: Attendance, classStartTime: Ticks, lateThresholdMinutes: int)
    requires a.checkInTime.Some?
    ensures TimeOfDay(a.checkInTime.value) == classStartTime + Minutes(lateThresholdMinutes) ==>
              !IsLate(a, classStartTime, lateThresholdMinutes)
    ensures TimeOfDay(a.checkInTime.value) == classStartTime + Minutes(lateThresholdMinutes) + 1 ==>
              IsLate(a, classStartTime, lateThresholdMinutes)
  {
  }

  /** When the class start plus the threshold reaches midnight or later, nobody is
      ever late, because a time of day is always less than one day. */
  lemma NeverLatePastMidnight(a: Attendance, classStartTime: Ticks, lateThresholdMinutes: int)
    requires classStartTime + Minutes(lateThresholdMinutes) >= TicksPerDay
    ensures !IsLate(a, classStartTime, lateThresholdMinutes)
  {
  }

  /** Raising the threshold can only turn "late" into "not late", never the reverse. */
  lemma RaisingThresholdOnlyClearsLate(a: Attendance, classStartTime: Ticks, lower: int, higher: int)
    requires lower <= higher
    ensures IsLate(a, classStartTime, higher) ==> IsLate(a, classStartTime, lower)
  {
  }
}
