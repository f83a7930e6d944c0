/** A `Semester` and its "is this the current semester" predicate. */
module Semesters {
  import opened Base

  datatype Semester = Semester(
    id: int,
    name: string,
    startDate: Ticks,
    endDate: Ticks,
    isActive: bool,
    createdAt: Ticks)

  /** `IsCurrentSemester()`, with the clock reading passed in: inclusive at both ends. */
  predicate IsCurrentSemester(s: Semester, now: Ticks)
  {
    now >= s.startDate && now <= s.endDate && s.isActive
  }

  /** An inactive semester is never current. */
  lemma InactiveNeverCurrent(s: Semester, now: Ticks)
    requires !s.isActive
    ensures !IsCurrentSemester(s, now)
  {
  }

  /** A semester that ends before it starts is never current. */
  lemma InvertedNeverCurrent(s: Semester, now: Ticks)
    requires s.startDate > s.endDate
    ensures !IsCurrentSemester(s, now)
  {
  }

  /** An active semester is current on its first and on its last instant. */
  lemma CurrentAtBothEnds(s: Semester)
    requires s.isActive && s.startDate <= s.endDate
    ensures IsCurrentSemester(s, s.startDate) && IsCurrentSemester(s, s.endDate)
  {
  }

  /** The set of instants at which a semester is current is an interval:
      current at two instants means current at every instant between them. */
  lemma CurrentIsConvex(s: Semester, t1: Ticks, t: Ticks, t2: Ticks)
    requires t1 <= t <= t2
    requires IsCurrentSemester(s, t1) && IsCurrentSemester(s, t2)
    ensures IsCurrentSemester(s, t)
  {
  }
}
