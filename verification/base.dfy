/** Shared vocabulary of the model: optional values, results, and the clock's units.

    The application runs on .NET, where an instant (`DateTime`) and a duration
    (`TimeSpan`) are both counts of 100-nanosecond ticks. The model keeps that
    unit so that comparisons such as "time of day after the class start plus
    fifteen minutes" are stated exactly as the code states them. */
module Base {

  /** A value that may be absent (a C# `null`). */
  datatype Option<+T> = None | Some(value: T)

  /** The outcome of an operation that either succeeds or throws / returns an error. */
  datatype Result<+T, +E> = Ok(value: T) | Err(error: E)

  /** Instants and durations, both in ticks. */
  type Ticks = int

  const TicksPerMinute: int := 600_000_000
  const MinutesPerDay: int := 1440
  const TicksPerDay: int := MinutesPerDay * TicksPerMinute

  /** `TimeSpan.FromMinutes(m)` and `DateTime.AddMinutes(m)` for a whole number of minutes. */
  function Minutes(m: int): Ticks
  {
    m * TicksPerMinute
  }

  /** `DateTime.TimeOfDay`: the ticks elapsed since the instant's own midnight. */
  function TimeOfDay(t: Ticks): (r: Ticks)
    ensures 0 <= r < TicksPerDay
    ensures 0 <= t < TicksPerDay ==> r == t
  {
    t % TicksPerDay
  }

  /** A key for a newly inserted row: positive and larger than every key
      present in the table. A real identity column never hands out a value
      twice, even after the newest row is deleted; this one reuses it. */
  function NextKey<T>(rows: seq<T>, key: T -> int): (r: int)
    ensures r > 0
    ensures forall i :: 0 <= i < |rows| ==> key(rows[i]) < r
  {
    if |rows| == 0 then 1
    else
      var rest := NextKey(rows[1..], key);
      if key(rows[0]) < rest then rest else key(rows[0]) + 1
  }
}
