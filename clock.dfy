/**
  UTC date-times as the pipeline's datetime objects hold them: a day number
  and the time-of-day fields. Adding or subtracting a duration goes through
  the absolute count of microseconds, as a timedelta does.
*/
module Clock {

  const MicrosPerSecond: int := 1_000_000
  const MicrosPerHour: int := 3_600_000_000
  const MicrosPerDay: int := 86_400_000_000

  /** `day` counts whole days from a fixed UTC midnight (it may be negative). */
  datatype DateTime = DateTime(day: int, hour: int, minute: int, second: int, micro: int)
  {
    predicate Valid()
    {
      0 <= hour < 24 && 0 <= minute < 60 && 0 <= second < 60 && 0 <= micro < 1_000_000
    }
  }

  type Moment = t: DateTime | t.Valid() witness DateTime(0, 0, 0, 0, 0)

  /** Microseconds elapsed since the epoch midnight. */
  function ToMicros(t: Moment): int
  {
    (((t.day * 24 + t.hour) * 60 + t.minute) * 60 + t.second) * 1_000_000 + t.micro
  }

  /** The date-time that lies `x` microseconds after the epoch midnight. */
  function FromMicros(x: int): (t: Moment)
    ensures ToMicros(t) == x
  {
    var s := x / 1_000_000;
    var m := s / 60;
    var h := m / 60;
    DateTime(h / 24, h % 24, m % 60, s % 60, x % 1_000_000)
  }

  /** Reading a date-time as microseconds and back gives the same fields. */
  lemma {:induction false} FromToMicros(t: Moment)
    ensures FromMicros(ToMicros(t)) == t
  {
    var x := ToMicros(t);
    var s := ((t.day * 24 + t.hour) * 60 + t.minute) * 60 + t.second;
    assert x / 1_000_000 == s && x % 1_000_000 == t.micro;
    var m := (t.day * 24 + t.hour) * 60 + t.minute;
    assert s / 60 == m && s % 60 == t.second;
    var h := t.day * 24 + t.hour;
    assert m / 60 == h && m % 60 == t.minute;
    assert h / 24 == t.day && h % 24 == t.hour;
  }

  /** `t - timedelta(hours=n)`. */
  function HoursBefore(t: Moment, n: int): (r: Moment)
    ensures ToMicros(r) == ToMicros(t) - n * MicrosPerHour
  {
    FromMicros(ToMicros(t) - n * MicrosPerHour)
  }
}
