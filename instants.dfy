/** Instants, wall-clock times and intervals, all as integer milliseconds.
    A JavaScript `Date` is modelled by the millisecond count it wraps. */
module Instants {

  datatype Option<T> = None | Some(value: T)

  const MinuteMs: int := 60 * 1000
  const ThirtyMinutes: int := 30 * MinuteMs
  const SixtyMinutes: int := 60 * MinuteMs
  /** One calendar day as `setDate(getDate() + 1)` is modelled: 24 hours. */
  const DayMs: int := 24 * 60 * MinuteMs
  const MinutesPerDay: int := 24 * 60

  type Hour = h: int | 0 <= h < 24
  type Minute = m: int | 0 <= m < 60

  /** A value of an `HH:MM` time input: no date, no zone. */
  datatype WallClock = WallClock(hour: Hour, minute: Minute)

  /** An interval of instants; `start < end` is checked by the caller where it matters. */
  datatype Interval = Interval(start: int, end: int)

  predicate Contains(iv: Interval, t: int) {
    iv.start <= t <= iv.end
  }

  /** `t` lies in the half-open interval `[start, end)`. */
  predicate InHalfOpen(iv: Interval, t: int) {
    iv.start <= t < iv.end
  }

  predicate Within(inner: Interval, outer: Interval) {
    outer.start <= inner.start && inner.end <= outer.end
  }

  function MinutesOfDay(w: WallClock): (r: int)
    ensures 0 <= r < MinutesPerDay
  {
    w.hour * 60 + w.minute
  }

  /** The instant of `new Date(`${today}T${HH:MM}:00`)`. The date string is
      the current date in UTC (`toISOString`), but it is parsed as a date-time
      in the host's own zone, so `today` is the host's local midnight of the
      current UTC date. */
  function ParseLocal(today: int, w: WallClock): (t: int)
    ensures today <= t < today + DayMs
    ensures (t - today) % MinuteMs == 0
  {
    today + MinutesOfDay(w) * MinuteMs
  }

  /** The minute of the day determines the wall-clock value. */
  lemma MinutesOfDayInjective(a: WallClock, b: WallClock)
    ensures MinutesOfDay(a) == MinutesOfDay(b) <==> a == b
  {
    var m, n := MinutesOfDay(a), MinutesOfDay(b);
    assert m / 60 == a.hour && m % 60 == a.minute;
    assert n / 60 == b.hour && n % 60 == b.minute;
  }

  /** Two parsed instants differ by the difference of their minutes of the day. */
  lemma ParseLocalDifference(today: int, a: WallClock, b: WallClock)
    ensures ParseLocal(today, a) - ParseLocal(today, b) == (MinutesOfDay(a) - MinutesOfDay(b)) * MinuteMs
  {
    var m, n := MinutesOfDay(a), MinutesOfDay(b);
    assert m * MinuteMs - n * MinuteMs == (m - n) * MinuteMs;
  }

  /** Distinct wall-clock values parse to distinct instants, in the same order. */
  lemma ParseLocalMonotone(today: int, a: WallClock, b: WallClock)
    ensures ParseLocal(today, a) < ParseLocal(today, b) <==> MinutesOfDay(a) < MinutesOfDay(b)
    ensures ParseLocal(today, a) == ParseLocal(today, b) <==> a == b
  {
    MinutesOfDayInjective(a, b);
    ParseLocalDifference(today, a, b);
  }
}
