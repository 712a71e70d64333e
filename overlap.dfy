/** The interval arithmetic of `calculateOverlap`: zone offsets, the
    midnight correction, and the max/min intersection with its emptiness test. */
module Overlap {
  import opened Instants

  /** The number of wall-clock minutes from `s` forward to `e`, wrapping past midnight. */
  function WallSpan(s: WallClock, e: WallClock): (m: int)
    ensures 0 <= m < MinutesPerDay
  {
    (MinutesOfDay(e) - MinutesOfDay(s)) % MinutesPerDay
  }

  /** The span is the plain difference on the same day, one day more across midnight. */
  lemma WallSpanCases(s: WallClock, e: WallClock)
    ensures MinutesOfDay(s) <= MinutesOfDay(e) ==> WallSpan(s, e) == MinutesOfDay(e) - MinutesOfDay(s)
    ensures MinutesOfDay(e) < MinutesOfDay(s) ==> WallSpan(s, e) == MinutesOfDay(e) - MinutesOfDay(s) + MinutesPerDay
  {
    ModOneDay(MinutesOfDay(e) - MinutesOfDay(s));
  }

  lemma ModOneDay(d: int)
    requires -MinutesPerDay < d < MinutesPerDay
    ensures d % MinutesPerDay == if d < 0 then d + MinutesPerDay else d
  {
    if d < 0 {
      assert d == MinutesPerDay * -1 + (d + MinutesPerDay);
    }
  }

  /** A wrapped minute difference in milliseconds: the plain difference on the
      same day, one day more across midnight. */
  lemma ScaledWrap(d: int)
    requires -MinutesPerDay < d < MinutesPerDay
    ensures d < 0 <==> d * MinuteMs < 0
    ensures d % MinutesPerDay * MinuteMs == if d < 0 then d * MinuteMs + DayMs else d * MinuteMs
  {
    ModOneDay(d);
  }

  /** One person's working window as absolute instants: both endpoints are
      parsed against `today`, shifted by the person's zone offset, and an end
      that falls before the start is moved one day later. */
  function PersonWindow(today: int, offset: int, s: WallClock, e: WallClock): (w: Interval)
    ensures w.start == ParseLocal(today, s) + offset
    ensures w.start <= w.end < w.start + DayMs
    ensures w.end - w.start == WallSpan(s, e) * MinuteMs
  {
    var start := ParseLocal(today, s) + offset;
    var end := ParseLocal(today, e) + offset;
    var d := MinutesOfDay(e) - MinutesOfDay(s);
    ParseLocalDifference(today, e, s);
    ScaledWrap(d);
    Interval(start, if end < start then end + DayMs else end)
  }

  /** The midnight test compares instants, but since one offset is added to
      both endpoints it fires exactly when the wall-clock end is earlier than the
      wall-clock start; the correction then moves the end by exactly one day and
      otherwise leaves it alone. */
  lemma MidnightCorrection(today: int, offset: int, s: WallClock, e: WallClock)
    ensures var start := ParseLocal(today, s) + offset;
            var end := ParseLocal(today, e) + offset;
            && (end < start <==> MinutesOfDay(e) < MinutesOfDay(s))
            && (end < start ==> PersonWindow(today, offset, s, e).end == end + DayMs)
            && (start <= end ==> PersonWindow(today, offset, s, e).end == end)
  {
    ParseLocalMonotone(today, e, s);
  }

  /** `Math.max` of the starts and `Math.min` of the ends. */
  function Intersect(a: Interval, b: Interval): (r: Interval)
    ensures r.start >= a.start && r.start >= b.start
    ensures r.start == a.start || r.start == b.start
    ensures r.end <= a.end && r.end <= b.end
    ensures r.end == a.end || r.end == b.end
  {
    Interval(if a.start > b.start then a.start else b.start,
             if a.end < b.end then a.end else b.end)
  }

  /** The intersection holds exactly the instants both intervals hold. */
  lemma IntersectIsCommonPart(a: Interval, b: Interval, t: int)
    ensures Contains(Intersect(a, b), t) <==> Contains(a, t) && Contains(b, t)
  {
  }

  /** The overlap of two windows, reported only when `overlapStart < overlapEnd`. */
  function OverlapOf(w1: Interval, w2: Interval): (r: Option<Interval>)
    ensures r.Some? <==> w1.start < w2.end && w2.start < w1.end && w1.start < w1.end && w2.start < w2.end
    ensures r.Some? ==> r.value.start < r.value.end && Within(r.value, w1) && Within(r.value, w2)
  {
    var iv := Intersect(w1, w2);
    if iv.start < iv.end then Some(iv) else None
  }

  /** Swapping the two people gives the same overlap. */
  lemma OverlapSymmetric(w1: Interval, w2: Interval)
    ensures OverlapOf(w1, w2) == OverlapOf(w2, w1)
  {
  }

  /** The overlap is non-empty exactly when some instant lies strictly inside
      both half-open windows, and then it is `[max(starts), min(ends)]`, the
      largest interval inside both. */
  lemma OverlapNonEmptyIff(w1: Interval, w2: Interval)
    ensures OverlapOf(w1, w2).Some? <==>
            exists t :: InHalfOpen(w1, t) && InHalfOpen(w2, t)
    ensures forall iv: Interval :: Within(iv, w1) && Within(iv, w2) && OverlapOf(w1, w2).Some? ==>
            Within(iv, OverlapOf(w1, w2).value)
  {
    var iv := Intersect(w1, w2);
    if iv.start < iv.end {
      assert InHalfOpen(w1, iv.start) && InHalfOpen(w2, iv.start);
    }
  }
}
