/** The slot loops of `displayResults`: starting at the overlap's start, emit
    `[cur, cur + duration]` while it fits and advance the cursor by 30 minutes,
    whatever the duration. */
module Slots {
  import opened Instants

  datatype Slot = Slot(start: int, end: int)

  /** The slots the loop emits from cursor `cur` on, unrolled. The step is
      always 30 minutes (assets/site.js:130 and 166). */
  function Grid(cur: int, end: int, duration: int): (slots: seq<Slot>)
    decreases end - cur - duration
  {
    if cur + duration <= end then [Slot(cur, cur + duration)] + Grid(cur + ThirtyMinutes, end, duration)
    else []
  }

  /** The loop as written: a cursor, a found flag and a growing grid. Each pass
      builds the slot's labels; `labelled` says whether both zone labels exist.
      When one does not, the first pass throws (`threw`) and the loop stops
      there without appending anything. */
  method EnumerateSlots(start: int, end: int, duration: int, labelled: bool)
    returns (grid: seq<Slot>, found: bool, threw: bool)
    ensures threw <==> !labelled && Grid(start, end, duration) != []
    ensures threw ==> grid == []
    ensures !threw ==> grid == Grid(start, end, duration)
    ensures found <==> Grid(start, end, duration) != []
  {
    var current := start;
    grid := [];
    found := false;
    threw := false;
    while current + duration <= end
      invariant grid + Grid(current, end, duration) == Grid(start, end, duration)
      invariant found <==> grid != []
      invariant !labelled ==> grid == [] && current == start
      decreases end - current - duration
    {
      found := true;
      if !labelled {
        threw := true;
        break;
      }
      grid := grid + [Slot(current, current + duration)];
      current := current + ThirtyMinutes;
    }
  }

  /** An independent description of the grid: slot `i` starts `i` half-hours
      after the start, and index `i` is present exactly when that slot fits. */
  lemma {:induction false} GridAt(cur: int, end: int, duration: int, i: nat)
    ensures i < |Grid(cur, end, duration)| <==> cur + i * ThirtyMinutes + duration <= end
    ensures i < |Grid(cur, end, duration)| ==>
            Grid(cur, end, duration)[i] == Slot(cur + i * ThirtyMinutes, cur + i * ThirtyMinutes + duration)
    decreases end - cur - duration
  {
    if cur + duration <= end && i > 0 {
      GridAt(cur + ThirtyMinutes, end, duration, i - 1);
    } else if cur + duration > end && i > 0 {
      assert cur + i * ThirtyMinutes + duration > end;
    }
  }

  /** The number of slots: none when the interval is shorter than one slot,
      otherwise one plus the number of extra half-hours that still fit. */
  lemma {:induction false} GridCount(cur: int, end: int, duration: int)
    ensures |Grid(cur, end, duration)| ==
            if end - cur < duration then 0 else (end - cur - duration) / ThirtyMinutes + 1
    decreases end - cur - duration
  {
    if cur + duration <= end {
      GridCount(cur + ThirtyMinutes, end, duration);
    }
  }

  /** Every slot lies inside `[start, end]` and lasts `duration`. */
  lemma GridWithin(start: int, end: int, duration: int, i: nat)
    requires i < |Grid(start, end, duration)|
    ensures start <= Grid(start, end, duration)[i].start
    ensures Grid(start, end, duration)[i].end <= end
    ensures Grid(start, end, duration)[i].end - Grid(start, end, duration)[i].start == duration
  {
    GridAt(start, end, duration, i);
  }

  /** Consecutive slot starts are 30 minutes apart. */
  lemma GridStep(start: int, end: int, duration: int, i: nat)
    requires i + 1 < |Grid(start, end, duration)|
    ensures Grid(start, end, duration)[i + 1].start == Grid(start, end, duration)[i].start + ThirtyMinutes
    ensures Grid(start, end, duration)[i].end - Grid(start, end, duration)[i + 1].start == duration - ThirtyMinutes
  {
    GridAt(start, end, duration, i);
    GridAt(start, end, duration, i + 1);
  }

  /** 30-minute slots are contiguous and there are `floor(len / 30min)` of them. */
  lemma ThirtyMinuteGrid(start: int, end: int)
    requires start <= end
    ensures |Grid(start, end, ThirtyMinutes)| == (end - start) / ThirtyMinutes
    ensures forall i :: 0 <= i < |Grid(start, end, ThirtyMinutes)| - 1 ==>
              Grid(start, end, ThirtyMinutes)[i].end == Grid(start, end, ThirtyMinutes)[i + 1].start
  {
    GridCount(start, end, ThirtyMinutes);
    forall i | 0 <= i < |Grid(start, end, ThirtyMinutes)| - 1
      ensures Grid(start, end, ThirtyMinutes)[i].end == Grid(start, end, ThirtyMinutes)[i + 1].start
    {
      GridStep(start, end, ThirtyMinutes, i);
    }
  }

  /** 1-hour slots form a sliding window: each overlaps the next by 30 minutes,
      and there are none under an hour, else `floor((len - 60min) / 30min) + 1`. */
  lemma OneHourGrid(start: int, end: int)
    ensures |Grid(start, end, SixtyMinutes)| ==
            if end - start < SixtyMinutes then 0 else (end - start - SixtyMinutes) / ThirtyMinutes + 1
    ensures forall i :: 0 <= i < |Grid(start, end, SixtyMinutes)| - 1 ==>
              Grid(start, end, SixtyMinutes)[i].end - Grid(start, end, SixtyMinutes)[i + 1].start == ThirtyMinutes
  {
    GridCount(start, end, SixtyMinutes);
    forall i | 0 <= i < |Grid(start, end, SixtyMinutes)| - 1
      ensures Grid(start, end, SixtyMinutes)[i].end - Grid(start, end, SixtyMinutes)[i + 1].start == ThirtyMinutes
    {
      GridStep(start, end, SixtyMinutes, i);
    }
  }

  /** Whenever a 1-hour slot fits, so does a 30-minute one. */
  lemma OneHourImpliesThirty(start: int, end: int)
    ensures Grid(start, end, SixtyMinutes) != [] ==> Grid(start, end, ThirtyMinutes) != []
  {
    GridAt(start, end, SixtyMinutes, 0);
    GridAt(start, end, ThirtyMinutes, 0);
  }

  /** A 90-minute overlap yields two 1-hour slots, at +0 and +30 minutes: a
      third one at +60 would end after the overlap. */
  lemma NinetyMinuteExample(start: int)
    ensures Grid(start, start + 90 * MinuteMs, SixtyMinutes) ==
            [Slot(start, start + SixtyMinutes), Slot(start + ThirtyMinutes, start + ThirtyMinutes + SixtyMinutes)]
  {
    var g := Grid(start, start + 90 * MinuteMs, SixtyMinutes);
    GridCount(start, start + 90 * MinuteMs, SixtyMinutes);
    GridAt(start, start + 90 * MinuteMs, SixtyMinutes, 0);
    GridAt(start, start + 90 * MinuteMs, SixtyMinutes, 1);
  }

  /** A one-hour overlap yields two contiguous 30-minute slots and a single 1-hour slot. */
  lemma OneHourExample(start: int)
    ensures Grid(start, start + SixtyMinutes, ThirtyMinutes) ==
            [Slot(start, start + ThirtyMinutes), Slot(start + ThirtyMinutes, start + SixtyMinutes)]
    ensures Grid(start, start + SixtyMinutes, SixtyMinutes) == [Slot(start, start + SixtyMinutes)]
  {
    var end := start + SixtyMinutes;
    assert Grid(start + SixtyMinutes, end, ThirtyMinutes) == [];
    assert Grid(start + ThirtyMinutes, end, ThirtyMinutes) == [Slot(start + ThirtyMinutes, end)];
    assert Grid(start + ThirtyMinutes, end, SixtyMinutes) == [];
  }
}
