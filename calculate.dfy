/** `calculateOverlap` end to end: the six form fields, the zone-offset
    oracle and the current date in; the rendered outcome out. */
module Calculate {
  import opened Instants
  import opened Overlap
  import opened Slots
  import opened Display

  /** A zone identifier as the selects hold it, e.g. "Europe/Stockholm". */
  type ZoneId = string

  /** The six inputs; an empty field is "" or None. */
  datatype Form = Form(zone1: ZoneId, zone2: ZoneId,
                       start1: Option<WallClock>, end1: Option<WallClock>,
                       start2: Option<WallClock>, end2: Option<WallClock>)

  predicate Complete(f: Form) {
    f.zone1 != "" && f.zone2 != "" &&
    f.start1.Some? && f.end1.Some? && f.start2.Some? && f.end2.Some?
  }

  /** The same form with person 1 and person 2 exchanged. */
  function Swap(f: Form): (g: Form) {
    Form(f.zone2, f.zone1, f.start2, f.end2, f.start1, f.end1)
  }

  /** What `calculateOverlap` shows, as a function of its inputs: `today` is the
      host's local midnight of the current UTC date and `offsetOf` is `getOffset`. */
  function Evaluate(f: Form, today: int, offsetOf: ZoneId -> int): (shown: Outcome) {
    if !Complete(f) then MissingFields
    else
      var w1 := PersonWindow(today, offsetOf(f.zone1), f.start1.value, f.end1.value);
      var w2 := PersonWindow(today, offsetOf(f.zone2), f.start2.value, f.end2.value);
      match OverlapOf(w1, w2)
      case None => NoOverlap
      case Some(iv) => Rendering(iv.start, iv.end, f.zone1, f.zone2)
  }

  /** The steps of `calculateOverlap`, with the end instants corrected in place. */
  method CalculateOverlap(f: Form, today: int, offsetOf: ZoneId -> int) returns (outcome: Outcome)
    ensures outcome == Evaluate(f, today, offsetOf)
  {
    if !Complete(f) {
      return MissingFields;
    }
    var p1StartUTC := ParseLocal(today, f.start1.value);
    var p1EndUTC := ParseLocal(today, f.end1.value);
    var p2StartUTC := ParseLocal(today, f.start2.value);
    var p2EndUTC := ParseLocal(today, f.end2.value);

    var offset1 := offsetOf(f.zone1);
    var offset2 := offsetOf(f.zone2);

    var p1StartTrueUTC := p1StartUTC + offset1;
    var p1EndTrueUTC := p1EndUTC + offset1;
    var p2StartTrueUTC := p2StartUTC + offset2;
    var p2EndTrueUTC := p2EndUTC + offset2;

    if p1EndTrueUTC < p1StartTrueUTC {
      p1EndTrueUTC := p1EndTrueUTC + DayMs;
    }
    if p2EndTrueUTC < p2StartTrueUTC {
      p2EndTrueUTC := p2EndTrueUTC + DayMs;
    }

    ghost var w1 := PersonWindow(today, offset1, f.start1.value, f.end1.value);
    ghost var w2 := PersonWindow(today, offset2, f.start2.value, f.end2.value);
    assert w1 == Interval(p1StartTrueUTC, p1EndTrueUTC);
    assert w2 == Interval(p2StartTrueUTC, p2EndTrueUTC);

    var overlapStart := if p1StartTrueUTC > p2StartTrueUTC then p1StartTrueUTC else p2StartTrueUTC;
    var overlapEnd := if p1EndTrueUTC < p2EndTrueUTC then p1EndTrueUTC else p2EndTrueUTC;
    assert Intersect(w1, w2) == Interval(overlapStart, overlapEnd);

    if overlapStart < overlapEnd {
      outcome := DisplayResults(overlapStart, overlapEnd, f.zone1, f.zone2);
    } else {
      outcome := NoOverlap;
    }
  }

  /** Exchanging the two people gives the same outcome in the model: the same
      overlap and the same slot instants. (The page would also exchange the two
      people's local-time spans within each slot, which is not modelled.) */
  lemma EvaluateSymmetric(f: Form, today: int, offsetOf: ZoneId -> int)
    ensures Evaluate(Swap(f), today, offsetOf) == Evaluate(f, today, offsetOf)
  {
    if Complete(f) {
      OverlapSymmetric(PersonWindow(today, offsetOf(f.zone1), f.start1.value, f.end1.value),
                       PersonWindow(today, offsetOf(f.zone2), f.start2.value, f.end2.value));
    }
  }

  /** A complete form is answered "no overlap" exactly when the corrected
      windows share no instant, and is otherwise answered from the overlap
      `[max(starts), min(ends)]`, which lies inside both windows. */
  lemma EvaluateCases(f: Form, today: int, offsetOf: ZoneId -> int)
    requires Complete(f)
    ensures var w1 := PersonWindow(today, offsetOf(f.zone1), f.start1.value, f.end1.value);
            var w2 := PersonWindow(today, offsetOf(f.zone2), f.start2.value, f.end2.value);
            && (Evaluate(f, today, offsetOf) == NoOverlap <==>
                !exists t :: InHalfOpen(w1, t) && InHalfOpen(w2, t))
            && (Evaluate(f, today, offsetOf) != NoOverlap ==>
                var iv := Intersect(w1, w2);
                && Within(iv, w1) && Within(iv, w2)
                && Evaluate(f, today, offsetOf) == Rendering(iv.start, iv.end, f.zone1, f.zone2))
  {
    var w1 := PersonWindow(today, offsetOf(f.zone1), f.start1.value, f.end1.value);
    var w2 := PersonWindow(today, offsetOf(f.zone2), f.start2.value, f.end2.value);
    OverlapNonEmptyIff(w1, w2);
    var iv := Intersect(w1, w2);
    if iv.start < iv.end {
      TooShortIff(iv.start, iv.end, f.zone1, f.zone2);
    }
  }

  /** A window from 22:00 to 02:00 ends on the following day, four hours after it starts. */
  lemma MidnightExample(today: int, offset: int)
    ensures var w := PersonWindow(today, offset, WallClock(22, 0), WallClock(2, 0));
            && w.start == today + 22 * SixtyMinutes + offset
            && w.end == today + DayMs + 2 * SixtyMinutes + offset
            && w.end - w.start == 4 * SixtyMinutes
  {
    MidnightCorrection(today, offset, WallClock(22, 0), WallClock(2, 0));
  }

  /** Two UTC windows 09:00-11:00 and 12:00-14:00 do not overlap. */
  lemma DisjointExample(today: int, offsetOf: ZoneId -> int)
    requires offsetOf("UTC") == 0
    ensures Evaluate(Form("UTC", "UTC", Some(WallClock(9, 0)), Some(WallClock(11, 0)),
                          Some(WallClock(12, 0)), Some(WallClock(14, 0))), today, offsetOf) == NoOverlap
  {
    var w1 := PersonWindow(today, offsetOf("UTC"), WallClock(9, 0), WallClock(11, 0));
    var w2 := PersonWindow(today, offsetOf("UTC"), WallClock(12, 0), WallClock(14, 0));
    assert OverlapOf(w1, w2) == None by {
      MidnightCorrection(today, 0, WallClock(9, 0), WallClock(11, 0));
      assert w1.end == today + 11 * SixtyMinutes && w2.start == today + 12 * SixtyMinutes;
    }
  }

  /** Two 09:00-17:00 windows in zones whose offsets are -2h and +5h (what
      `getOffset` gives for UTC+2 and UTC-5) overlap from today+14h to
      today+15h, which shows two 30-minute slots and one 1-hour slot. */
  lemma SevenHourApartExample(today: int, offsetOf: ZoneId -> int, zone1: ZoneId, zone2: ZoneId)
    requires HasZoneLabel(zone1) && HasZoneLabel(zone2)
    requires offsetOf(zone1) == -2 * SixtyMinutes
    requires offsetOf(zone2) == 5 * SixtyMinutes
    ensures var s := today + 14 * SixtyMinutes;
            Evaluate(Form(zone1, zone2, Some(WallClock(9, 0)), Some(WallClock(17, 0)),
                          Some(WallClock(9, 0)), Some(WallClock(17, 0))), today, offsetOf) ==
            Sections([Section(ThirtyMinuteSlots, [Slot(s, s + ThirtyMinutes), Slot(s + ThirtyMinutes, s + SixtyMinutes)]),
                      Section(OneHourSlots, [Slot(s, s + SixtyMinutes)])])
  {
    var s := today + 14 * SixtyMinutes;
    var nine, five := WallClock(9, 0), WallClock(17, 0);
    assert PersonWindow(today, offsetOf(zone1), nine, five) == Interval(today + 7 * SixtyMinutes, s + SixtyMinutes) by {
      MidnightCorrection(today, offsetOf(zone1), nine, five);
    }
    assert PersonWindow(today, offsetOf(zone2), nine, five) == Interval(s, today + 22 * SixtyMinutes) by {
      MidnightCorrection(today, offsetOf(zone2), nine, five);
    }
    OneHourRendering(s, zone1, zone2);
  }

  /** Stockholm (UTC+2) and Chicago (UTC-5), both 09:00-17:00: a one-hour
      overlap that shows two 30-minute slots and one 1-hour slot. */
  lemma StockholmChicagoExample(today: int, offsetOf: ZoneId -> int)
    requires offsetOf("Europe/Stockholm") == -2 * SixtyMinutes
    requires offsetOf("America/Chicago") == 5 * SixtyMinutes
    ensures var s := today + 14 * SixtyMinutes;
            Evaluate(Form("Europe/Stockholm", "America/Chicago",
                          Some(WallClock(9, 0)), Some(WallClock(17, 0)),
                          Some(WallClock(9, 0)), Some(WallClock(17, 0))), today, offsetOf) ==
            Sections([Section(ThirtyMinuteSlots, [Slot(s, s + ThirtyMinutes), Slot(s + ThirtyMinutes, s + SixtyMinutes)]),
                      Section(OneHourSlots, [Slot(s, s + SixtyMinutes)])])
  {
    assert "Europe/Stockholm"[6] == '/' && "America/Chicago"[7] == '/';
    SevenHourApartExample(today, offsetOf, "Europe/Stockholm", "America/Chicago");
  }

  /** A zone name without a '/', such as "UTC", has no label: with an
      overlap of at least 30 minutes the first slot's label throws, and the
      cleared result area stays empty. */
  lemma SlashlessZoneExample(today: int, offsetOf: ZoneId -> int)
    requires offsetOf("UTC") == 0
    requires offsetOf("Europe/London") == 0
    ensures Evaluate(Form("UTC", "Europe/London", Some(WallClock(9, 0)), Some(WallClock(17, 0)),
                          Some(WallClock(9, 0)), Some(WallClock(17, 0))), today, offsetOf) == Blank
  {
    var w := PersonWindow(today, 0, WallClock(9, 0), WallClock(17, 0));
    assert w == Interval(today + 9 * SixtyMinutes, today + 17 * SixtyMinutes);
    assert !HasZoneLabel("UTC");
    BlankIff(w.start, w.end, "UTC", "Europe/London");
  }
}
