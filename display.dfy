/** What `displayResults` decides to show for a non-empty overlap: the
    30-minute grid if it has a slot, the 1-hour grid if it has a slot, and the
    "too short" message if neither has; or nothing at all when a zone label
    cannot be built. */
module Display {
  import opened Instants
  import opened Slots

  datatype GridKind = ThirtyMinuteSlots | OneHourSlots

  /** A titled grid appended to the result area. */
  datatype Section = Section(kind: GridKind, slots: seq<Slot>)

  /** Every outcome `calculateOverlap` can render. */
  datatype Outcome =
    | MissingFields          // "Please fill in all fields."
    | NoOverlap              // "No overlapping time available."
    | TooShort               // "Overlap is too short for a 30-min slot."
    | Blank                  // the area was cleared, then a TypeError stopped `displayResults`
    | Sections(sections: seq<Section>)

  /** Each slot is labelled with `zone.split("/")[1]`, which exists only when
      the zone name contains a '/'; otherwise the `.replace` on it throws. */
  predicate HasZoneLabel(zone: string) {
    '/' in zone
  }

  /** The rendering of the overlap `[start, end]` for the two zones, as a value. */
  function Rendering(start: int, end: int, zone1: string, zone2: string): (shown: Outcome) {
    var g30 := Grid(start, end, ThirtyMinutes);
    var g60 := Grid(start, end, SixtyMinutes);
    if g30 == [] && g60 == [] then TooShort
    else if !(HasZoneLabel(zone1) && HasZoneLabel(zone2)) then Blank
    else Sections((if g30 != [] then [Section(ThirtyMinuteSlots, g30)] else []) +
                  (if g60 != [] then [Section(OneHourSlots, g60)] else []))
  }

  /** Both loops and the flags `has30MinSlots`, `has60MinSlots`, `slotsFound`. */
  method DisplayResults(start: int, end: int, zone1: string, zone2: string) returns (outcome: Outcome)
    ensures outcome == Rendering(start, end, zone1, zone2)
  {
    var slotsFound := false;
    var labelled := HasZoneLabel(zone1) && HasZoneLabel(zone2);
    var grid30, has30MinSlots, threw30 := EnumerateSlots(start, end, ThirtyMinutes, labelled);
    if threw30 {
      OneHourImpliesThirty(start, end);
      return Blank;
    }
    var grid60, has60MinSlots, threw60 := EnumerateSlots(start, end, SixtyMinutes, labelled);
    if threw60 {
      OneHourImpliesThirty(start, end);
      return Blank;
    }
    var shown: seq<Section> := [];
    if has30MinSlots {
      slotsFound := true;
      shown := shown + [Section(ThirtyMinuteSlots, grid30)];
    }
    if has60MinSlots {
      slotsFound := true;
      shown := shown + [Section(OneHourSlots, grid60)];
    }
    if !slotsFound {
      outcome := TooShort;
    } else {
      outcome := Sections(shown);
    }
  }

  /** Nothing is shown exactly when a zone name has no '/' and the overlap is
      long enough for a 30-minute slot, so that the first pass of the
      30-minute loop throws. */
  lemma BlankIff(start: int, end: int, zone1: string, zone2: string)
    ensures Rendering(start, end, zone1, zone2) == Blank <==>
            !(HasZoneLabel(zone1) && HasZoneLabel(zone2)) && end - start >= ThirtyMinutes
    ensures Rendering(start, end, zone1, zone2).Sections? <==>
            HasZoneLabel(zone1) && HasZoneLabel(zone2) && end - start >= ThirtyMinutes
  {
    GridAt(start, end, ThirtyMinutes, 0);
    OneHourImpliesThirty(start, end);
  }

  /** The "too short" message appears exactly when the overlap is shorter than 30 minutes. */
  lemma TooShortIff(start: int, end: int, zone1: string, zone2: string)
    ensures Rendering(start, end, zone1, zone2) == TooShort <==> end - start < ThirtyMinutes
  {
    GridAt(start, end, ThirtyMinutes, 0);
    OneHourImpliesThirty(start, end);
  }

  /** A shown result always leads with the 30-minute grid; the 1-hour grid
      follows exactly when the overlap lasts at least an hour. */
  lemma SectionsShape(start: int, end: int, zone1: string, zone2: string)
    requires Rendering(start, end, zone1, zone2).Sections?
    ensures var s := Rendering(start, end, zone1, zone2).sections;
            && 1 <= |s| <= 2
            && s[0] == Section(ThirtyMinuteSlots, Grid(start, end, ThirtyMinutes))
            && (|s| == 2 <==> end - start >= SixtyMinutes)
            && (|s| == 2 ==> s[1] == Section(OneHourSlots, Grid(start, end, SixtyMinutes)))
  {
    OneHourImpliesThirty(start, end);
    GridAt(start, end, SixtyMinutes, 0);
  }

  /** Every slot shown lies inside the overlap. */
  lemma ShownSlotsWithin(start: int, end: int, zone1: string, zone2: string, k: nat, i: nat)
    requires Rendering(start, end, zone1, zone2).Sections?
    requires k < |Rendering(start, end, zone1, zone2).sections|
    requires i < |Rendering(start, end, zone1, zone2).sections[k].slots|
    ensures var slot := Rendering(start, end, zone1, zone2).sections[k].slots[i];
            start <= slot.start < slot.end <= end
  {
    SectionsShape(start, end, zone1, zone2);
    if k == 0 {
      GridWithin(start, end, ThirtyMinutes, i);
    } else {
      GridWithin(start, end, SixtyMinutes, i);
    }
  }

  /** A one-hour overlap between zones that both have labels shows two
      30-minute slots and then one 1-hour slot. */
  lemma OneHourRendering(start: int, zone1: string, zone2: string)
    requires HasZoneLabel(zone1) && HasZoneLabel(zone2)
    ensures Rendering(start, start + SixtyMinutes, zone1, zone2) ==
            Sections([Section(ThirtyMinuteSlots, [Slot(start, start + ThirtyMinutes), Slot(start + ThirtyMinutes, start + SixtyMinutes)]),
                      Section(OneHourSlots, [Slot(start, start + SixtyMinutes)])])
  {
    OneHourExample(start);
  }
}
