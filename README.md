# Timeslot overlap finder: scheduling arithmetic

This project models the core of the timeslot overlap finder's `assets/site.js` and proves properties of it. The core finds when two people's daily working windows overlap and lists bookable meeting slots inside that overlap. Each person gives an `HH:MM` start, an `HH:MM` end and a time zone.

`calculateOverlap` works in five steps:
1. It parses the four wall-clock times against today's date.
2. It shifts each person's two endpoints by that person's zone offset.
3. If an end falls before its start, it moves that end one day later (a window that crosses midnight).
4. It intersects the two windows with `Math.max` and `Math.min`.
5. It shows "no overlap" unless `overlapStart < overlapEnd`.

`displayResults` then runs two cursor loops over the overlap:
- The first emits 30-minute slots.
- The second emits 1-hour slots.
- Both cursors advance by 30 minutes, so the 1-hour slots form a sliding window.
- The flags `has30MinSlots`, `has60MinSlots` and `slotsFound` decide what is shown: the grids, or the "too short" message.
- Each slot is labelled with `zone.split("/")[1]`. For a zone name without a '/' (such as "UTC") that part is undefined, and the `.replace` on it throws. The throw happens in the first pass of the 30-minute loop, after the result area was cleared, so nothing is shown. The model has the outcome `Blank` for this.

All instants are integer milliseconds, as the `Date` values of the source are.

Modules, one per component:
- `Instants` (instants.dfy): the constants, wall-clock values, intervals, and the parse of `HH:MM` against the current date as `today + (h*60+m)*60000`.
- `Overlap` (overlap.dfy): one person's window (offset plus midnight correction), the intersection, and the emptiness test.
- `Slots` (slots.dfy): the slot loop as a method, the unrolled grid as its specification, and lemmas about the grid.
- `Display` (display.dfy): the flags and the choice of what to show.
- `Calculate` (calculate.dfy): `calculateOverlap` end to end, as a method proved against a specification function.

The host supplies two things, and both are parameters:
- `today` is the host's local midnight of the current UTC date: the date comes from `toISOString()` and is then parsed as a local date-time.
- `offsetOf: string -> int` is `getOffset`, one fixed offset per zone, added to both of that person's endpoints.

## Model

| member | source | states |
|---|---|---|
| `Instants.MinutesOfDay` | assets/site.js:47-50 | a wall-clock value `HH:MM` is a minute of the day in `[0, 1440)` |
| `Instants.ParseLocal` | assets/site.js:45-50 | parsing `HH:MM` against today gives an instant within the day starting at `today`, on a whole minute |
| `Instants.MinutesOfDayInjective` | assets/site.js:47-50 | two wall-clock values have the same minute of the day only if they are equal |
| `Instants.ParseLocalDifference` | assets/site.js:47-50 | two parsed instants differ by exactly the difference of their minutes of the day, in milliseconds |
| `Instants.ParseLocalMonotone` | assets/site.js:47-50 | parsing keeps the order of wall-clock times and sends distinct times to distinct instants |
| `Overlap.WallSpan` | assets/site.js:64-72 | the forward wall-clock distance from start to end, wrapping at midnight, lies in `[0, 1440)` minutes |
| `Overlap.PersonWindow` | assets/site.js:64-72 | a person's corrected window starts at the parsed start plus the offset, ends no earlier than it starts and less than a day later, and lasts exactly the wrapped wall-clock span |
| `Overlap.MidnightCorrection` | assets/site.js:64-72 | the midnight test fires exactly when the wall-clock end is earlier than the start; it then moves the end by exactly one day, and otherwise leaves the end unchanged |
| `Overlap.Intersect` | assets/site.js:74-75 | the start is the larger of the two starts and the end the smaller of the two ends |
| `Overlap.IntersectIsCommonPart` | assets/site.js:74-75 | an instant is in the intersection exactly when it is in both windows |
| `Overlap.OverlapOf` | assets/site.js:74-81 | an overlap is reported exactly when each window starts before the other ends and both are non-empty; a reported overlap is non-empty and lies inside both windows |
| `Overlap.OverlapSymmetric` | assets/site.js:74-77 | swapping the two windows gives the same overlap |
| `Overlap.OverlapNonEmptyIff` | assets/site.js:74-81 | an overlap is reported exactly when some instant lies in both half-open windows; every interval inside both windows lies inside the reported overlap |
| `Slots.EnumerateSlots` | assets/site.js:100-167 | the cursor loop returns exactly the unrolled grid, and its found flag is set exactly when the grid has a slot; when a zone label is missing it throws exactly when the grid has a slot, before appending anything |
| `Slots.GridAt` | assets/site.js:103-105 | slot `i` is `[start + i*30min, start + i*30min + duration]`, and index `i` is present exactly when that slot ends by the overlap's end |
| `Slots.GridCount` | assets/site.js:103-130 | there are no slots when the overlap is shorter than the duration, otherwise `floor((len - duration)/30min) + 1` |
| `Slots.GridWithin` | assets/site.js:103-105 | every slot lies inside `[start, end]` and lasts exactly its duration |
| `Slots.GridStep` | assets/site.js:130-166 | consecutive slot starts are exactly 30 minutes apart in both loops (site.js lines 130 and 166) |
| `Slots.ThirtyMinuteGrid` | assets/site.js:100-131 | 30-minute slots are contiguous, and there are `floor(len/30min)` of them |
| `Slots.OneHourGrid` | assets/site.js:136-167 | each 1-hour slot overlaps the next by 30 minutes; there are none under an hour, otherwise `floor((len - 60min)/30min) + 1` |
| `Slots.OneHourImpliesThirty` | assets/site.js:103-140 | whenever a 1-hour slot is emitted, a 30-minute slot is emitted too |
| `Slots.NinetyMinuteExample` | assets/site.js:136-167 | a 90-minute overlap gives exactly two 1-hour slots, at +0 and +30 minutes |
| `Slots.OneHourExample` | assets/site.js:100-167 | a one-hour overlap gives two contiguous 30-minute slots and exactly one 1-hour slot |
| `Display.DisplayResults` | assets/site.js:85-190 | the two loops, the three flags and the zone-label throw produce exactly the specified rendering of the overlap for the two zones |
| `Display.BlankIff` | assets/site.js:86-128 | nothing is shown exactly when a zone name has no '/' and the overlap lasts at least 30 minutes; grids are shown exactly when both names have a '/' and the overlap lasts at least 30 minutes |
| `Display.TooShortIff` | assets/site.js:170-189 | the "too short" message is shown exactly when the overlap is shorter than 30 minutes |
| `Display.SectionsShape` | assets/site.js:170-184 | a shown result always starts with the 30-minute grid; the 1-hour grid follows exactly when the overlap lasts at least an hour |
| `Display.ShownSlotsWithin` | assets/site.js:103-167 | every slot shown lies inside the overlap and ends after it starts |
| `Display.OneHourRendering` | assets/site.js:170-184 | a one-hour overlap between labelled zones shows the 30-minute grid of two slots, then the 1-hour grid of one slot |
| `Calculate.CalculateOverlap` | assets/site.js:32-82 | the imperative steps, with the end instants corrected in place, give exactly the specified outcome |
| `Calculate.EvaluateSymmetric` | assets/site.js:74-77 | swapping person 1 and person 2 gives the same model outcome: the same overlap and the same slot instants |
| `Calculate.EvaluateCases` | assets/site.js:74-81 | a complete form gets "no overlap" exactly when the corrected windows share no instant; otherwise what is shown is the rendering of `[max(starts), min(ends)]`, which lies inside both windows |
| `Calculate.MidnightExample` | assets/site.js:69-72 | a 22:00-02:00 window ends on the next day, four hours after it starts |
| `Calculate.DisjointExample` | assets/site.js:77-81 | UTC windows 09:00-11:00 and 12:00-14:00 get "no overlap" |
| `Calculate.SlashlessZoneExample` | assets/site.js:122-128 | with zone "UTC" and an 8-hour overlap, the label throws and nothing is shown |
| `Calculate.SevenHourApartExample` | assets/site.js:32-190 | two 09:00-17:00 windows in labelled zones with offsets -2h and +5h overlap from today+14h to today+15h and show two 30-minute slots and one 1-hour slot |
| `Calculate.StockholmChicagoExample` | assets/site.js:32-190 | Stockholm (UTC+2) and Chicago (UTC-5), both 09:00-17:00, overlap for one hour; this shows two 30-minute slots and one 1-hour slot |

## Behaviour worth noting

- A 90-minute overlap gives two 1-hour slots, starting at +0 and +30 minutes. The 1-hour loop runs only while `cur + 60min <= end` (assets/site.js:139), so a slot at +60 would end after the overlap and is never emitted (`Slots.NinetyMinuteExample`).
- Stockholm (UTC+2) and Chicago (UTC-5), both 09:00-17:00, overlap from `today`+14h to `today`+15h (14:00-15:00 UTC on a host in UTC). On any other host every computed instant, and so every displayed local time, is off by minus the host's UTC offset, because the times are parsed in the host's zone, while `getOffset`, a difference of two host-local parses, does not depend on the host; the existence of the overlap, its length and the slot counts do not depend on the host. That one hour shows two 30-minute slots and one 1-hour slot (`Calculate.StockholmChicagoExample`).
- `getOffset` reads each zone's offset at the current moment (`new Date()`, assets/site.js:53), not at the wall-clock times being converted. The model therefore uses one offset per person for both endpoints.

## Left out

- DOM lookups, `innerHTML` writes, element creation and event wiring in `init` are presentation and I/O. The outcome is a value (`Display.Outcome`) standing for the message, the titled grids shown, or the empty area.
- `populateTimezones` and `Intl.supportedValuesOf` are a platform call plus UI.
- The body of `getOffset` depends on `toLocaleString` and the platform's zone data. It is the parameter `offsetOf`, which need not be consistent with any real zone.
- `new Date().toISOString()` and parsing `${today}T${HH:MM}:00` depend on the host clock and the host's own zone. They are the parameter `today` plus the minutes of the day. Every instant is therefore shifted by minus the host's UTC offset relative to what the zone names suggest; intersections, lengths and slot counts are unaffected. This is exact only when the host zone's offset does not change on that date. On a daylight-saving day in the host's zone, times after the change would parse one hour off; the model does not capture that.
- Malformed time strings, which would give an invalid `Date`, are not modelled. The time inputs produce `HH:MM` values only (hour 0-23, minute 0-59). An empty field is `""` or `None`.
- `setDate(getDate() + 1)` can move an instant by 23 or 25 hours across a daylight-saving change in the host's zone. It is modelled as exactly 24 hours.
- `toLocaleTimeString` formatting of each slot in each zone is foreign formatting. Slots are kept as instants.
- The text of the zone label (`tz.split("/")[1]` with `_` turned into spaces) is not modelled. Only whether it exists is, because a missing label throws (`Display.Outcome.Blank`).
- An uncaught exception is modelled only by its visible effect, the empty result area. The error reported to the browser console is not modelled.
