# Relay site core, modelled in Dafny

This project models the data-shaping core of a running club's relay web
site and its schedule checker:

- **Relay GeoJSON processing** (`processRelayGeoJSON`). The features of a relay are split into legs (LineString) and exchanges (Point). Each list is then stably sorted by its start exchange or its id.
- **Time formatting** (`formatDuration`, `formatPace`). The functions take a window of the ISO clock text `HH:MM:SS.sss`. A fraction of a second is rounded up when milliseconds are not shown. Leading zeros can be trimmed.
- **The schedule table** (`createScheduleTable`). Rows are placed by leg number. Start times cascade in place on the row objects. Each runner's first leg is recorded. The finish cell shows the last start plus the last leg's running time and the hand-off allowance.
- **The GPX export** (`relayToGPX`), as the sequence of track points and waypoints it writes. Also the id stamping of `createLegDetailsTable`.
- **The countdown arithmetic**: days, hours, minutes and seconds by floor division.
- **The lap table** (`LapTable.addResultsDetails`): the derivation loop, the average and direction-tally bottom calcs, and the group header.
- **The schedule checker** (`check-schedules.py`). It holds a warning flag and printed lines. It walks the entries and phases of a parsed schedule, including Python's `in`, `[]` and iteration on values of the wrong type. It also builds the route-id set.
- **The relay map's geometry and highlight state** (`RelayMap.js`):
  - the bounds fold;
  - the leg labels at the middle coordinate;
  - the exchange layers' zoom ranges;
  - `highlightLeg`, and the leg-click and popup-close handlers.

JavaScript numbers are modelled as `Finite(real)`, the two infinities and
`NaN`. Truncation toward zero, the sign-of-dividend `%` and IEEE division
are written out (`JsValues`). Clock values are integers of milliseconds.

## Model

| member | source | states |
|---|---|---|
| RelayGeoJson.ProcessRelayGeoJson | js/common.js:207-243 | Legs are the LineString features and exchanges the Point features, each in input order and then sorted by the comparator's key. Both results are FeatureCollections. |
| RelayGeoJson.Partition | js/common.js:210-216 | Each LineString occurs in the legs exactly as often as in the input, and each Point in the exchanges. No other feature lands in either list. The legs, the exchanges and the dropped features together make up the input. |
| RelayGeoJson.LineStringsCount | js/common.js:211-212 | The multiplicity of a feature among the legs is its multiplicity in the input if it is a LineString, and 0 otherwise. |
| RelayGeoJson.PointsCount | js/common.js:213-214 | The same for Points among the exchanges. |
| RelayGeoJson.PartsMakeWhole | js/common.js:210-216 | Legs plus exchanges plus the features of other geometry types form the input multiset. |
| RelayGeoJson.Compare | js/common.js:218-231 | The comparator returns -1, 0 or 1 exactly as the keys compare less, equal or greater. |
| RelayGeoJson.Insert | js/common.js:218-231 | Stable insertion adds exactly one copy of the element (multiset) and keeps a sorted list sorted. |
| RelayGeoJson.SortBy | js/common.js:218-231 | The sort's result is a permutation of its input and is ordered non-decreasingly by the key. |
| RelayGeoJson.InsertWithKey | js/common.js:218-231 | Inserting x keeps the relative order of the elements sharing any one key, and puts x before the later elements with its key. |
| RelayGeoJson.SortByStable | js/common.js:218-231 | For every key value, the elements with that key appear in the sorted list in their input order (a stable sort). |
| RelayGeoJson.ProcessRelayGeoJsonResult | js/common.js:207-243 | Both results are stated on the input alone: each is sorted, is a permutation of the features of its geometry type, and keeps ties in input order. |
| RelayGeoJson.PartsHaveTheirGeometry | js/common.js:210-216 | Every feature of the legs result is a LineString and every feature of the exchanges result is a Point. |
| TimeFormat.ClockOf | js/common.js:3-4 | The clock fields are in range and recompose the time of day (the value modulo a day). |
| TimeFormat.ClockString | js/common.js:9 | The time-of-day part of the ISO text has 12 characters. |
| TimeFormat.TrimLeadingZeros | js/common.js:9 | `replace(/^0+/, '')` leaves no leading '0'. The input is the result preceded by exactly the removed zeros. |
| TimeFormat.TrimThenPad | js/common.js:9 | Padding the trimmed text with zeros back to its width gives the original, so trimming loses no information. |
| TimeFormat.FormatDuration | js/common.js:13-47 | A non-finite input gives "". The untrimmed result has 5 characters, plus 2 with hours and plus 2 with milliseconds. A trimmed result is empty or does not start with '0'. |
| TimeFormat.DurationClock | js/common.js:19-31 | For a non-negative time the clock is non-negative. Without milliseconds it is a whole number of seconds. |
| TimeFormat.DurationRoundsUp | js/common.js:21-28 | Without milliseconds, a positive fraction of a second sets the clock to a whole second strictly between x and x + 1 seconds. |
| TimeFormat.DurationKeepsMilliseconds | js/common.js:29-31 | With milliseconds shown, or for a whole number, the clock holds x truncated to the millisecond. |
| TimeFormat.WholeSecondsRoundedUp | js/common.js:21-31 | Without milliseconds, the clock's whole seconds are x rounded up. |
| TimeFormat.FormatDurationReadsBack | js/common.js:13-47 | With `includeHours`, `includeMilliseconds` and `trimLeadingZeros` all false, every x from 0 to 3599 gives "MM:SS", which reads back as x rounded up to a whole second. |
| TimeFormat.FormatDurationWithHoursReadsBack | js/common.js:36-38 | With `includeHours`, "H:MM:SS" reads back as x rounded up for x below ten hours. Only the last hour digit is shown. |
| TimeFormat.FormatDurationTenthsReadsBack | js/common.js:39-41 | With `includeMilliseconds`, "MM:SS.d" reads back as x truncated to a tenth of a second. |
| TimeFormat.MinutesSecondsWindow | js/common.js:33-34 | The "MM:SS" window shows the seconds of the clock within its hour. |
| TimeFormat.HoursMinutesSecondsWindow | js/common.js:36-38 | The window starting at index 12 shows the seconds of the day modulo ten hours. |
| TimeFormat.TenthsWindow | js/common.js:39-41 | The "MM:SS.d" window shows the clock in tenths of a second. |
| TimeFormat.FormatPace | js/common.js:2-11 | The result ends with the unit. A non-finite input makes an invalid Date, whose `toISOString` throws a RangeError. |
| TimeFormat.FormatPaceReadsBack | js/common.js:2-11 | With its zeros put back, the pace text reads back as the whole seconds of x: "MM:SS" up to an hour, "H:MM:SS" from just above an hour to ten hours. |
| TimeFormat.ExampleDuration | js/common.js:13-47 | 125 seconds gives "02:05", and "0:02:05" with hours. |
| TimeFormat.ExampleDurationRoundsUp | js/common.js:21-28 | 125.3 seconds gives "02:06". |
| TimeFormat.ExamplePace | js/common.js:2-11 | `formatPace(75)` gives "1:15 /mi". |
| Schedule.CreateScheduleTable | js/common.js:245-257 | The first-leg table is `FirstLegs` and the rows sit in the slots of `Placement`. The returned `updated` counts the rows given a start time, and each of them holds `StartTime`. The outcome is a TypeError when slot 0 or a later slot is empty. Every other row is unchanged. |
| Schedule.PlaceRows | js/common.js:246-253 | The first loop builds exactly `FirstLegs` and `Placement`. The array length is the larger of the schedule's length and one past the largest leg number. |
| Schedule.RecordRunners | js/common.js:249-251 | The inner loop records each runner of the row as the smaller of its recorded leg and this row's leg. |
| Schedule.Cascade | js/common.js:254-257 | Slot 0 receives the event start. Each later slot receives the previous start plus its own pace times distance plus four minutes, until the first empty slot. Later slots are unchanged. |
| Schedule.CascadeStep | js/common.js:256 | One iteration writes only slot i, with the value `StartTime` gives it. |
| Schedule.Placement | js/common.js:252 | Each slot holds a row of the schedule whose leg number is that slot. |
| Schedule.RecordAt | js/common.js:249-251 | A runner is recorded after a row iff it was recorded before or runs in the row. Its value is the minimum. |
| Schedule.FirstLegIsMinimum | js/common.js:246-251 | A runner has a first leg iff it occurs in some row. The first leg is at most every leg the runner runs, and is one of them. |
| Schedule.PlacementIsLastRow | js/common.js:252 | A slot is filled iff some row carries its leg number, and it holds the last such row. |
| Schedule.StartTimeIgnoresFirstRow | js/common.js:255-257 | Start times depend only on the running times of rows 1..i, never on row 0's pace or distance. |
| Schedule.StartTimeClosedForm | js/common.js:254-257 | With whole-millisecond running times, start time i is the event start plus the running times of rows 1..i plus i hand-offs. |
| Schedule.StartTimesAdvance | js/common.js:255-257 | With non-negative running times, each start is at least four minutes after the previous one. |
| Schedule.ExampleSecondStart | js/common.js:256 | A second leg of 1 mile at 8 s per mile (in the source's units) starts 248000 ms after the first. |
| Schedule.HoursMinutesReadsBack | js/common.js:262 | The "HH:MM" text reads back as the local clock's hours and minutes. |
| Schedule.FinishTime | js/common.js:258-263 | An empty table gives no finish. Otherwise the finish is the "HH:MM" of the last row's start plus its running time plus four minutes. |
| Schedule.FinishAfterCascade | js/common.js:258-263 | After the cascade, the finish instant is the event start, plus the running times of rows 1..n-1, plus the last row's running time a second time, plus n hand-offs. Row 0's running time never counts. |
| Gpx.RelayToGpx | js/common.js:64-81 | The loops emit exactly `TrackPoints(legs)` and `Waypoints(exchanges)`. |
| Gpx.PointsOf | js/common.js:68-75 | One track point per coordinate, in order. |
| Gpx.TrackPointAt | js/common.js:66-76 | Point number (coordinates of earlier legs + j) is coordinate j of leg i. |
| Gpx.TrackPointCount | js/common.js:66-76 | There are exactly as many track points as coordinates over all legs. |
| Gpx.ElevationCount | js/common.js:69-73 | The number of track points with an `<ele>` equals the number of three-component coordinates. |
| Gpx.PathElevations | js/common.js:69-73 | Along one leg, the points with an elevation are exactly its three-component coordinates. |
| Gpx.WithElevationAppend | js/common.js:66-76 | Counting elevations distributes over concatenation. |
| Gpx.WaypointAt | js/common.js:78-81 | Waypoint i is exchange i's coordinates and name. |
| Gpx.WaypointCount | js/common.js:78-81 | There is exactly one waypoint per exchange. |
| Gpx.ExampleMixedElevation | js/common.js:69-73 | A three-component coordinate followed by a two-component one gives one point with an elevation and one without. |
| Gpx.StampLegIds | js/common.js:312-317 | Every leg up to the first one with a missing exchange gets id = start exchange + 1 in place, including the leg that throws. The `data` list the loop builds, and never reads, is those properties; the outcome is a TypeError iff some leg's exchange is missing. |
| Gpx.FirstUnmatched | js/common.js:316 | The first leg whose start or end exchange is out of range. Every earlier leg finds both. |
| Gpx.PropertiesOf | js/common.js:313-315 | The rows are the legs' own properties objects, in order. |
| Gpx.FirstUnmatchedAt | js/common.js:316 | A leg at or before the first unmatched one is the first unmatched one iff it misses an exchange. |
| Gpx.StampedRows | js/common.js:312-316 | When every leg finds its exchanges, each row's id is its start exchange + 1 and nothing else changes. |
| Countdown.FloorDiv | js/common.js:148-151 | `Math.floor(a / b)` is the q with q·b ≤ a < q·b + b. |
| Countdown.Decompose | js/common.js:146-151 | For time left ≥ 0, days, hours (< 24), minutes (< 60) and seconds (< 60) recompose the time to within a second. For a past target, days < 0 and the other fields are between -24 or -60 and 0. |
| Countdown.DecomposeNonNegative | js/common.js:148-151 | The JavaScript remainders give the fields, which with the leftover milliseconds recompose the time exactly. |
| Countdown.DecomposeExact | js/common.js:148-151 | Decomposing a time built from in-range fields gives those fields back. |
| Countdown.JustAfterTarget | js/common.js:146-192 | One millisecond after the target, the countdown is finished and every field shows -1. |
| LapTable.AddResultsDetails | js/dm24/LapTable.js:32-59 | The loop produces exactly the rows of `Laps`, one per lap time, with the running totals it accumulates. |
| LapTable.Laps | js/dm24/LapTable.js:37-59 | There is one record per lap time. |
| LapTable.TimeElapsedSteps | js/dm24/LapTable.js:34-52 | Record i has n = i + 1 and its own lap time. Its elapsed time is the previous record's plus its lap, and the first lap's own time for i = 0. |
| LapTable.LapFlags | js/dm24/LapTable.js:38-57 | `extra` holds iff i > lapTarget. Lap 0 has no direction, and a later lap is "CCW" iff its `lapClockwise` entry is truthy. The distance is the lap length, or undefined past the array. |
| LapTable.DistanceElapsedIsSum | js/dm24/LapTable.js:35-41 | The elapsed distance is the sum of the lap lengths while they last, and NaN from the first lap without one. |
| LapTable.PaceIdentities | js/dm24/LapTable.js:39-55 | pace = d/t, paceMi = 1609.34·t/d and paceKm = 1000·t/d for non-zero values. The zero cases give the IEEE infinities and zero. |
| LapTable.ExtraLaps | js/dm24/LapTable.js:56 | The number of extra rows among the first n is n minus min(max(lapTarget + 1, 0), n). |
| LapTable.TimeAverage | js/dm24/LapTable.js:82-88 | No values give "". Otherwise the result is the 7-character "MM:SS.d" of the mean. |
| LapTable.TimeAverageReadsBack | js/dm24/LapTable.js:82-88 | The mean lies between the bounds of the values, and the text reads back as the mean truncated to a tenth of a second. |
| LapTable.SumBounds | js/dm24/LapTable.js:86 | The sum of n values in [lo, hi] lies in [n·lo, n·hi]. |
| LapTable.PaceAverage | js/dm24/LapTable.js:94-100 | No values give "". Otherwise the result is formatted iff every value is finite, and a RangeError otherwise. |
| LapTable.NumberSumFinite | js/dm24/LapTable.js:98 | The JavaScript sum is finite iff every term is. |
| LapTable.NumberSumLifted | js/dm24/LapTable.js:98 | Over finite paces, the JavaScript sum is the exact sum of the reals. |
| LapTable.PaceAverageIsMean | js/dm24/LapTable.js:94-100 | Over a non-empty column of finite paces, the result is formatPace of their arithmetic mean, with no unit. |
| LapTable.MeanBounds | js/dm24/LapTable.js:98 | The mean of values in [lo, hi] lies in [lo, hi]. |
| LapTable.PaceReadsBack | js/dm24/LapTable.js:99 | For 0 <= x < 36000, formatPace(x, "") succeeds. Padded to "MM:SS" it reads back as x truncated to whole seconds, modulo an hour, for x up to an hour. Padded to "H:MM:SS" it reads back as x truncated, above an hour. |
| LapTable.PaceAverageReadsBack | js/dm24/LapTable.js:94-100 | For finite paces in [lo, hi] with 0 <= lo and hi < 36000, the mean lies in [lo, hi] and the result reads back as the mean truncated to whole seconds, as for PaceReadsBack. |
| LapTable.DirectionTally | js/dm24/LapTable.js:120-126 | No values give []. Otherwise the result is [count of "CCW", count of "CW"], with nulls skipped. |
| LapTable.TallyCounts | js/dm24/LapTable.js:124 | The reduce adds the count of each direction to its seed. |
| LapTable.PresentCounts | js/dm24/LapTable.js:124 | Filtering out the nulls keeps every direction's count. |
| LapTable.CountInAppend | js/dm24/LapTable.js:124 | Counts add over concatenation. |
| LapTable.CountFront | js/dm24/LapTable.js:124 | The count of a list is its front element's contribution plus the rest's. |
| LapTable.Directions | js/dm24/LapTable.js:117 | The column values are the records' directions, in order. |
| LapTable.DirectionTallyOfLaps | js/dm24/LapTable.js:42-126 | Over a runner's laps the two tallies add up to one less than the number of laps: only the entrance lap has no direction. |
| LapTable.CountsCoverPresent | js/dm24/LapTable.js:120-126 | When only the first value is null, the counts of the first n values add up to n - 1. |
| LapTable.GroupHeader | js/dm24/LapTable.js:134-141 | The header is "" exactly for the group of non-extra laps. |
| LapTable.GroupHeaderReadsBack | js/dm24/LapTable.js:136 | The extra group's header is "Extra Laps (", the count in decimal, and ")". |
| CheckSchedules.Checker.constructor | _bin/check-schedules.py:4 | The flag starts false with nothing printed. |
| CheckSchedules.Checker.Warn | _bin/check-schedules.py:5-8 | `warn` sets the flag and prints exactly one line "WARNING! msg". |
| CheckSchedules.Checker.WarnSchedule | _bin/check-schedules.py:10-11 | `warn_sc` prints exactly "WARNING! schedule path: msg". |
| CheckSchedules.Checker.CheckPhases | _bin/check-schedules.py:22-29 | The phase loop prints exactly the lines of `PhaseReport` for its phases and stops at the first exception. The flag remains true iff something was printed. |
| CheckSchedules.Checker.CheckEntry | _bin/check-schedules.py:17-29 | One entry prints the lines of `EntryReport`. |
| CheckSchedules.Checker.CheckEntries | _bin/check-schedules.py:17-29 | The entry loop prints the entries' lines in order and stops at the first exception. |
| CheckSchedules.Checker.CheckSchedule | _bin/check-schedules.py:13-29 | `check_schedule` on a parsed schedule prints the lines of `ScheduleReport`, and raises where Python would. |
| CheckSchedules.Checker.CheckAll | _bin/check-schedules.py:34-35 | The loop of `main` over the schedules. |
| CheckSchedules.Checker.Run | _bin/check-schedules.py:31-35 | `main` builds the route ids, then checks every schedule. The flag is true iff some warning was printed. |
| CheckSchedules.EntryWithoutPlan | _bin/check-schedules.py:18-20 | An entry without 'plan' prints exactly one "missing plan" warning, and its phases are not looked at. |
| CheckSchedules.PhaseWithoutRouteId | _bin/check-schedules.py:23 | A phase without 'route_id' prints nothing. |
| CheckSchedules.PhaseRouteId | _bin/check-schedules.py:23-29 | A non-string route id prints exactly one "route_id must be a string" warning. A string id prints nothing iff it is a known route, and otherwise prints one "unknown route_id" warning naming it. |
| CheckSchedules.PhaseWarnings | _bin/check-schedules.py:8-11 | Every line a phase prints is "WARNING! schedule path: msg". |
| CheckSchedules.EntryWarnings | _bin/check-schedules.py:8-11 | The same for an entry. |
| CheckSchedules.ScheduleWarnings | _bin/check-schedules.py:8-11 | The same for a whole schedule. |
| CheckSchedules.SequenceWarnings | _bin/check-schedules.py:17-29 | A loop whose every step prints only warnings prints only warnings. |
| CheckSchedules.WellFormedCompletes | _bin/check-schedules.py:17-29 | A schedule that is a list of mappings, whose plans are lists of mappings, is checked without an exception. |
| CheckSchedules.SequenceCompletes | _bin/check-schedules.py:17-29 | A loop whose steps all complete completes. |
| CheckSchedules.StopsAt | _bin/check-schedules.py:17-29 | An exception in some step ends the loop there. |
| CheckSchedules.SequenceAppend | _bin/check-schedules.py:17-29 | Running two lists of items one after the other prints the lines of both. |
| CheckSchedules.SequenceStep | _bin/check-schedules.py:17-29 | One more completed step adds that step's lines. |
| CheckSchedules.IdList | _bin/check-schedules.py:33 | The list comprehension gives each route's 'id' in order, or the first route's error. |
| CheckSchedules.RouteIds | _bin/check-schedules.py:33 | `route_ids` is exactly the set of the routes' 'id' values. It is a KeyError when a route mapping lacks 'id', and an error when an id is unhashable. |
| CheckSchedules.Iterate | _bin/check-schedules.py:17-22 | Iterating a list gives its items. A mapping gives its keys and a string its characters. Anything else is a TypeError. |
| CheckSchedules.Contains | _bin/check-schedules.py:18-23 | `key in v` on a mapping is key membership. On a non-container it is a TypeError. |
| CheckSchedules.GetItem | _bin/check-schedules.py:22-24 | `v[key]` succeeds iff v is a mapping with the key. A missing key is a KeyError and a non-mapping a TypeError. |
| CheckSchedules.Lookup | _bin/check-schedules.py:24 | The value stored under the key, or a KeyError. |
| RelayMap.RelayBounds | js/RelayMap.js:62-64 | No legs give a TypeError (`legsData[0]` is undefined). |
| RelayMap.RelayBoundsSpans | js/RelayMap.js:62-64 | The bounds are the box spanned exactly by all coordinates of all legs: it contains each one, and each edge is reached by one. When every leg is empty there is no box. |
| RelayMap.LegsBoundsAre | js/RelayMap.js:62-64 | The outer fold over the legs gives the bounds of everything seen so far together with all the legs' coordinates. |
| RelayMap.PathBoundsExtends | js/RelayMap.js:62-63 | The inner fold over one leg's coordinates extends the bounds so far to cover them too. |
| RelayMap.ExtendSpans | js/RelayMap.js:63 | `extend` with one more coordinate gives the box spanned by all of them. |
| RelayMap.Extend | js/RelayMap.js:63 | The extended box contains the new coordinate. |
| RelayMap.AllCoordinates | js/RelayMap.js:62 | Every coordinate of every leg is LngLatLike. |
| RelayMap.LegLabels | js/RelayMap.js:111-125 | One label per leg, in order. Each sits at the middle coordinate and copies the leg's id and sequence. |
| RelayMap.MidPoint | js/RelayMap.js:113 | An empty path has no middle coordinate. |
| RelayMap.MidPointIsMiddle | js/RelayMap.js:113 | The middle index has as many coordinates after it as before, or one fewer. |
| RelayMap.ExchangeLayers | js/RelayMap.js:161-227 | Station codes: the circle stops at zoom 12 and the station-code layer starts there. Otherwise: the circle runs to 24 and the id layer starts at 9. The name layer always starts at 12. |
| RelayMap.StationCodesTakeOver | js/RelayMap.js:165-188 | With station codes, exactly one of the circle and the badge is drawn at every zoom. |
| RelayMap.PlainExchangeLayers | js/RelayMap.js:165-227 | Without station codes the circle is always drawn and the id label from zoom 9. The names are drawn from zoom 12. |
| RelayMap.Highlighted | js/RelayMap.js:22-40 | A legId ≥ 0 becomes selected. Every rendered feature with another id becomes unselected. No other entry changes, and no other key appears. |
| RelayMap.RelayMapState.HighlightLeg | js/RelayMap.js:22-40 | The loop leaves exactly the state of `Highlighted` and touches nothing else. |
| RelayMap.RelayMapState.OnLegClick | js/RelayMap.js:294-324 | An empty path throws before the popup. Otherwise the popup is anchored at the leg box's east edge and vertical centre. It throws next unless the popup's HTML holds an `elevation-profile` element. The description from common.js holds one only when the leg's notes or an exchange name carry one. Only then is the elevation data set to the first input leg with the clicked id, or a TypeError raised when there is none; then that leg is highlighted. |
| RelayMap.RelayMapState.OnPopupClose | js/RelayMap.js:309-313 | Closing clears the highlight of every rendered leg and resets the active leg. |
| RelayMap.RelayMapState.constructor | js/RelayMap.js:292-293 | No state, no popup and no active leg at first. |
| RelayMap.FirstWithId | js/RelayMap.js:319 | The first leg with the id, or none iff no leg has it. |
| RelayMap.PopupAnchor | js/RelayMap.js:297-306 | The clicked leg's box is the one its coordinates span, and the anchor's latitude lies inside it. |
| RelayMap.HighlightIsExclusive | js/RelayMap.js:22-40 | Among the rendered features only the highlighted leg is selected. -1 deselects every rendered leg with a non-negative id. |
| RelayMap.HighlightIdempotent | js/RelayMap.js:22-40 | Highlighting the same leg again changes nothing. |
| RelayMap.StaleHighlightRemains | js/RelayMap.js:32-40 | A leg selected earlier that is not rendered now stays selected beside the new one. |

## Left out

- The maplibre-gl calls: sources, layers, paint expressions, `fitBounds`, `redraw`, cursors and images. Rendered features are an input list of ids, and the feature state is a map from id to bool.
- The `mapReady` promise and the component's construction (js/RelayMap.js:17-19, 339 on). The handlers are modelled as if the map were ready. Queued calls, and the order they resolve in, are not modelled.
- Tabulator itself: construction, grouping, sorting, HTML formatters and promise events. The `sum` bottom calcs of the schedule table are left out because they are widget features.
- DOM work and timers: the countdown's element updates, `setInterval`, the plural toggles, `download` and `innerHTML`. Only the arithmetic is kept.
- `Date`'s full range and `TimeClip`, and IEEE rounding of real arithmetic. Reals are exact. The clock text covers only the time of day, which is what every modelled window reads.
- The text of the GPX document: the XML template, the metadata with the current date, and number-to-text conversion. Points and waypoints are emitted as values. `legToGPX` is left out because it reads an undefined `year` and always throws.
- The HTML leg descriptions (`formatLegDescription`) and `toFixed`.
- Gpx.StampLegIds does not model the throw of the local `formatLegDescription` (js/common.js:310) when a leg lacks `distance_mi`, `ascent_ft` or `descent_ft`. That leg is stamped, then stamping stops there. The model's `Properties` have no such fields, so every leg is taken to carry them.
- In check-schedules.py: YAML and file reading, and the route database and schedule paths of the `rcr` module, which is not part of this model. Parsed schedules and routes are inputs, and `print` is the `output` list.
- LapTable.Laps: the model's numbers have no signed zero. A lap of length 0 with a negative time gives `pace` -0 in JavaScript and so `paceMi` -Infinity (js/dm24/LapTable.js:39, 54). The model's division by zero gives +Infinity there. Lap times in real data are never negative.
- Schedule.FinishTime: the local time-zone offset of `toTimeString` is a parameter.
- TimeFormat.DurationClock and TimeFormat.FormatPace take `setSeconds` and `setMilliseconds` on `new Date(0)` (js/common.js:3-4, 19-31) to add whole seconds to the epoch. These setters work on local-time fields. That holds when the zone's offset at the epoch is a whole number of minutes; other historical offsets are not modelled.
- RelayMap.RelayBounds and RelayMap.RelayMapState.OnLegClick require coordinates of 2 or 3 components with a latitude in [-90, 90]. `LngLatBounds.extend` builds a `LngLat` from such a point, and that constructor throws on a latitude outside the range and on NaN. The model's coordinates are reals, so NaN cannot occur, and the throw is not modelled.
- CheckSchedules.Hashable treats lists and mappings as unhashable and every other parsed value as hashable. CheckSchedules.Lookup looks up the first occurrence of a duplicate key in a parsed mapping, and CheckSchedules.Iterate yields it once per occurrence. `yaml.safe_load` keeps the last value and a dict holds each key once, so schedules with duplicate keys are not modelled faithfully.
- Schedule.CreateScheduleTable: a runner named like an `Object.prototype` member (for example "constructor") would start from that member, not from `Number.MAX_VALUE`. Runner names are taken as ordinary keys. Leg numbers are taken as integers.
- The Mapbox request transformer (js/RelayMap.js:5-11) is an external module.
- RelayGeoJson.Key treats `start_exchange` and `id` as integers, and GeoJson.Feature always has a geometry. The model leaves out a missing key, which makes the comparators at js/common.js:218-231 inconsistent and the order implementation-defined. It also leaves out a null geometry, which throws at js/common.js:211.
- RelayMap.RelayMapState.OnLegClick takes whether the popup holds an `elevation-profile` element as a parameter, `profileInPopup`, rather than parsing the description HTML.
- RelayMap.RelayMapState.OnLegClick reads the clicked feature's `id` as its `properties.id`. The legs source promotes that property to the feature id (js/RelayMap.js:105-107), and the promotion itself is not modelled.

## Behaviour worth noting

- `formatDuration(125, true, false)` starts its window at index 12 and shows one hour digit: "0:02:05" (TimeFormat.ExampleDuration).
- Highlighting clears only the rendered leg features. A leg selected earlier and no longer drawn stays selected, so two legs can be selected at once (RelayMap.StaleHighlightRemains).
- The relay bounds are fitted unconditionally, at every zoom (js/RelayMap.js:66-68).
- `processRelayGeoJSON` drops features that are neither LineString nor Point (RelayGeoJson.Partition).
- A truthy `lapClockwise` entry is labelled "CCW".
- The cascade adds leg i's own pace and distance to start time i - 1 (Schedule.StartTimeIgnoresFirstRow). So the finish cell counts the last leg's running time twice and the first leg's never (Schedule.FinishAfterCascade).
- The leg-click handler passes the coordinates to `formatLegDescription`, which ignores them and writes no `elevation-profile` element. The next line's `profile.style` then throws, so the elevation profile, the zoom to the leg and the highlight never happen unless the leg's notes or an exchange name carry that element (RelayMap.RelayMapState.OnLegClick).
- `currentActiveLeg` is only ever reset to null. No code path sets it.
