# Truck tracker: GPS-fix post-processing, modelled in Dafny

This project models the part of the single-vehicle tracker
(`simple_app_fixed.py`) that turns a stream of GPS fixes into derived state.
That state is:

- the in-memory history of fixes;
- the driver record: position, speed, `stopped_since` and `last_position`;
- the legacy `daily_stats` dictionary: miles, sticky start, end and travel time per day;
- the per-day minute series (`daily_<date>` records), including the migration
  of the old `samples_by_minute` format;
- the 5-minute movement classification and its speed estimates;
- the down-sampled journey polyline shown on the map.

Modules, in dependency order:

| file | module | contents |
|---|---|---|
| `geo.dfy` | `Geo` | fixes, points, the distance function, the 90 mph cap, Python `int()`, path length |
| `seqs.dfy` | `Seqs` | list comprehension (`Filter`) and Python's stable sort (`SortBy`), with their laws |
| `history.dfy` | `History` | trimming, the time window, window distance, the persist-due predicate |
| `speed.dfy` | `Speed` | window speed, icon speed, average moving speed, startup speed, segment tests |
| `movement.dfy` | `Movement` | movement status, stopped duration, the `stopped_since` rule |
| `dailystats.dfy` | `DailyStats` | the `daily_stats` entry and the three functions that write it |
| `dailyrecord.dfy` | `DailyRecord` | the minute series, its upsert, daily distance, legacy migration |
| `journey.dfy` | `Journey` | earliest daily start, sampling, journey assembly, day-end and travel-time readings |
| `tracker.dfy` | `Tracking` | the module-level state as a class whose methods update it in place |

Environment dependencies become parameters:

- the haversine distance is a parameter `dist` of type `Metric`, a function
  on points whose only known property is that it is never negative;
- `time.time()` is a parameter `now`;
- `date.fromtimestamp(ts).isoformat()` is a parameter `dayOf`;
- the minute-of-day computation is a parameter `minuteOf(start, ts)`.

Timestamps, coordinates, distances and speeds are `real`. Python truthiness
(`x or y`, `if x:`) is written out as explicit tests against 0.

Choices the model takes from the code exactly as written, where a reader might
expect otherwise:

- **Moving threshold.** The movement status is "moving" only when the window
  distance is strictly above 0.028 miles (`>` at simple_app_fixed.py:1022);
  exactly 0.028 miles reads as stopped.
- **Unknown status.** "Unknown" needs a history of at least two fixes and fewer
  than two fixes inside the window. With fewer than two fixes in the whole
  history, the code returns "stopped" before it looks at the window.
- **Sampling stride.** The journey stride is `len // max_points`, rounded down.
  So the sample can hold up to `2 * max_points - 1` fixes, and
  `Journey.SampleCountBound` proves that bound.
- **Latest point.** The journey ends at a point with the latest *timestamp*.
  The latest fix is appended only when the last sampled point has a different
  timestamp.
- **Travel accrual.** `update_travel_time` is commented "Only count time when
  actually moving", yet a non-moving fix leaves the accrual base in place, so
  the next moving fix is credited the stop as well (see Findings). Stopped time
  is not travel time, so the tracker's `UpdateTravelTime` uses the corrected
  rule.
- **Persist trigger.** `periodic_persist_history` is documented as persisting
  "every 3 points", but it tests the history length modulo 3 (see Findings).

## Model

| member | source | states |
|---|---|---|
| `Geo.IsRealisticSpeed` | simple_app_fixed.py:199-201 | a speed is realistic exactly when it lies in [0, 90] mph; `SpeedOverWindow`, `IconSpeed` and `StartupSpeed` prove their results pass it |
| `Geo.TruncateToInt` | simple_app_fixed.py:1064-1069 | Python `int()` on the stopped duration truncates toward zero: within one of its argument, never farther from 0 |
| `Geo.PathLength` | simple_app_fixed.py:937-948 | summed segment distance of a point list is never negative and is 0 for fewer than two points |
| `Geo.SumSegments` | simple_app_fixed.py:941-948 | the accumulator loop over consecutive pairs computes exactly `PathLength` |
| `Geo.PathLengthAppend` | simple_app_fixed.py:943-947 | appending a point adds exactly the distance from the old last point |
| `Seqs.Filter` | simple_app_fixed.py:933 | a comprehension's result is never longer than its input |
| `Seqs.FilterMembers` | simple_app_fixed.py:933 | the comprehension keeps exactly the elements satisfying the predicate |
| `Seqs.FilterAppend` | simple_app_fixed.py:933 | filtering distributes over concatenation |
| `Seqs.FilterCount` | simple_app_fixed.py:933 | each element keeps its multiplicity when it satisfies the predicate, else drops to 0 |
| `Seqs.FilterAll` | simple_app_fixed.py:1275 | a list whose elements all satisfy the predicate is returned unchanged |
| `Seqs.FilterIdempotent` | simple_app_fixed.py:1275 | filtering twice equals filtering once |
| `Seqs.Insert` | simple_app_fixed.py:934 | inserting one element lengthens the list by one |
| `Seqs.SortBy` | simple_app_fixed.py:934 | the stable sort keeps the length |
| `Seqs.InsertPermutes` | simple_app_fixed.py:934 | insertion adds exactly the element (multiset) |
| `Seqs.InsertSorted` | simple_app_fixed.py:934 | insertion into a sorted list keeps it sorted and starts with the element or the old head |
| `Seqs.InsertAtEnd` | simple_app_fixed.py:503-506 | an element with a key at least as large as every key goes at the end |
| `Seqs.SortBySpec` | simple_app_fixed.py:934 | the sort's output is sorted by the key and is a permutation of the input |
| `Seqs.SortBySorted` | simple_app_fixed.py:506 | sorting an already sorted list returns it unchanged |
| `Seqs.InsertAfterEqualKeys` | simple_app_fixed.py:934 | inserting into a sorted list places the new element after every element of the same key |
| `Seqs.SortByStable` | simple_app_fixed.py:934 | the sort is stable: the elements of any one key come out in their input order |
| `Seqs.SortByAppend` | simple_app_fixed.py:503-506 | sorting a list with an element appended equals inserting that element into the sorted list |
| `Seqs.SortByLastIsMax` | simple_app_fixed.py:1142 | the last element after sorting has the largest key |
| `Seqs.SortByFirstIsMin` | simple_app_fixed.py:1115 | the first element after sorting has the smallest key |
| `Seqs.FilterSorted` | simple_app_fixed.py:933-934 | filtering a sorted list keeps it sorted |
| `History.KeepSince` | simple_app_fixed.py:1271-1275 | the trimmed history; `TrimKeepsExactlyRecent` proves it holds exactly the fixes with `ts >= cutoff`, in order, and is idempotent |
| `History.TrimKeepsExactlyRecent` | simple_app_fixed.py:1271-1275 | trimming keeps exactly the fixes with `ts >= cutoff`, with their multiplicities and in original order (it distributes over any split), and is idempotent |
| `History.WindowPositions` | simple_app_fixed.py:930-935 | the fixes inside the window, sorted by timestamp; `WindowPositionsSpec` proves which fixes they are and their order |
| `History.WindowPositionsSpec` | simple_app_fixed.py:930-935 | the window holds exactly the fixes with `end - window <= ts <= end`, each as often as in the history, sorted by timestamp; on a sorted history it is the plain filter |
| `History.ComputeWindowDistance` | simple_app_fixed.py:937-948 | the loop computes the path length of the window's positions |
| `History.WindowDistanceBounds` | simple_app_fixed.py:937-940 | the window distance is never negative and is 0 when the window holds fewer than two fixes |
| `History.PersistDue` | simple_app_fixed.py:1277-1280 | as written: due exactly when the history length is a multiple of 3; `SteadyWindowIsNeverPersisted` shows a steady window never meets it |
| `History.SteadyWindowIsNeverPersisted` | simple_app_fixed.py:1277-1280 | as written: with a steady one-hour window whose length is not a multiple of 3 after each append, no poll ever persists |
| `History.CountedPersistsEveryThird` | simple_app_fixed.py:1277-1280 | corrected: counting polls since the last flush persists exactly `(carried + polls) / 3` times |
| `Speed.MovingSegmentBounds` | simple_app_fixed.py:910-919 | a counted moving segment has positive duration and a speed strictly above 0.5 mph and at most 90 mph |
| `Speed.SpeedOverWindow` | simple_app_fixed.py:837-870 | `calculate_speed` is always realistic; it is positive only when the window holds two fixes with a positive gap, and then it is the oldest-to-newest distance over that gap; such a ratio is always returned when it is realistic |
| `Speed.SpeedSpikeRejected` | simple_app_fixed.py:862-868 | a window whose end-to-end speed is above 90 mph yields 0 |
| `Speed.IconSpeed` | simple_app_fixed.py:872-890 | the icon speed is the 1-minute speed when positive, else the 5-minute one; it is 0 exactly when both are 0 |
| `Speed.MovingTotals` | simple_app_fixed.py:909-921 | totals over the moving segments are non-negative and their ratio lies strictly above 0.5 mph and at most 90 mph |
| `Speed.MovingStepBounds` | simple_app_fixed.py:918-921 | one accumulator step preserves those bounds |
| `Speed.MovingTotalsAppend` | simple_app_fixed.py:909-921 | a further fix adds its segment only when that segment is moving and realistic |
| `Speed.MovingAverage` | simple_app_fixed.py:892-928 | the average moving speed is 0 under two fixes in the history or in the window; otherwise it is the totals’ ratio when moving time was found, else 0; it is 0 or lies strictly above 0.5 mph and at most 90 mph, so the closing realism test never rejects it |
| `Speed.AverageBounds` | simple_app_fixed.py:923-926 | the ratio of bounded totals passes the realism test and exceeds the floor |
| `Speed.AverageMovingSpeed` | simple_app_fixed.py:892-928 | the accumulator loop computes exactly `MovingAverage` |
| `Speed.StartupSpeed` | simple_app_fixed.py:159-186 | the startup speed is always realistic; it is positive only for a saved fix with a gap above 0 and at most 8 hours and over 0.001 miles, and is then the distance over the gap; under those conditions a realistic distance over gap is always kept |
| `Speed.DetectMovement` | simple_app_fixed.py:1310-1317 | no previous position counts as moved with distance 0; otherwise moved exactly when the distance exceeds 0.009 miles |
| `Speed.SegmentTestsAgree` | simple_app_fixed.py:1282-1308 | a segment that adds miles is flagged moving exactly when its speed is above the 0.5 mph floor; a moving segment longer than 0.001 miles adds miles |
| `Speed.SegmentIsMoving` | simple_app_fixed.py:1298-1308 | the moving flag of a new segment: positive duration and a speed above 0.5 mph and at most 90 mph; `SegmentTestsAgree` relates it to the miles test and `Tracking.Tracker.ComputeSegmentMovingFlag` computes it |
| `Movement.LastWhereSpec` | simple_app_fixed.py:1027-1031 | a backward scan with `break` finds the latest index passing its test, with none passing after it, or reports that none below the bound passes |
| `Movement.ScanBack` | simple_app_fixed.py:1027-1031 | the reversed loop with `break` computes exactly `LastWhere` |
| `Movement.LastMatchSpec` | simple_app_fixed.py:1024-1040 | the backward scan finds the latest fix whose own window is (or is not) moving, with none such after it, or reports that none exists |
| `Movement.FindLast` | simple_app_fixed.py:1036-1040 | scanning the history with the window test of each fix computes exactly `LastMatch` |
| `Movement.MovementStatus` | simple_app_fixed.py:1002-1041 | under two fixes: ("stopped", previous `stopped_since`); "unknown" exactly when the window holds under two fixes (then `since` is None); otherwise "moving" exactly when the window distance exceeds 0.028 miles; `since` is the scan's turning time |
| `Movement.TurnTimeSpec` | simple_app_fixed.py:1024-1041 | the turning time is `now` when no reading matches, else the timestamp of the latest matching fix with none matching after it |
| `Movement.GetMovementStatus` | simple_app_fixed.py:1002-1041 | the method computes exactly `MovementStatus` |
| `Movement.StoppedDuration` | simple_app_fixed.py:1043-1069 | 0 under two fixes or when the window is moving; otherwise the whole seconds since the latest fix whose window moved (since the first fix when that fix has timestamp 0 or none is found); never negative when no fix is from the future |
| `Movement.GetStoppedDuration` | simple_app_fixed.py:1043-1069 | the method computes exactly `StoppedDuration` |
| `Movement.MovingMeansNoStoppedTime` | simple_app_fixed.py:1050-1054 | a "moving" status implies a stopped duration of 0 |
| `Movement.NextStoppedSince` | simple_app_fixed.py:1237-1250 | `stopped_since` is set only on a stopped status of at least 300 s, to the stop's start time unless it already has a value |
| `Movement.StoppedSinceMeansConfirmedStop` | simple_app_fixed.py:1237-1250 | after an update, a set `stopped_since` means the status read "stopped" for at least 300 s; a fresh value is fix time minus stopped duration, an old one is kept |
| `Movement.ApplyStoppedSinceRule` | simple_app_fixed.py:1237-1250 | reading the status and then the stopped duration computes exactly the rule |
| `Movement.ShortHistoryClearsStoppedSince` | simple_app_fixed.py:1043-1047 | with under two fixes, the stopped duration is 0, so the rule clears `stopped_since` |
| `Movement.StoppedSinceIsSticky` | simple_app_fixed.py:1241-1250 | a set `stopped_since` survives a confirmed stop; any other status clears it |
| `DailyStats.AddSegment` | simple_app_fixed.py:641-662 | `update_daily_stats` creates the day with 0 miles if absent, adds exactly the segment's miles, sets end, last movement and last update from the fix, keeps the day's other fields and changes no other day |
| `DailyStats.SetStart` | simple_app_fixed.py:664-683 | the start location and first movement time are written only while the day has no start location; no other day changes |
| `DailyStats.ApplySegment` | simple_app_fixed.py:1289-1295 | the update made for a counted segment, `update_daily_stats` then `set_daily_start_location`; `ApplySegmentSpec` and `StartSurvivesLaterSegments` state its effect |
| `DailyStats.ApplySegmentSpec` | simple_app_fixed.py:1289-1295 | a counted segment adds its miles and sets the day's end; the start becomes this segment only if unset |
| `DailyStats.StartSurvivesLaterSegments` | simple_app_fixed.py:679-682 | a second counted segment on the same day never moves the start |
| `DailyStats.AccrueTravel` | simple_app_fixed.py:685-698 | as written: an absent day or a non-moving fix changes nothing; a moving fix adds `t - base` when a base exists, then sets the base to `t` |
| `DailyStats.TravelTimeNeverDecreases` | simple_app_fixed.py:685-698 | with fix times that do not run backwards, travel time never decreases (both rules) |
| `DailyStats.StopGapCreditedAsTravel` | simple_app_fixed.py:692-698 | as written: moving at t1, stopped at t2, moving at t3 credits the whole `t3 - t1` |
| `DailyStats.AccrueTravelFixed` | simple_app_fixed.py:685-698 | corrected: as written, except that a non-moving fix drops the base |
| `DailyStats.StopGapNotCredited` | simple_app_fixed.py:692-698 | corrected: the stop between t1 and t3 earns nothing |
| `DailyStats.MovingRunCredit` | simple_app_fixed.py:692-698 | corrected: a run of moving fixes entered without a base is credited exactly its last minus its first time |
| `DailyRecord.FirstMinuteFrom` | simple_app_fixed.py:477-482 | the search finds the first entry of the minute at or after the start index, or reports that none exists |
| `DailyRecord.FindMinute` | simple_app_fixed.py:477-482 | the loop with `break` computes exactly the first matching index |
| `DailyRecord.Upsert` | simple_app_fixed.py:477-506 | the new entry is in the series afterwards |
| `DailyRecord.InsertKeepsSeries` | simple_app_fixed.py:503-506 | inserting an entry of a new minute into a strictly increasing series keeps it strictly increasing |
| `DailyRecord.UpsertExisting` | simple_app_fixed.py:484-492 | an entry whose minute exists overwrites that entry in place; the series stays well formed and other minutes are kept |
| `DailyRecord.UpsertNew` | simple_app_fixed.py:493-506 | an entry of a new minute is appended and the list re-sorted: a permutation of the old list plus the entry, still well formed |
| `DailyRecord.UpsertSpec` | simple_app_fixed.py:477-506 | after the upsert the series is well formed and holds exactly the new entry plus the old entries of other minutes |
| `DailyRecord.LaterMinuteAppends` | simple_app_fixed.py:503-506 | an entry later than every minute goes at the end |
| `DailyRecord.AddMinute` | simple_app_fixed.py:455-516 | a non-moving sample, or one repeating the last entry, leaves the record unchanged; a missing start time is the error case; otherwise the series becomes the upsert of the new entry and the end location and end time become the sample’s, with every other field kept |
| `DailyRecord.AddMinuteLocation` | simple_app_fixed.py:455-516 | the method, applied to the record value, computes exactly `AddMinute` |
| `DailyRecord.AddMinuteKeepsSeries` | simple_app_fixed.py:477-514 | a recorded sample keeps the series well formed, holds the sample and every entry of another minute, and ends the record at the sample |
| `DailyRecord.NewDailyRecord` | simple_app_fixed.py:328-345 | the record of `create_empty_daily_file`: the date, start time and start location, no entries, zero totals; `FirstSampleOfFreshDay` gives its first update |
| `DailyRecord.FirstSampleOfFreshDay` | simple_app_fixed.py:328-345 | on a record fresh from `create_empty_daily_file`, the first moving sample becomes the only entry |
| `DailyRecord.EntryPoints` | simple_app_fixed.py:525-531 | the series' positions, one per entry and in order |
| `DailyRecord.CalculateDailyDistance` | simple_app_fixed.py:519-533 | the loop computes the path length of the series and is never negative |
| `DailyRecord.LaterMinuteExtendsDistance` | simple_app_fixed.py:519-533 | a sample of a later minute adds exactly one segment to the daily distance |
| `DailyRecord.MigrateSamples` | simple_app_fixed.py:420-439 | each legacy sample becomes one entry, in order, with its timestamp, minute and position; its speed defaults to 0 and it is moving exactly when the speed exceeds 1 |
| `DailyRecord.Migrate` | simple_app_fixed.py:400-441 | migration copies the shared keys, defaults missing totals to 0, starts an empty summary, and converts the samples with `MigrateSamples` exactly when the start time is truthy and samples exist, else leaves no entries |
| `DailyRecord.LoadShape` | simple_app_fixed.py:377-395 | the load guard: migrate exactly when `samples_by_minute` is present without `minute_locations`; `LoadIsIdempotent` states its laws |
| `DailyRecord.LoadIsIdempotent` | simple_app_fixed.py:377-395 | a load never returns a record that still needs migrating; a second load changes nothing; a current record is returned as is |
| `Journey.EarliestIndex` | simple_app_fixed.py:1182-1203 | the scan returns none exactly when no entry qualifies; otherwise the first qualifying entry of least start time |
| `Journey.EarliestStart` | simple_app_fixed.py:1182-1203 | none exactly when no entry qualifies; otherwise the location, start time and date of a qualifying entry whose start time is no later than any qualifying entry’s and strictly earlier than every qualifying entry before it; truthy and older than the oldest fix |
| `Journey.FindEarliestDailyStart` | simple_app_fixed.py:1182-1203 | the loop computes exactly `EarliestStart` |
| `Journey.SampleStep` | simple_app_fixed.py:1127-1132 | the step is 1 when the history fits, else the floor of length over `max_points` |
| `Journey.Strided` | simple_app_fixed.py:1169-1172 | the `j`-th sampled point is the fix at `start + j * step` |
| `Journey.StridedCount` | simple_app_fixed.py:1169-1172 | the sample covers the rest of the history and stops there |
| `Journey.SampleCountBound` | simple_app_fixed.py:1127-1148 | with that step, at most `2 * max_points - 1` fixes are sampled |
| `Journey.SampleHistoryPoints` | simple_app_fixed.py:1159-1180 | sampling starts at index `step` exactly when the first fix lies within 1 mile of the daily start, else at 0 |
| `Journey.WithLatest` | simple_app_fixed.py:1150-1155 | the points so far are kept as a prefix; the latest fix is appended exactly when the list is empty or ends at another timestamp; with a history the result ends at the latest timestamp |
| `Journey.BuildJourney` | simple_app_fixed.py:1101-1157 | `build_journey_history`; `JourneySize`, `JourneyEndsAtLatest` and `JourneyStartsAtEarliestStart` state its size, last point and first point |
| `Journey.JourneySize` | simple_app_fixed.py:1101-1157 | the journey is empty when both inputs are, non-empty with a history, and holds at most `2 * max_points + 1` points |
| `Journey.JourneyEndsAtLatest` | simple_app_fixed.py:1150-1155 | with a history, the last journey point has the largest timestamp of any fix |
| `Journey.JourneyStartsAtEarliestStart` | simple_app_fixed.py:1104-1125 | the journey begins at the earliest qualifying daily start older than every fix, when one exists |
| `Journey.DayEndInfo` | simple_app_fixed.py:950-961 | live mode with a history reads the latest fix; otherwise the stored end location, timed by the last movement time when it is truthy and by the last update time otherwise; no end location gives nothing |
| `Journey.EndInfoAfterSegment` | simple_app_fixed.py:641-662 | after a counted segment, the stored end of its day is that segment's position and time |
| `Journey.EstimateTravelHours` | simple_app_fixed.py:963-972 | never negative; the accrued travel time when positive; otherwise, with a truthy end time, the span from the first movement time (the start time when that is falsy) whenever that base is truthy and earlier, and a positive value only in that case |
| `Tracking.Tracker.constructor` | simple_app_fixed.py:620-637 | startup: the saved history and stats; the driver at the last saved fix, or at the default position and `now`; not moving; no stop |
| `Tracking.Tracker.AppendHistoryPoint` | simple_app_fixed.py:1265-1269 | the history grows by exactly the new fix; nothing else changes |
| `Tracking.Tracker.TrimHistoryHours` | simple_app_fixed.py:1271-1275 | the history becomes exactly the fixes no older than `hours`; nothing else changes |
| `Tracking.Tracker.UpdateDailyStats` | simple_app_fixed.py:641-662 | the stats become `AddSegment` of the old stats; nothing else changes |
| `Tracking.Tracker.SetDailyStartLocation` | simple_app_fixed.py:664-683 | the stats become `SetStart` of the old stats; nothing else changes |
| `Tracking.Tracker.UpdateTravelTime` | simple_app_fixed.py:685-698 | the stats become the corrected accrual of the old stats; nothing else changes |
| `Tracking.Tracker.HandleSegmentUpdate` | simple_app_fixed.py:1282-1296 | miles are added (and the start possibly set) exactly when the segment from the previous fix has positive duration, a realistic speed and over 0.001 miles; otherwise the stats are unchanged |
| `Tracking.Tracker.ComputeSegmentMovingFlag` | simple_app_fixed.py:1298-1308 | the flag is the segment test: positive duration and a realistic speed above 0.5 mph |
| `Tracking.Tracker.DetectLastPositionMovement` | simple_app_fixed.py:1310-1317 | the result is `DetectMovement` of the driver's last position |
| `Tracking.Tracker.UpdateDriverState` | simple_app_fixed.py:1223-1252 | the driver gets the fix's position, time, speed and last position; `stopped_since` follows the rule applied to the history's status; history and stats are unchanged |

## Left out

- Persistence is not modelled: the cache and file backends, every `load_*` and
  `save_*`, the daily-file reads and writes, and the write-back after a
  migration. Only the load guard and the migration itself are modelled.
- HTTP routes, debug routes and the HTML/JS dashboard are not modelled: they
  are serving and UI code.
- Network calls are not modelled: the fix fetch, road distance and ETA
  requests go to external services.
- The polling loop (`process_fetched_location`, `update_daily_tracking`,
  `update_location_periodically`, the daemon thread) is not modelled. The
  tracker exposes the steps that loop calls, one method per step.
- The haversine formula is not modelled: it is floating-point trigonometry. The
  distance is a parameter that is only assumed non-negative. Symmetry and
  `dist(a, a) == 0` are not assumed.
- Local-time conversions (`date.fromtimestamp`, the minute of the day) are
  parameters. Day rollover therefore follows `dayOf`.
- `calculate_journey_average`, `compute_day_summary` and
  `get_previous_days_travel` are not modelled: they read files, depend on road
  distance and build strings with float `round()`.
- Floating-point rounding in general: all arithmetic is exact real arithmetic.
- The `try`/`except` blocks that print and swallow errors are not modelled.
  The one error a modelled function can raise, a missing `start_time` in
  `add_minute_location`, is the `None` result of `DailyRecord.AddMinute`.
- `Journey.BuildJourney`: requires `maxPoints >= 1`. A non-positive
  `max_points` is not modelled. With 0 and a non-empty history the source's
  `total_points // max_points` raises `ZeroDivisionError`. With a negative value
  the stride `max(1, total_points // max_points)` is 1, so every fix is sampled.
  `build_journey_history` has no caller in simple_app_fixed.py; the location
  route samples the day's minute series with its own stride (:2354-2375), and
  that route is not part of this model.
- `Journey.FindEarliestDailyStart`: the `daily_stats` dictionary is read as a
  sequence of (date, entry) pairs in insertion order, so ties go to the first
  entry, as in the source; the tracker's `dailyStats` map has no order.
- `DailyRecord.Migrate`: the legacy sample keys are taken as already-parsed
  integers and every legacy sample is assumed to carry a latitude and a
  longitude; a malformed key or sample raising is not modelled.
- `DailyRecord.AddMinuteLocation`: the source mutates the caller's daily dict in
  place and returns that same dict; the model takes the record by value and returns the
  updated record, so aliasing of that dict with other holders is not captured.
- `Tracking.Tracker.UpdateTravelTime`: implements the corrected accrual, not the
  code as written; `DailyStats.AccrueTravel` is the as-written rule.
- `Movement.FindLast`: each step of the backward scan reads the window distance
  as the value `History.WindowDistance` instead of running the
  `History.ComputeWindowDistance` loop again; that loop is proved to compute
  the same value.
- The persist call itself (`save_historical_data`) is I/O; only the predicate
  that decides it is modelled (`History.PersistDue`).

## Findings

| source | as written | input that shows it | evidently intended | confidence | as-written member | corrected member |
|---|---|---|---|---|---|---|
| simple_app_fixed.py:685-698 | a non-moving fix leaves `last_movement_update` in place, so the next moving fix is credited the whole gap, stop included | moving fix at t=0, non-moving at t=60, moving at t=7200: 7200 s of travel are credited for a two-hour stop | a non-moving fix breaks the accrual base, so stopped time is never credited ("Only count time when actually moving", :689) | not executed | `DailyStats.StopGapCreditedAsTravel` | `DailyStats.StopGapNotCredited` |
| simple_app_fixed.py:1277-1280 | the flush fires when `len(history) % 3 == 0`, which counts fixes held, not polls since the last flush | a window trimmed back to 60 fixes on every poll (one hour at a 60 s cadence) holds 61 at every test, so `len % 3` is never 0 and the history is never persisted | persist on every third poll ("every 3 points", :1278) | not executed | `History.SteadyWindowIsNeverPersisted` | `History.CountedPersistsEveryThird` |
