/** The journey shown on the map: the earliest daily start, a down-sampled copy
    of the history and the latest fix; plus the day-end and travel-time readings
    of a daily-stats entry. */
module Journey {
  import opened Geo
  import opened Seqs
  import opened History
  import opened DailyStats

  /** One point of the journey polyline. */
  datatype JourneyPoint = JourneyPoint(lat: real, lng: real, ts: real)

  /** The start location of one day, as `find_earliest_daily_start` reports it. */
  datatype DailyStart = DailyStart(lat: real, lng: real, ts: real, date: Day)

  /** A sampled fix starts `start_index` this far (miles) from the daily start
      or closer only when it is the same place. */
  const DuplicateStartMiles: real := 1.0

  function PointOf(f: Fix): JourneyPoint
  {
    JourneyPoint(f.lat, f.lng, f.ts)
  }

  /** An entry that can start the journey: has a start location and a truthy
      start time older than the oldest fix. */
  predicate Qualifies(e: DayStats, t: real)
  {
    e.startLocation.Some? && e.startTime != 0.0 && e.startTime < t
  }

  /** The index `find_earliest_daily_start` settles on among the first `n`
      entries, in dictionary order: the first entry of least start time among
      those that qualify. */
  function EarliestIndex(items: seq<(Day, DayStats)>, n: nat, t: real): (k: Option<nat>)
    requires n <= |items|
    ensures k.None? <==> forall i :: 0 <= i < n ==> !Qualifies(items[i].1, t)
    ensures k.Some? ==> k.value < n && Qualifies(items[k.value].1, t)
    ensures k.Some? ==> forall i :: 0 <= i < n && Qualifies(items[i].1, t) ==>
      items[k.value].1.startTime <= items[i].1.startTime
    ensures k.Some? ==> forall i :: 0 <= i < k.value && Qualifies(items[i].1, t) ==>
      items[k.value].1.startTime < items[i].1.startTime
    decreases n
  {
    if n == 0 then None
    else
      var prev := EarliestIndex(items, n - 1, t);
      var e := items[n - 1].1;
      if Qualifies(e, t) && (prev.None? || e.startTime < items[prev.value].1.startTime) then Some(n - 1)
      else prev
  }

  function StartAt(items: seq<(Day, DayStats)>, k: Option<nat>): Option<DailyStart>
    requires k.Some? ==> k.value < |items| && items[k.value].1.startLocation.Some?
  {
    match k
    case None => None
    case Some(i) =>
      var p := items[i].1.startLocation.value;
      Some(DailyStart(p.lat, p.lng, items[i].1.startTime, items[i].0))
  }

  /** The earliest daily start older than `t`, or none. */
  function EarliestStart(items: seq<(Day, DayStats)>, t: real): (r: Option<DailyStart>)
    ensures r.Some? ==> r.value.ts < t && r.value.ts != 0.0
    ensures r.Some? ==> forall i :: 0 <= i < |items| && Qualifies(items[i].1, t) ==> r.value.ts <= items[i].1.startTime
    ensures r.None? <==> forall i :: 0 <= i < |items| ==> !Qualifies(items[i].1, t)
    ensures r.Some? ==>
      exists i :: && 0 <= i < |items| && Qualifies(items[i].1, t)
                  && r.value == DailyStart(items[i].1.startLocation.value.lat, items[i].1.startLocation.value.lng,
                                           items[i].1.startTime, items[i].0)
                  && (forall j :: 0 <= j < i && Qualifies(items[j].1, t) ==> r.value.ts < items[j].1.startTime)
  {
    StartAt(items, EarliestIndex(items, |items|, t))
  }

  /** `find_earliest_daily_start`: the loop over `stats.items()`. */
  method FindEarliestDailyStart(items: seq<(Day, DayStats)>, t: real) returns (r: Option<DailyStart>)
    ensures r == EarliestStart(items, t)
  {
    if |items| == 0 {
      return None;
    }
    var best: Option<nat> := None;
    var i := 0;
    while i < |items|
      invariant 0 <= i <= |items|
      invariant best == EarliestIndex(items, i, t)
    {
      var e := items[i].1;
      if e.startLocation.Some? && e.startTime != 0.0 && e.startTime < t {
        if best.None? || e.startTime < items[best.value].1.startTime {
          best := Some(i);
        }
      }
      i := i + 1;
    }
    r := StartAt(items, best);
  }

  /** The sampling step: 1 when the history fits, else `max(1, total // maxPoints)`. */
  function SampleStep(total: nat, maxPoints: int): (step: nat)
    requires maxPoints >= 1
    ensures step >= 1
    ensures total <= maxPoints ==> step == 1
    ensures total > maxPoints ==> step * maxPoints <= total < (step + 1) * maxPoints
  {
    if total <= maxPoints then 1 else total / maxPoints
  }

  /** The `j`-th index visited by `range(start, _, step)`. */
  function StrideIndex(start: nat, step: nat, j: nat): nat
  {
    start + j * step
  }

  lemma StrideIndexShift(start: nat, step: nat, j: nat)
    requires j >= 1
    ensures StrideIndex(start + step, step, j - 1) == StrideIndex(start, step, j)
  {
    assert (j - 1) * step + step == j * step;
  }

  /** The points at indices start, start + step, ... of `h`, in order. */
  function Strided(h: seq<Fix>, start: nat, step: nat): (r: seq<JourneyPoint>)
    requires step >= 1
    ensures start >= |h| ==> r == []
    ensures start < |h| ==> |r| >= 1
    ensures forall j :: 0 <= j < |r| ==>
      StrideIndex(start, step, j) < |h| && r[j] == PointOf(h[StrideIndex(start, step, j)])
    decreases |h| - start
  {
    if start >= |h| then []
    else
      var rest := Strided(h, start + step, step);
      var r := [PointOf(h[start])] + rest;
      assert forall j :: 1 <= j < |r| ==> r[j] == rest[j - 1];
      forall j | 1 <= j < |r| ensures StrideIndex(start + step, step, j - 1) == StrideIndex(start, step, j) {
        StrideIndexShift(start, step, j);
      }
      r
  }

  /** The sample visits the rest of the history and nothing past it: |r| - 1
      steps stay inside, |r| steps reach its end. */
  lemma {:induction false} StridedCount(h: seq<Fix>, start: nat, step: nat)
    requires step >= 1 && start < |h|
    ensures (|Strided(h, start, step)| - 1) * step < |h| - start <= |Strided(h, start, step)| * step
    decreases |h| - start
  {
    var n := |Strided(h, start, step)|;
    if start + step < |h| {
      StridedCount(h, start + step, step);
      assert n == |Strided(h, start + step, step)| + 1;
      StepCountArith(n - 1, step, |h| - start);
    } else {
      assert n == 1;
    }
  }

  lemma StepCountArith(m: int, step: int, r: int)
    requires (m - 1) * step < r - step <= m * step
    ensures m * step < r <= (m + 1) * step
  {
    assert (m - 1) * step == m * step - step;
    assert (m + 1) * step == m * step + step;
  }

  lemma MulMono(a: int, b: int, c: int)
    requires a <= b && c >= 0
    ensures a * c <= b * c
  {
    assert b * c - a * c == (b - a) * c;
  }

  lemma CountArith(n: int, s: int, m: int, total: int)
    requires s >= 1 && m >= 1 && n >= 1
    requires (n - 1) * s < total < (s + 1) * m
    ensures n <= 2 * m - 1
  {
    if n > 2 * m - 1 {
      MulMono(2 * m - 1, n - 1, s);
      assert (2 * m - 1) * s == (s + 1) * m - 1 + (s - 1) * (m - 1);
      MulMono(0, s - 1, m - 1);
    }
  }

  /** With the step of `SampleStep`, at most `2 * maxPoints - 1` fixes are
      sampled, wherever sampling starts. */
  lemma SampleCountBound(h: seq<Fix>, start: nat, maxPoints: int)
    requires maxPoints >= 1
    ensures |Strided(h, start, SampleStep(|h|, maxPoints))| <= 2 * maxPoints - 1
  {
    var step := SampleStep(|h|, maxPoints);
    if start < |h| {
      StridedCount(h, start, step);
      CountArith(|Strided(h, start, step)|, step, maxPoints, |h|);
    }
  }

  /** Whether the first fix duplicates the daily start (closer than a mile). */
  predicate SkipsFirst(h: seq<Fix>, start: Option<DailyStart>, dist: Metric)
  {
    start.Some? && |h| > 0 && dist(Point(start.value.lat, start.value.lng), h[0].Pos()) < DuplicateStartMiles
  }

  /** `sample_history_points`: every `step`-th fix, from index `step` when the
      first fix duplicates the daily start and from index 0 otherwise. */
  function SampleHistoryPoints(h: seq<Fix>, start: Option<DailyStart>, step: nat, dist: Metric): (r: seq<JourneyPoint>)
    requires step >= 1
    ensures var s := if SkipsFirst(h, start, dist) then step else 0;
      forall j :: 0 <= j < |r| ==> StrideIndex(s, step, j) < |h| && r[j] == PointOf(h[StrideIndex(s, step, j)])
    ensures !SkipsFirst(h, start, dist) && h != [] ==> r != [] && r[0] == PointOf(h[0])
    ensures SkipsFirst(h, start, dist) && step < |h| ==> r != [] && r[0] == PointOf(h[step])
    ensures SkipsFirst(h, start, dist) && step >= |h| ==> r == []
  {
    Strided(h, if SkipsFirst(h, start, dist) then step else 0, step)
  }

  /** The daily start as the journey's first point, when there is one. */
  function JourneyHead(start: Option<DailyStart>): seq<JourneyPoint>
  {
    if start.Some? then [JourneyPoint(start.value.lat, start.value.lng, start.value.ts)] else []
  }

  /** "Ensure the most recent point is included": append the latest fix unless
      the journey already ends at its timestamp. */
  function WithLatest(body: seq<JourneyPoint>, sorted: seq<Fix>): (r: seq<JourneyPoint>)
    ensures sorted != [] ==> r != [] && r[|r| - 1].ts == sorted[|sorted| - 1].ts
    ensures sorted == [] ==> r == body
    ensures |body| <= |r| <= |body| + 1 && r[..|body|] == body
    ensures |r| == |body| + 1 ==> r[|body|] == PointOf(sorted[|sorted| - 1])
    ensures r == body <==> sorted == [] || (body != [] && body[|body| - 1].ts == sorted[|sorted| - 1].ts)
  {
    if sorted != [] && (body == [] || body[|body| - 1].ts != sorted[|sorted| - 1].ts)
    then body + [PointOf(sorted[|sorted| - 1])]
    else body
  }

  /** The time the daily starts must precede: the oldest fix, or `now` without history. */
  function EarliestGpsTime(sorted: seq<Fix>, now: real): real
  {
    if sorted != [] then sorted[0].ts else now
  }

  /** `build_journey_history` (the default `max_points` is 50). */
  function BuildJourney(history: seq<Fix>, stats: seq<(Day, DayStats)>, maxPoints: int, now: real,
                        dist: Metric): seq<JourneyPoint>
    requires maxPoints >= 1
  {
    if history == [] && stats == [] then []
    else
      var sorted := SortBy(history, TsKey);
      var start := EarliestStart(stats, EarliestGpsTime(sorted, now));
      WithLatest(JourneyHead(start) + SampleHistoryPoints(sorted, start, SampleStep(|sorted|, maxPoints), dist), sorted)
  }

  /** The journey is empty only without history and stats, and it holds at most
      `2 * maxPoints + 1` points: the start, the sample and the latest fix. */
  lemma JourneySize(history: seq<Fix>, stats: seq<(Day, DayStats)>, maxPoints: int, now: real, dist: Metric)
    requires maxPoints >= 1
    ensures history == [] && stats == [] ==> BuildJourney(history, stats, maxPoints, now, dist) == []
    ensures history != [] ==> BuildJourney(history, stats, maxPoints, now, dist) != []
    ensures |BuildJourney(history, stats, maxPoints, now, dist)| <= 2 * maxPoints + 1
  {
    if history != [] || stats != [] {
      var sorted := SortBy(history, TsKey);
      var start := EarliestStart(stats, EarliestGpsTime(sorted, now));
      var step := SampleStep(|sorted|, maxPoints);
      SampleCountBound(sorted, if SkipsFirst(sorted, start, dist) then step else 0, maxPoints);
    }
  }

  /** With a history, the journey ends at its latest timestamp (at the latest
      fix itself unless the sample already ends at a fix of that timestamp). */
  lemma JourneyEndsAtLatest(history: seq<Fix>, stats: seq<(Day, DayStats)>, maxPoints: int, now: real, dist: Metric)
    requires maxPoints >= 1 && history != []
    ensures var j := BuildJourney(history, stats, maxPoints, now, dist);
      && j != []
      && (forall f :: f in history ==> f.ts <= j[|j| - 1].ts)
      && (exists f :: f in history && f.ts == j[|j| - 1].ts)
  {
    var sorted := SortBy(history, TsKey);
    SortBySpec(history, TsKey);
    SortByLastIsMax(history, TsKey);
    assert sorted[|sorted| - 1] in multiset(history);
  }

  /** The journey begins at the earliest qualifying daily start older than
      every fix, when there is one. */
  lemma JourneyStartsAtEarliestStart(history: seq<Fix>, stats: seq<(Day, DayStats)>, maxPoints: int, now: real,
                                     dist: Metric)
    requires maxPoints >= 1 && history != []
    ensures var sorted := SortBy(history, TsKey);
      var t0 := sorted[0].ts;
      && (forall f :: f in history ==> t0 <= f.ts)
      && (EarliestStart(stats, t0).Some? ==>
            var s := EarliestStart(stats, t0).value;
            BuildJourney(history, stats, maxPoints, now, dist)[0] == JourneyPoint(s.lat, s.lng, s.ts))
  {
    SortByFirstIsMin(history, TsKey);
  }

  /** `get_day_end_info`: the end position and time of a day. */
  datatype EndInfo = EndInfo(lat: Option<real>, lng: Option<real>, time: Option<real>)

  /** With `useLive` and a history, the latest fix; otherwise the stored end
      location with the last movement time, or the last update time when that is
      absent or 0; otherwise nothing. */
  function DayEndInfo(entry: DayStats, useLive: bool, history: seq<Fix>): (r: EndInfo)
    ensures useLive && history != [] ==>
      r == EndInfo(Some(history[|history| - 1].lat), Some(history[|history| - 1].lng), Some(history[|history| - 1].ts))
    ensures !(useLive && history != []) && entry.endLocation.None? ==> r == EndInfo(None, None, None)
    ensures !(useLive && history != []) && entry.endLocation.Some? ==>
      && r.lat == Some(entry.endLocation.value.lat) && r.lng == Some(entry.endLocation.value.lng)
      && (entry.lastMovementTime.Some? && entry.lastMovementTime.value != 0.0 ==> r.time == entry.lastMovementTime)
      && (entry.lastMovementTime.None? || entry.lastMovementTime.value == 0.0 ==> r.time == Some(entry.lastUpdateTime))
  {
    if useLive && |history| > 0 then
      var last := history[|history| - 1];
      EndInfo(Some(last.lat), Some(last.lng), Some(last.ts))
    else if entry.endLocation.Some? then
      var end := if entry.lastMovementTime.Some? && entry.lastMovementTime.value != 0.0
                 then entry.lastMovementTime.value else entry.lastUpdateTime;
      EndInfo(Some(entry.endLocation.value.lat), Some(entry.endLocation.value.lng), Some(end))
    else EndInfo(None, None, None)
  }

  /** After a counted segment, the stored end of its day is that segment: its
      end position and its fix time. */
  lemma EndInfoAfterSegment(stats: map<Day, DayStats>, day: Day, miles: real, t: real, p: Point, history: seq<Fix>)
    ensures var r := ApplySegment(stats, day, miles, t, p);
      day in r && DayEndInfo(r[day], false, history) == EndInfo(Some(p.lat), Some(p.lng), Some(t))
  {
    ApplySegmentSpec(stats, day, miles, t, p);
    var a := AddSegment(stats, day, miles, t, p);
    assert a[day].lastMovementTime == Some(t) && a[day].lastUpdateTime == t;
  }

  /** `estimate_travel_time_from_stats`, in hours: the accrued travel time when
      positive, else the span from the first movement (or the start) to `endTime`
      when both are truthy and the span is positive, else 0. */
  function EstimateTravelHours(entry: DayStats, endTime: Option<real>): (hours: real)
    ensures hours >= 0.0
    ensures entry.totalTravelTime > 0.0 ==> hours * 3600.0 == entry.totalTravelTime
    ensures entry.totalTravelTime <= 0.0 && hours > 0.0 ==>
      && endTime.Some?
      && var from := if entry.firstMovementTime.Some? && entry.firstMovementTime.value != 0.0
                     then entry.firstMovementTime.value else entry.startTime;
         from != 0.0 && hours * 3600.0 == endTime.value - from
    ensures entry.totalTravelTime <= 0.0 && endTime.Some? && endTime.value != 0.0 ==>
      var from := if entry.firstMovementTime.Some? && entry.firstMovementTime.value != 0.0
                  then entry.firstMovementTime.value else entry.startTime;
      from != 0.0 && endTime.value > from ==> hours * 3600.0 == endTime.value - from
  {
    if entry.totalTravelTime > 0.0 then entry.totalTravelTime / 3600.0
    else
      var from := if entry.firstMovementTime.Some? && entry.firstMovementTime.value != 0.0
                  then entry.firstMovementTime.value else entry.startTime;
      if from != 0.0 && endTime.Some? && endTime.value != 0.0 && endTime.value > from
      then (endTime.value - from) / 3600.0
      else 0.0
  }
}
