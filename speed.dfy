/** Speed estimates over the history and the per-segment tests of the ingest. */
module Speed {
  import opened Geo
  import opened History

  /** A segment slower than this (mph) is not "moving". */
  const MovingSegmentFloor: real := 0.5
  /** A segment shorter than this (miles, about 5 feet) adds no mileage. */
  const MinSegmentMiles: real := 0.001
  /** The driver counts as moved when the new fix is farther than this (miles, about 47 feet). */
  const PositionMovedMiles: real := 0.009
  /** A restart speed is only computed over a gap of at most this many hours. */
  const StartupMaxGapHours: real := 8.0

  /** mph for `miles` covered in `seconds`; 0 when no time elapsed. */
  function SegmentSpeed(miles: real, seconds: real): real
  {
    if seconds > 0.0 then miles / (seconds / 3600.0) else 0.0
  }

  /** The test `calculate_average_moving_speed` applies to each segment. */
  predicate IsMovingSegment(miles: real, seconds: real)
  {
    IsRealisticSpeed(SegmentSpeed(miles, seconds)) && SegmentSpeed(miles, seconds) > MovingSegmentFloor
  }

  /** A moving segment has positive duration and its miles lie strictly above the
      0.5 mph line and at or below the 90 mph line. */
  lemma MovingSegmentBounds(miles: real, seconds: real)
    requires IsMovingSegment(miles, seconds)
    ensures seconds > 0.0
    ensures MovingSegmentFloor * seconds < miles * 3600.0 <= MaxRealisticSpeed * seconds
  {
    var s := SegmentSpeed(miles, seconds);
    assert s == miles / (seconds / 3600.0);
    assert miles * 3600.0 == s * seconds;
  }

  /** `calculate_speed(minutes)`: the speed from the first to the last of the
      recent fixes (in history order), rejected to 0 when not realistic. */
  function SpeedOverWindow(h: seq<Fix>, now: real, minutes: int, dist: Metric): (mph: real)
    ensures IsRealisticSpeed(mph)
    ensures mph > 0.0 ==>
      |h| >= 2 && |RecentFixes(h, now, (minutes * 60) as real)| >= 2 &&
      (var recent := RecentFixes(h, now, (minutes * 60) as real);
       recent[|recent| - 1].ts > recent[0].ts &&
       mph == dist(recent[0].Pos(), recent[|recent| - 1].Pos()) / ((recent[|recent| - 1].ts - recent[0].ts) / 3600.0))
    ensures |h| >= 2 && |RecentFixes(h, now, (minutes * 60) as real)| >= 2 ==>
      (var recent := RecentFixes(h, now, (minutes * 60) as real);
       recent[|recent| - 1].ts > recent[0].ts ==>
       var ratio := dist(recent[0].Pos(), recent[|recent| - 1].Pos()) / ((recent[|recent| - 1].ts - recent[0].ts) / 3600.0);
       IsRealisticSpeed(ratio) ==> mph == ratio)
  {
    if |h| < 2 then 0.0
    else
      var recent := RecentFixes(h, now, (minutes * 60) as real);
      if |recent| < 2 then 0.0
      else
        var oldest := recent[0];
        var newest := recent[|recent| - 1];
        var hours := (newest.ts - oldest.ts) / 3600.0;
        if hours > 0.0 then
          var s := dist(oldest.Pos(), newest.Pos()) / hours;
          if IsRealisticSpeed(s) then s else 0.0
        else 0.0
  }

  /** An implied speed above the cap is reported as 0, never as the spike. */
  lemma SpeedSpikeRejected(h: seq<Fix>, now: real, minutes: int, dist: Metric)
    requires |h| >= 2
    requires var recent := RecentFixes(h, now, (minutes * 60) as real);
      |recent| >= 2 && recent[|recent| - 1].ts > recent[0].ts &&
      dist(recent[0].Pos(), recent[|recent| - 1].Pos()) / ((recent[|recent| - 1].ts - recent[0].ts) / 3600.0) > MaxRealisticSpeed
    ensures SpeedOverWindow(h, now, minutes, dist) == 0.0
  {
  }

  /** `calculate_vehicle_icon_speed`: the 1-minute speed when it is positive,
      otherwise the 5-minute speed. */
  function IconSpeed(h: seq<Fix>, now: real, dist: Metric): (mph: real)
    ensures IsRealisticSpeed(mph)
    ensures SpeedOverWindow(h, now, 1, dist) > 0.0 ==> mph == SpeedOverWindow(h, now, 1, dist)
    ensures SpeedOverWindow(h, now, 1, dist) == 0.0 ==> mph == SpeedOverWindow(h, now, 5, dist)
    ensures mph == 0.0 <==> SpeedOverWindow(h, now, 1, dist) == 0.0 && SpeedOverWindow(h, now, 5, dist) == 0.0
  {
    var oneMinute := SpeedOverWindow(h, now, 1, dist);
    if oneMinute > 0.0 then oneMinute
    else
      var fiveMinute := SpeedOverWindow(h, now, 5, dist);
      if fiveMinute > 0.0 then fiveMinute else 0.0
  }

  /** One step of the accumulation: add the segment a -> b when it is moving. */
  function MovingStep(prev: (real, real), a: Fix, b: Fix, dist: Metric): (real, real)
  {
    var d := dist(a.Pos(), b.Pos());
    var dt := b.ts - a.ts;
    if IsMovingSegment(d, dt) then (prev.0 + d, prev.1 + dt) else prev
  }

  /** (miles, seconds) summed over the moving segments between consecutive fixes;
      every other segment adds nothing to either sum. */
  function MovingTotals(ps: seq<Fix>, dist: Metric): (t: (real, real))
    ensures 0.0 <= t.0 && 0.0 <= t.1
    ensures t.0 * 3600.0 <= MaxRealisticSpeed * t.1
    ensures t.1 > 0.0 ==> MovingSegmentFloor * t.1 < t.0 * 3600.0
    ensures t.1 == 0.0 ==> t.0 == 0.0
  {
    if |ps| < 2 then (0.0, 0.0)
    else
      var prev := MovingTotals(ps[..|ps| - 1], dist);
      var a := ps[|ps| - 2];
      var b := ps[|ps| - 1];
      MovingStepBounds(prev, a, b, dist);
      MovingStep(prev, a, b, dist)
  }

  lemma MovingStepBounds(prev: (real, real), a: Fix, b: Fix, dist: Metric)
    requires 0.0 <= prev.0 && 0.0 <= prev.1
    requires prev.0 * 3600.0 <= MaxRealisticSpeed * prev.1
    requires prev.1 > 0.0 ==> MovingSegmentFloor * prev.1 < prev.0 * 3600.0
    requires prev.1 == 0.0 ==> prev.0 == 0.0
    ensures var t := MovingStep(prev, a, b, dist);
      && 0.0 <= t.0 && 0.0 <= t.1
      && t.0 * 3600.0 <= MaxRealisticSpeed * t.1
      && (t.1 > 0.0 ==> MovingSegmentFloor * t.1 < t.0 * 3600.0)
      && (t.1 == 0.0 ==> t.0 == 0.0)
  {
    var d := dist(a.Pos(), b.Pos());
    var dt := b.ts - a.ts;
    if IsMovingSegment(d, dt) {
      MovingSegmentBounds(d, dt);
    }
  }

  /** A stationary or unrealistic segment (say 200 mph over one minute) is left
      out of both the distance and the time; a moving one adds exactly its own. */
  lemma MovingTotalsAppend(ps: seq<Fix>, q: Fix, dist: Metric)
    requires |ps| >= 1
    ensures MovingTotals(ps + [q], dist) == MovingStep(MovingTotals(ps, dist), ps[|ps| - 1], q, dist)
  {
    var ps' := ps + [q];
    assert ps'[..|ps'| - 1] == ps;
    assert ps'[|ps'| - 2] == ps[|ps| - 1] && ps'[|ps'| - 1] == q;
    assert MovingTotals(ps', dist) == MovingStep(MovingTotals(ps'[..|ps'| - 1], dist), ps'[|ps'| - 2], ps'[|ps'| - 1], dist);
  }

  /** The average of the moving totals, 0 when no moving time was found. */
  function AverageOf(t: (real, real)): real
  {
    if t.1 > 0.0 then
      var avg := t.0 / (t.1 / 3600.0);
      if IsRealisticSpeed(avg) then avg else 0.0
    else 0.0
  }

  /** `calculate_average_moving_speed(minutes)` as a value. Whenever it is
      positive it lies above the moving floor, and the final realism test never
      rejects it, since every segment counted is itself realistic. */
  function MovingAverage(h: seq<Fix>, now: real, minutes: int, dist: Metric): (mph: real)
    ensures mph == 0.0 || (MovingSegmentFloor < mph <= MaxRealisticSpeed)
    ensures |h| >= 2 && |RecentFixes(h, now, (minutes * 60) as real)| >= 2 ==>
      (var t := MovingTotals(RecentFixes(h, now, (minutes * 60) as real), dist);
       mph == if t.1 > 0.0 then t.0 / (t.1 / 3600.0) else 0.0)
    ensures |h| < 2 || |RecentFixes(h, now, (minutes * 60) as real)| < 2 ==> mph == 0.0
  {
    if |h| < 2 then 0.0
    else
      var recent := RecentFixes(h, now, (minutes * 60) as real);
      if |recent| < 2 then 0.0
      else
        var t := MovingTotals(recent, dist);
        AverageBounds(t);
        AverageOf(t)
  }

  lemma AverageBounds(t: (real, real))
    requires 0.0 <= t.0 && 0.0 <= t.1
    requires t.0 * 3600.0 <= MaxRealisticSpeed * t.1
    requires t.1 > 0.0 ==> MovingSegmentFloor * t.1 < t.0 * 3600.0
    ensures t.1 > 0.0 ==> IsRealisticSpeed(t.0 / (t.1 / 3600.0))
    ensures t.1 > 0.0 ==> MovingSegmentFloor < t.0 / (t.1 / 3600.0)
    ensures AverageOf(t) == if t.1 > 0.0 then t.0 / (t.1 / 3600.0) else 0.0
  {
    if t.1 > 0.0 {
      var avg := t.0 / (t.1 / 3600.0);
      assert avg * t.1 == t.0 * 3600.0;
    }
  }

  /** The accumulator loop of `calculate_average_moving_speed`. */
  method AverageMovingSpeed(h: seq<Fix>, now: real, minutes: int, dist: Metric) returns (mph: real)
    ensures mph == MovingAverage(h, now, minutes, dist)
  {
    if |h| < 2 {
      return 0.0;
    }
    var recent := RecentFixes(h, now, (minutes * 60) as real);
    if |recent| < 2 {
      return 0.0;
    }
    var totalDistance, totalTime := 0.0, 0.0;
    var i := 1;
    while i < |recent|
      invariant 1 <= i <= |recent|
      invariant (totalDistance, totalTime) == MovingTotals(recent[..i], dist)
    {
      var prev, curr := recent[i - 1], recent[i];
      var d := dist(prev.Pos(), curr.Pos());
      var dt := curr.ts - prev.ts;
      MovingTotalsAppend(recent[..i], curr, dist);
      assert recent[..i] + [curr] == recent[..i + 1];
      if IsMovingSegment(d, dt) {
        totalDistance := totalDistance + d;
        totalTime := totalTime + dt;
      }
      i := i + 1;
    }
    assert recent[..i] == recent;
    mph := AverageOf((totalDistance, totalTime));
  }

  /** `calculate_startup_speed`: the speed implied by the last saved fix and the
      first live one, kept only for a gap of at most 8 hours, more than 0.001
      miles and a realistic speed; otherwise 0. */
  function StartupSpeed(last: Option<Fix>, lat: real, lng: real, now: real, dist: Metric): (mph: real)
    ensures IsRealisticSpeed(mph)
    ensures mph > 0.0 ==>
              && last.Some?
              && 0.0 < (now - last.value.ts) / 3600.0 <= StartupMaxGapHours
              && dist(last.value.Pos(), Point(lat, lng)) > MinSegmentMiles
    ensures last.Some? ==>
              var miles := dist(last.value.Pos(), Point(lat, lng));
              var hours := (now - last.value.ts) / 3600.0;
              && (mph > 0.0 ==> mph == miles / hours)
              && (0.0 < hours <= StartupMaxGapHours && miles > MinSegmentMiles && IsRealisticSpeed(miles / hours)
                  ==> mph == miles / hours)
  {
    match last
    case None => 0.0
    case Some(saved) =>
      var miles := dist(saved.Pos(), Point(lat, lng));
      var hours := (now - saved.ts) / 3600.0;
      if hours > 0.0 && miles > MinSegmentMiles then
        var s := miles / hours;
        if IsRealisticSpeed(s) && hours <= StartupMaxGapHours then s else 0.0
      else 0.0
  }

  /** `detect_last_position_movement`: (moved, miles) against the driver's last
      position; with no last position the driver counts as moved by 0 miles. */
  function DetectMovement(lastPosition: Option<Point>, lat: real, lng: real, dist: Metric): (r: (bool, real))
    ensures r.1 >= 0.0
    ensures lastPosition.None? ==> r == (true, 0.0)
    ensures lastPosition.Some? ==> r.1 == dist(lastPosition.value, Point(lat, lng)) && (r.0 <==> r.1 > PositionMovedMiles)
  {
    match lastPosition
    case None => (true, 0.0)
    case Some(p) =>
      var miles := dist(p, Point(lat, lng));
      (miles > PositionMovedMiles, miles)
  }

  /** The segment from the previous fix to the new one, which the history
      already holds as its last element. */
  function SegmentMilesTo(h: seq<Fix>, lat: real, lng: real, dist: Metric): real
    requires |h| >= 2
  {
    dist(h[|h| - 2].Pos(), Point(lat, lng))
  }

  function SegmentSecondsTo(h: seq<Fix>, now: real): real
    requires |h| >= 2
  {
    now - h[|h| - 2].ts
  }

  /** The guard of `handle_segment_update_for_new_point`. */
  predicate SegmentCountsMiles(h: seq<Fix>, lat: real, lng: real, now: real, dist: Metric)
  {
    |h| >= 2 &&
    var miles := SegmentMilesTo(h, lat, lng, dist);
    var dt := SegmentSecondsTo(h, now);
    dt > 0.0 && IsRealisticSpeed(miles / (dt / 3600.0)) && miles > MinSegmentMiles
  }

  /** `compute_segment_moving_flag_for_new_point`. */
  predicate SegmentIsMoving(h: seq<Fix>, lat: real, lng: real, now: real, dist: Metric)
  {
    |h| >= 2 &&
    var dt := SegmentSecondsTo(h, now);
    dt > 0.0 && IsMovingSegment(SegmentMilesTo(h, lat, lng, dist), dt)
  }

  /** The two segment tests agree except on their lower limits: a moving segment
      longer than 0.001 miles also counts miles, and a segment that counts miles
      is moving exactly when it is faster than 0.5 mph. */
  lemma SegmentTestsAgree(h: seq<Fix>, lat: real, lng: real, now: real, dist: Metric)
    requires |h| >= 2
    ensures SegmentIsMoving(h, lat, lng, now, dist) && SegmentMilesTo(h, lat, lng, dist) > MinSegmentMiles
      ==> SegmentCountsMiles(h, lat, lng, now, dist)
    ensures SegmentCountsMiles(h, lat, lng, now, dist) ==>
      (SegmentIsMoving(h, lat, lng, now, dist) <==>
       SegmentSpeed(SegmentMilesTo(h, lat, lng, dist), SegmentSecondsTo(h, now)) > MovingSegmentFloor)
  {
  }
}
