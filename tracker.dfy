/** The module-level state the ingest path updates in place: the in-memory
    history, the driver record and the `daily_stats` dictionary. */
module Tracking {
  import opened Geo
  import opened History
  import opened Speed
  import opened Movement
  import opened DailyStats

  /** The driver position used before any fix has been seen. */
  const DefaultLat: real := 32.32177734375
  const DefaultLng: real := -86.33056640625

  /** `location_data["driver"]`. */
  datatype Driver = Driver(
    lat: real,
    lng: real,
    lastUpdated: real,
    speed: real,
    stoppedSince: Option<real>,
    lastPosition: Option<Point>)

  class Tracker {
    /** `location_data["history"]`, oldest first. */
    var history: seq<Fix>
    var driver: Driver
    /** `daily_stats`, keyed by local date. */
    var dailyStats: map<Day, DayStats>
    /** The haversine distance and the local-date function. */
    const dist: Metric
    const dayOf: real -> Day

    /** The startup state: the saved history and stats, the driver at the last
        saved fix (or the default position and `now`), not moving, no stop. */
    constructor(saved: seq<Fix>, stats: map<Day, DayStats>, now: real, dist: Metric, dayOf: real -> Day)
      ensures history == saved && dailyStats == stats
      ensures saved != [] ==> driver.lat == saved[|saved| - 1].lat && driver.lng == saved[|saved| - 1].lng &&
                              driver.lastUpdated == saved[|saved| - 1].ts
      ensures saved == [] ==> driver.lat == DefaultLat && driver.lng == DefaultLng && driver.lastUpdated == now
      ensures driver.speed == 0.0 && driver.stoppedSince == None && driver.lastPosition == None
      ensures this.dist == dist && this.dayOf == dayOf
    {
      history := saved;
      dailyStats := stats;
      if saved != [] {
        var last := saved[|saved| - 1];
        driver := Driver(last.lat, last.lng, last.ts, 0.0, None, None);
      } else {
        driver := Driver(DefaultLat, DefaultLng, now, 0.0, None, None);
      }
      this.dist := dist;
      this.dayOf := dayOf;
    }

    /** `append_history_point`. */
    method AppendHistoryPoint(lat: real, lng: real, ts: real) returns (p: Fix)
      modifies this
      ensures p == Fix(lat, lng, ts)
      ensures history == old(history) + [p]
      ensures dailyStats == old(dailyStats)
      ensures driver == old(driver)
    {
      p := Fix(lat, lng, ts);
      history := history + [p];
    }

    /** `trim_history_hours`: keep the fixes of the last `hours` hours. */
    method TrimHistoryHours(hours: real, now: real)
      modifies this
      ensures history == KeepSince(old(history), Cutoff(now, hours))
      ensures forall i :: 0 <= i < |history| ==> history[i].ts >= now - hours * 3600.0
      ensures dailyStats == old(dailyStats)
      ensures driver == old(driver)
    {
      TrimKeepsExactlyRecent(history, Cutoff(now, hours));
      history := KeepSince(history, Cutoff(now, hours));
    }

    /** `update_daily_stats`. */
    method UpdateDailyStats(miles: real, t: real, lat: real, lng: real)
      modifies this
      ensures dailyStats == AddSegment(old(dailyStats), dayOf(t), miles, t, Point(lat, lng))
      ensures history == old(history)
      ensures driver == old(driver)
    {
      var today := dayOf(t);
      var e := if today in dailyStats then dailyStats[today] else NewDay(t);
      dailyStats := dailyStats[today := e.(totalMiles := e.totalMiles + miles, lastUpdateTime := t,
                                           lastMovementTime := Some(t), endLocation := Some(Point(lat, lng)))];
    }

    /** `set_daily_start_location`. */
    method SetDailyStartLocation(lat: real, lng: real, t: real)
      modifies this
      ensures dailyStats == SetStart(old(dailyStats), dayOf(t), t, Point(lat, lng))
      ensures history == old(history)
      ensures driver == old(driver)
    {
      var today := dayOf(t);
      if today !in dailyStats {
        dailyStats := dailyStats[today := NewDay(t)];
      }
      if dailyStats[today].startLocation.None? {
        dailyStats := dailyStats[today := dailyStats[today].(startLocation := Some(Point(lat, lng)),
                                                             firstMovementTime := Some(t))];
      }
    }

    /** `update_travel_time`, with the correction recorded under Findings: a
        non-moving fix drops the base (the as-written rule is `AccrueTravel`). */
    method UpdateTravelTime(t: real, moving: bool)
      modifies this
      ensures dailyStats == AccrueTravelFixed(old(dailyStats), dayOf(t), t, moving)
      ensures history == old(history)
      ensures driver == old(driver)
    {
      var today := dayOf(t);
      if today in dailyStats {
        var e := dailyStats[today];
        if moving && e.lastMovementUpdate.Some? {
          e := e.(totalTravelTime := e.totalTravelTime + (t - e.lastMovementUpdate.value));
        }
        e := e.(lastMovementUpdate := if moving then Some(t) else None);
        dailyStats := dailyStats[today := e];
      }
    }

    /** `handle_segment_update_for_new_point`, called after the new fix is in the
        history: a segment that passes the test adds its miles to the day and
        may set the day's start. */
    method HandleSegmentUpdate(lat: real, lng: real, t: real) returns (counted: bool)
      modifies this
      ensures counted == SegmentCountsMiles(old(history), lat, lng, t, dist)
      ensures counted ==>
        dailyStats == ApplySegment(old(dailyStats), dayOf(t), SegmentMilesTo(old(history), lat, lng, dist), t, Point(lat, lng))
      ensures !counted ==> dailyStats == old(dailyStats)
      ensures history == old(history)
      ensures driver == old(driver)
    {
      if |history| < 2 {
        return false;
      }
      var prev := history[|history| - 2];
      var miles := dist(prev.Pos(), Point(lat, lng));
      var dt := t - prev.ts;
      if dt <= 0.0 {
        return false;
      }
      var mph := miles / (dt / 3600.0);
      if 0.0 <= mph <= MaxRealisticSpeed && miles > MinSegmentMiles {
        UpdateDailyStats(miles, t, lat, lng);
        SetDailyStartLocation(lat, lng, t);
        return true;
      }
      return false;
    }

    /** `compute_segment_moving_flag_for_new_point`. */
    method ComputeSegmentMovingFlag(lat: real, lng: real, t: real) returns (moving: bool)
      ensures moving == SegmentIsMoving(history, lat, lng, t, dist)
    {
      if |history| < 2 {
        return false;
      }
      var prev := history[|history| - 2];
      var dt := t - prev.ts;
      if dt <= 0.0 {
        return false;
      }
      var miles := dist(prev.Pos(), Point(lat, lng));
      var mph := miles / (dt / 3600.0);
      moving := mph > MovingSegmentFloor && 0.0 <= mph <= MaxRealisticSpeed;
    }

    /** `detect_last_position_movement`. */
    method DetectLastPositionMovement(lat: real, lng: real) returns (moved: bool, miles: real)
      ensures (moved, miles) == DetectMovement(driver.lastPosition, lat, lng, dist)
    {
      if driver.lastPosition.None? {
        return true, 0.0;
      }
      miles := dist(driver.lastPosition.value, Point(lat, lng));
      moved := miles > PositionMovedMiles;
    }

    /** `update_driver_state`: record the position, the fix time `t` and the
        speed, and apply the `stopped_since` rule to the status and stopped
        duration read at `now`. */
    method UpdateDriverState(lat: real, lng: real, t: real, speed: real, now: real)
      modifies this
      ensures driver.lat == lat && driver.lng == lng && driver.lastUpdated == t && driver.speed == speed
      ensures driver.lastPosition == Some(Point(lat, lng))
      ensures driver.stoppedSince == StoppedSinceAfter(old(history), old(driver.stoppedSince), t, now, dist)
      ensures history == old(history) && dailyStats == old(dailyStats)
    {
      var next := ApplyStoppedSinceRule(history, driver.stoppedSince, t, now, dist);
      driver := Driver(lat, lng, t, speed, next, Some(Point(lat, lng)));
    }
  }
}
