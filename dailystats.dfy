/** The per-day aggregate kept in the `daily_stats` dictionary (the older of the
    two daily summaries): mileage, the sticky start location and travel time. */
module DailyStats {
  import opened Geo

  /** An ISO date string, as `date.fromtimestamp(ts).isoformat()` returns. */
  type Day = string

  /** One `daily_stats[day]` entry. `lastMovementUpdate` is the optional
      `last_movement_update` key: absent until the first moving fix of the day. */
  datatype DayStats = DayStats(
    totalMiles: real,
    startTime: real,
    startLocation: Option<Point>,
    endLocation: Option<Point>,
    firstMovementTime: Option<real>,
    lastMovementTime: Option<real>,
    totalTravelTime: real,
    lastUpdateTime: real,
    lastMovementUpdate: Option<real>)

  /** The entry both writers create for a day they find missing. */
  function NewDay(t: real): DayStats
  {
    DayStats(0.0, t, None, None, None, None, 0.0, t, None)
  }

  function EntryOrNew(stats: map<Day, DayStats>, day: Day, t: real): DayStats
  {
    if day in stats then stats[day] else NewDay(t)
  }

  /** `update_daily_stats`: add a segment's miles to the day of fix time `t`
      (creating the day with 0 miles) and move its end to `p`. */
  function AddSegment(stats: map<Day, DayStats>, day: Day, miles: real, t: real, p: Point): (r: map<Day, DayStats>)
    ensures r.Keys == stats.Keys + {day}
    ensures forall k :: k in stats && k != day ==> r[k] == stats[k]
    ensures r[day].totalMiles == (if day in stats then stats[day].totalMiles else 0.0) + miles
    ensures r[day].endLocation == Some(p) && r[day].lastMovementTime == Some(t) && r[day].lastUpdateTime == t
    ensures day in stats ==>
      && r[day].startTime == stats[day].startTime
      && r[day].startLocation == stats[day].startLocation
      && r[day].firstMovementTime == stats[day].firstMovementTime
      && r[day].totalTravelTime == stats[day].totalTravelTime
      && r[day].lastMovementUpdate == stats[day].lastMovementUpdate
    ensures day !in stats ==>
      && r[day].startTime == t && r[day].startLocation == None && r[day].firstMovementTime == None
      && r[day].totalTravelTime == 0.0 && r[day].lastMovementUpdate == None
  {
    var e := EntryOrNew(stats, day, t);
    stats[day := e.(totalMiles := e.totalMiles + miles, lastUpdateTime := t,
                    lastMovementTime := Some(t), endLocation := Some(p))]
  }

  /** `set_daily_start_location`: the start location and first-movement time are
      written only while the day has no start location. */
  function SetStart(stats: map<Day, DayStats>, day: Day, t: real, p: Point): (r: map<Day, DayStats>)
    ensures r.Keys == stats.Keys + {day}
    ensures forall k :: k in stats && k != day ==> r[k] == stats[k]
    ensures day in stats && stats[day].startLocation.Some? ==> r == stats
    ensures day !in stats || stats[day].startLocation.None? ==>
      && r[day].startLocation == Some(p) && r[day].firstMovementTime == Some(t)
      && r[day] == EntryOrNew(stats, day, t).(startLocation := Some(p), firstMovementTime := Some(t))
  {
    var e := EntryOrNew(stats, day, t);
    if e.startLocation.None? then stats[day := e.(startLocation := Some(p), firstMovementTime := Some(t))]
    else stats
  }

  /** What `handle_segment_update_for_new_point` does to the stats once the
      segment passes its test. */
  function ApplySegment(stats: map<Day, DayStats>, day: Day, miles: real, t: real, p: Point): map<Day, DayStats>
  {
    SetStart(AddSegment(stats, day, miles, t, p), day, t, p)
  }

  /** The start of a day is sticky: the first counted segment of the day sets it
      to that segment's end and time, later ones keep it; mileage grows by exactly
      the segment and no other day changes. */
  lemma ApplySegmentSpec(stats: map<Day, DayStats>, day: Day, miles: real, t: real, p: Point)
    ensures var r := ApplySegment(stats, day, miles, t, p);
      var started := day in stats && stats[day].startLocation.Some?;
      && r.Keys == stats.Keys + {day}
      && (forall k :: k in stats && k != day ==> r[k] == stats[k])
      && r[day].startLocation == (if started then stats[day].startLocation else Some(p))
      && r[day].firstMovementTime == (if started then stats[day].firstMovementTime else Some(t))
      && r[day].totalMiles == (if day in stats then stats[day].totalMiles else 0.0) + miles
      && r[day].endLocation == Some(p)
  {
    var a := AddSegment(stats, day, miles, t, p);
    assert a[day].startLocation == (if day in stats then stats[day].startLocation else None);
  }

  /** Two counted segments on the same day: the second never moves the start. */
  lemma StartSurvivesLaterSegments(stats: map<Day, DayStats>, day: Day, m1: real, t1: real, p1: Point,
                                   m2: real, t2: real, p2: Point)
    ensures var s1 := ApplySegment(stats, day, m1, t1, p1);
      var s2 := ApplySegment(s1, day, m2, t2, p2);
      s2[day].startLocation == s1[day].startLocation && s2[day].firstMovementTime == s1[day].firstMovementTime
  {
    ApplySegmentSpec(stats, day, m1, t1, p1);
    ApplySegmentSpec(ApplySegment(stats, day, m1, t1, p1), day, m2, t2, p2);
  }

  /** `update_travel_time` as written: on a moving fix, credit `t - base` when a
      base exists and move the base to `t`; a non-moving fix changes nothing. */
  function AccrueTravel(stats: map<Day, DayStats>, day: Day, t: real, moving: bool): (r: map<Day, DayStats>)
    ensures day !in stats || !moving ==> r == stats
    ensures r.Keys == stats.Keys
    ensures forall k :: k in stats && k != day ==> r[k] == stats[k]
    ensures day in stats && moving ==>
      && r[day].lastMovementUpdate == Some(t)
      && r[day].totalTravelTime == stats[day].totalTravelTime +
           (match stats[day].lastMovementUpdate case Some(b) => t - b case None => 0.0)
      && r[day] == stats[day].(totalTravelTime := r[day].totalTravelTime, lastMovementUpdate := Some(t))
  {
    if day in stats then
      var e := stats[day];
      var total := if moving && e.lastMovementUpdate.Some? then e.totalTravelTime + (t - e.lastMovementUpdate.value)
                   else e.totalTravelTime;
      var base := if moving then Some(t) else e.lastMovementUpdate;
      stats[day := e.(totalTravelTime := total, lastMovementUpdate := base)]
    else stats
  }

  /** Travel time never decreases as long as fix times do not run backwards. */
  lemma TravelTimeNeverDecreases(stats: map<Day, DayStats>, day: Day, t: real, moving: bool)
    requires day in stats
    requires stats[day].lastMovementUpdate.Some? ==> stats[day].lastMovementUpdate.value <= t
    ensures AccrueTravel(stats, day, t, moving)[day].totalTravelTime >= stats[day].totalTravelTime
    ensures AccrueTravelFixed(stats, day, t, moving)[day].totalTravelTime >= stats[day].totalTravelTime
  {
  }

  /** As written, a stop is credited as travel: moving at t1, a non-moving fix at
      t2, moving again at t3 adds the whole t3 - t1 (0, 60, 7200: a two-hour stop
      counts as two hours of driving). */
  lemma StopGapCreditedAsTravel(stats: map<Day, DayStats>, day: Day, t1: real, t2: real, t3: real)
    requires day in stats
    ensures var s1 := AccrueTravel(stats, day, t1, true);
      var s3 := AccrueTravel(AccrueTravel(s1, day, t2, false), day, t3, true);
      s3[day].totalTravelTime == s1[day].totalTravelTime + (t3 - t1)
  {
    var s1 := AccrueTravel(stats, day, t1, true);
    var s2 := AccrueTravel(s1, day, t2, false);
    assert s2 == s1;
    assert s1[day].lastMovementUpdate == Some(t1);
  }

  /** The accrual that counts only time spent moving, as the code's own comment
      says: a non-moving fix drops the base, so the next moving fix starts a
      fresh one and no stopped time is credited. */
  function AccrueTravelFixed(stats: map<Day, DayStats>, day: Day, t: real, moving: bool): (r: map<Day, DayStats>)
    ensures day !in stats ==> r == stats
    ensures r.Keys == stats.Keys
    ensures forall k :: k in stats && k != day ==> r[k] == stats[k]
    ensures day in stats ==>
      && r[day].lastMovementUpdate == (if moving then Some(t) else None)
      && r[day].totalTravelTime == stats[day].totalTravelTime +
           (if moving && stats[day].lastMovementUpdate.Some? then t - stats[day].lastMovementUpdate.value else 0.0)
      && r[day] == stats[day].(totalTravelTime := r[day].totalTravelTime, lastMovementUpdate := r[day].lastMovementUpdate)
  {
    if day in stats then
      var e := stats[day];
      var total := if moving && e.lastMovementUpdate.Some? then e.totalTravelTime + (t - e.lastMovementUpdate.value)
                   else e.totalTravelTime;
      stats[day := e.(totalTravelTime := total, lastMovementUpdate := if moving then Some(t) else None)]
    else stats
  }

  /** With the fix, the stop between t1 and t3 earns nothing. */
  lemma StopGapNotCredited(stats: map<Day, DayStats>, day: Day, t1: real, t2: real, t3: real)
    requires day in stats
    ensures var s1 := AccrueTravelFixed(stats, day, t1, true);
      var s3 := AccrueTravelFixed(AccrueTravelFixed(s1, day, t2, false), day, t3, true);
      s3[day].totalTravelTime == s1[day].totalTravelTime
  {
  }

  /** Accrual over a run of moving fixes at times `ts`, oldest first. */
  function AccrueMovingRun(stats: map<Day, DayStats>, day: Day, ts: seq<real>): map<Day, DayStats>
    decreases |ts|
  {
    if ts == [] then stats
    else AccrueTravelFixed(AccrueMovingRun(stats, day, ts[..|ts| - 1]), day, ts[|ts| - 1], true)
  }

  /** A run of moving fixes entered without a base is credited exactly the time
      from its first fix to its last: the first fix only sets the base. */
  lemma {:induction false} MovingRunCredit(stats: map<Day, DayStats>, day: Day, ts: seq<real>)
    requires day in stats && stats[day].lastMovementUpdate.None?
    requires |ts| >= 1
    ensures day in AccrueMovingRun(stats, day, ts)
    ensures AccrueMovingRun(stats, day, ts)[day].totalTravelTime == stats[day].totalTravelTime + (ts[|ts| - 1] - ts[0])
    ensures AccrueMovingRun(stats, day, ts)[day].lastMovementUpdate == Some(ts[|ts| - 1])
    decreases |ts|
  {
    if |ts| > 1 {
      var init := ts[..|ts| - 1];
      MovingRunCredit(stats, day, init);
      assert init[0] == ts[0];
    } else {
      assert ts[..0] == [];
    }
  }
}
