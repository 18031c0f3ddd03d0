/** The 5-minute movement classification: status, stopped duration and the
    `stopped_since` rule of the driver state. */
module Movement {
  import opened Geo
  import opened History

  /** The trailing window (seconds) used for movement decisions. */
  const StatusWindow: real := 300.0
  /** A window covering more than this many miles (about 150 feet) is moving. */
  const MovingMiles: real := 0.028
  /** Below this many miles a window is a candidate for "unknown". */
  const NoDistanceMiles: real := 0.0001
  /** A stop must last this many seconds before `stopped_since` is set. */
  const StopConfirmSeconds: int := 300

  datatype Status = Moving | Stopped | Unknown

  /** Whether the window ending at `end` covers more than the movement threshold. */
  predicate WindowMoving(h: seq<Fix>, end: real, dist: Metric)
  {
    WindowDistance(h, end, StatusWindow, dist) > MovingMiles
  }

  /** Whether the window ending at fix `j` is (per `moving`) above the movement
      threshold: the test each step of the backward scans makes. */
  predicate ReadsAs(h: seq<Fix>, j: nat, moving: bool, dist: Metric)
    requires j < |h|
  {
    WindowMoving(h, h[j].ts, dist) == moving
  }

  /** A backward scan over the indices below `n`: the latest one passing `test`. */
  function LastWhere(n: nat, test: nat -> bool): (k: Option<nat>)
    ensures k.Some? ==> k.value < n
  {
    if n == 0 then None
    else if test(n - 1) then Some(n - 1)
    else LastWhere(n - 1, test)
  }

  /** The scan finds the latest passing index, with none passing after it, or
      reports that no index below `n` passes. */
  lemma {:induction false} LastWhereSpec(n: nat, test: nat -> bool)
    ensures var k := LastWhere(n, test);
      && (k.Some? ==> test(k.value))
      && (k.Some? ==> forall j :: k.value < j < n ==> !test(j))
      && (k.None? ==> forall j :: 0 <= j < n ==> !test(j))
  {
    if n > 0 && !test(n - 1) {
      LastWhereSpec(n - 1, test);
    }
  }

  /** The test of the backward scans: fix `j` exists and its window reads as `moving`. */
  function ScanTest(h: seq<Fix>, moving: bool, dist: Metric): nat -> bool
  {
    (j: nat) => j < |h| && ReadsAs(h, j, moving, dist)
  }

  /** The scan of the status and the stopped duration over the first `n` fixes:
      the latest index whose window is (or is not, per `moving`) moving. */
  function LastMatch(h: seq<Fix>, moving: bool, n: nat, dist: Metric): (k: Option<nat>)
    requires n <= |h|
    ensures k.Some? ==> k.value < n
  {
    LastWhere(n, ScanTest(h, moving, dist))
  }

  /** The scan finds the latest matching fix, with no match after it, or reports
      that none of the first `n` fixes matches. */
  lemma LastMatchSpec(h: seq<Fix>, moving: bool, n: nat, dist: Metric)
    requires n <= |h|
    ensures var k := LastMatch(h, moving, n, dist);
      && (k.Some? ==> ReadsAs(h, k.value, moving, dist))
      && (k.Some? ==> forall j :: k.value < j < n ==> !ReadsAs(h, j, moving, dist))
      && (k.None? ==> forall j :: 0 <= j < n ==> !ReadsAs(h, j, moving, dist))
  {
    var test := ScanTest(h, moving, dist);
    LastWhereSpec(n, test);
    var k := LastWhere(n, test);
    if k.Some? {
      assert test(k.value);
      forall j | k.value < j < n ensures !ReadsAs(h, j, moving, dist) {
        assert !test(j);
      }
    } else {
      forall j | 0 <= j < n ensures !ReadsAs(h, j, moving, dist) {
        assert !test(j);
      }
    }
  }

  /** `for pos in reversed(...): if test: break`: the loop of the backward scans. */
  method ScanBack(n: nat, test: nat -> bool) returns (k: Option<nat>)
    ensures k == LastWhere(n, test)
  {
    var i := n;
    while i > 0
      invariant 0 <= i <= n
      invariant LastWhere(n, test) == LastWhere(i, test)
    {
      if test(i - 1) {
        return Some(i - 1);
      }
      i := i - 1;
    }
    return None;
  }

  /** The backward scan shared by the status and the stopped duration: the latest
      fix whose own window (`compute_window_distance` ending at its timestamp)
      reads as `moving`. */
  method FindLast(h: seq<Fix>, moving: bool, dist: Metric) returns (k: Option<nat>)
    ensures k == LastMatch(h, moving, |h|, dist)
  {
    k := ScanBack(|h|, ScanTest(h, moving, dist));
  }

  /** The timestamp the scan settles on, or `now` when it finds nothing. */
  function TurnTime(h: seq<Fix>, moving: bool, now: real, dist: Metric): real
  {
    match LastMatch(h, moving, |h|, dist)
    case Some(k) => h[k].ts
    case None => now
  }

  /** `get_movement_status()` as a value: (status, since). */
  function MovementStatus(h: seq<Fix>, stoppedSince: Option<real>, now: real, dist: Metric): (r: (Status, Option<real>))
    ensures |h| < 2 ==> r == (Stopped, stoppedSince)
    ensures |h| >= 2 ==> (r.0 == Unknown <==> |WindowPositions(h, now, StatusWindow)| < 2)
    ensures |h| >= 2 && r.0 != Unknown ==> (r.0 == Moving <==> WindowMoving(h, now, dist))
    ensures r.0 == Unknown ==> r.1 == None
    ensures |h| >= 2 && r.0 == Moving ==> r.1 == Some(TurnTime(h, false, now, dist))
    ensures |h| >= 2 && r.0 == Stopped ==> r.1 == Some(TurnTime(h, true, now, dist))
  {
    if |h| < 2 then (Stopped, stoppedSince)
    else
      var total := WindowDistance(h, now, StatusWindow, dist);
      WindowDistanceBounds(h, now, StatusWindow, dist);
      if total < NoDistanceMiles && |WindowPositions(h, now, StatusWindow)| < 2 then (Unknown, None)
      else if total > MovingMiles then (Moving, Some(TurnTime(h, false, now, dist)))
      else (Stopped, Some(TurnTime(h, true, now, dist)))
  }

  /** When the status is moving, `since` is the latest fix whose own window was
      not moving (when every window moved, `now`); symmetrically when stopped. */
  lemma TurnTimeSpec(h: seq<Fix>, moving: bool, now: real, dist: Metric)
    ensures var t := TurnTime(h, moving, now, dist);
      || (t == now && forall j :: 0 <= j < |h| ==> !ReadsAs(h, j, moving, dist))
      || (exists k :: 0 <= k < |h| && t == h[k].ts && ReadsAs(h, k, moving, dist) &&
           forall j :: k < j < |h| ==> !ReadsAs(h, j, moving, dist))
  {
    LastMatchSpec(h, moving, |h|, dist);
    match LastMatch(h, moving, |h|, dist)
    case Some(k) =>
      assert TurnTime(h, moving, now, dist) == h[k].ts;
    case None =>
  }

  method GetMovementStatus(h: seq<Fix>, stoppedSince: Option<real>, now: real, dist: Metric)
    returns (status: Status, since: Option<real>)
    ensures (status, since) == MovementStatus(h, stoppedSince, now, dist)
  {
    if |h| < 2 {
      return Stopped, stoppedSince;
    }
    var total := ComputeWindowDistance(h, now, StatusWindow, dist);
    if total < NoDistanceMiles {
      var recent := WindowPositions(h, now, StatusWindow);
      if |recent| < 2 {
        return Unknown, None;
      }
    }
    var isMoving := total > MovingMiles;
    var k := FindLast(h, !isMoving, dist);
    var mark := if k.Some? then h[k.value].ts else now;
    status := if isMoving then Moving else Stopped;
    since := Some(mark);
  }

  /** `get_stopped_duration()` as a value, in whole seconds (Python `int()`). A
      moving fix at timestamp 0 counts as none found, as `if last_moving_time:` does. */
  function StoppedDuration(h: seq<Fix>, now: real, dist: Metric): (secs: int)
    ensures |h| < 2 || WindowMoving(h, now, dist) ==> secs == 0
    ensures |h| >= 2 && !WindowMoving(h, now, dist) && LastMatch(h, true, |h|, dist).None? ==>
      secs == TruncateToInt(now - h[0].ts)
    ensures |h| >= 2 && !WindowMoving(h, now, dist) && LastMatch(h, true, |h|, dist).Some? ==>
      var k := LastMatch(h, true, |h|, dist).value;
      secs == TruncateToInt(now - (if h[k].ts != 0.0 then h[k].ts else h[0].ts))
    ensures (forall i :: 0 <= i < |h| ==> h[i].ts <= now) ==> secs >= 0
  {
    if |h| < 2 then 0
    else if WindowMoving(h, now, dist) then 0
    else
      match LastMatch(h, true, |h|, dist)
      case Some(k) =>
        if h[k].ts != 0.0 then TruncateToInt(now - h[k].ts) else TruncateToInt(now - h[0].ts)
      case None => TruncateToInt(now - h[0].ts)
  }

  method GetStoppedDuration(h: seq<Fix>, now: real, dist: Metric) returns (secs: int)
    ensures secs == StoppedDuration(h, now, dist)
  {
    if |h| < 2 {
      return 0;
    }
    var recentDistance := ComputeWindowDistance(h, now, StatusWindow, dist);
    if recentDistance > MovingMiles {
      return 0;
    }
    var k := FindLast(h, true, dist);
    if k.Some? && h[k.value].ts != 0.0 {
      return TruncateToInt(now - h[k.value].ts);
    }
    secs := TruncateToInt(now - h[0].ts);
  }

  /** The status and the stopped duration read the same window: a moving status
      means a stopped duration of 0. */
  lemma MovingMeansNoStoppedTime(h: seq<Fix>, stoppedSince: Option<real>, now: real, dist: Metric)
    requires MovementStatus(h, stoppedSince, now, dist).0 == Moving
    ensures StoppedDuration(h, now, dist) == 0
  {
  }

  /** The `stopped_since` rule of `update_driver_state`, given the status and the
      stopped duration it reads and the fix time `t`. */
  function NextStoppedSince(prev: Option<real>, status: Status, stoppedSecs: int, t: real): (r: Option<real>)
    ensures r.Some? ==> status == Stopped && stoppedSecs >= StopConfirmSeconds
    ensures status == Stopped && stoppedSecs >= StopConfirmSeconds ==>
      r == if prev.Some? then prev else Some(t - stoppedSecs as real)
  {
    if status == Stopped then
      if stoppedSecs >= StopConfirmSeconds then (if prev.None? then Some(t - stoppedSecs as real) else prev)
      else None
    else None
  }

  /** `stopped_since` after a fix at `t`, with the status and the stopped
      duration read at `now`. */
  function StoppedSinceAfter(h: seq<Fix>, prev: Option<real>, t: real, now: real, dist: Metric): Option<real>
  {
    NextStoppedSince(prev, MovementStatus(h, prev, now, dist).0, StoppedDuration(h, now, dist), t)
  }

  /** `stopped_since` is only ever set on a confirmed stop: a "stopped" status
      that has lasted at least five minutes; then it is the time the stop began
      (fix time minus the stopped duration) unless it was already set. */
  lemma StoppedSinceMeansConfirmedStop(h: seq<Fix>, prev: Option<real>, t: real, now: real, dist: Metric)
    ensures var r := StoppedSinceAfter(h, prev, t, now, dist);
      && (r.Some? ==> MovementStatus(h, prev, now, dist).0 == Stopped &&
                      StoppedDuration(h, now, dist) >= StopConfirmSeconds)
      && (r.Some? && prev.None? ==> r.value == t - StoppedDuration(h, now, dist) as real)
      && (r.Some? && prev.Some? ==> r == prev)
  {
  }

  /** The two branches of the rule for a "stopped" reading. */
  lemma StoppedSinceCases(prev: Option<real>, secs: int, t: real)
    ensures secs >= StopConfirmSeconds ==>
      NextStoppedSince(prev, Stopped, secs, t) == if prev.None? then Some(t - secs as real) else prev
    ensures secs < StopConfirmSeconds ==> NextStoppedSince(prev, Stopped, secs, t) == None
  {
  }

  /** The `stopped_since` branch of `update_driver_state`: the stopped duration
      is read only when the status is "stopped". */
  method ApplyStoppedSinceRule(h: seq<Fix>, prev: Option<real>, t: real, now: real, dist: Metric)
    returns (next: Option<real>)
    ensures next == StoppedSinceAfter(h, prev, t, now, dist)
  {
    var status, _ := GetMovementStatus(h, prev, now, dist);
    ghost var st := MovementStatus(h, prev, now, dist).0;
    assert status == st;
    if status == Stopped {
      var secs := GetStoppedDuration(h, now, dist);
      StoppedSinceCases(prev, secs, t);
      if secs >= StopConfirmSeconds {
        next := if prev.None? then Some(t - secs as real) else prev;
      } else {
        next := None;
      }
    } else {
      next := None;
    }
  }

  /** With fewer than two fixes the status reads "stopped" but the stopped
      duration is 0, so `stopped_since` is cleared rather than kept. */
  lemma ShortHistoryClearsStoppedSince(h: seq<Fix>, prev: Option<real>, now: real, t: real, dist: Metric)
    requires |h| < 2
    ensures NextStoppedSince(prev, MovementStatus(h, prev, now, dist).0, StoppedDuration(h, now, dist), t) == None
  {
  }

  /** Once set, `stopped_since` keeps its value while the stop stays confirmed,
      and any moving or unknown reading clears it. */
  lemma StoppedSinceIsSticky(prev: Option<real>, status: Status, stoppedSecs: int, t: real)
    ensures prev.Some? && status == Stopped && stoppedSecs >= StopConfirmSeconds ==>
      NextStoppedSince(prev, status, stoppedSecs, t) == prev
    ensures status != Stopped ==> NextStoppedSince(prev, status, stoppedSecs, t) == None
  {
  }
}
