/** The in-memory history of recent fixes: trimming, time windows, the window
    distance and the persist-due test. */
module History {
  import opened Geo
  import opened Seqs

  /** The sort key of a fix. */
  function TsKey(f: Fix): real { f.ts }

  function AtOrAfter(cutoff: real): Fix -> bool
  {
    (f: Fix) => f.ts >= cutoff
  }

  function Between(lo: real, hi: real): Fix -> bool
  {
    (f: Fix) => lo <= f.ts <= hi
  }

  function NotOlderThan(now: real, seconds: real): Fix -> bool
  {
    (f: Fix) => now - f.ts <= seconds
  }

  /** The oldest timestamp `trim_history_hours` keeps. */
  function Cutoff(now: real, hours: real): real
  {
    now - hours * 3600.0
  }

  /** The history after `trim_history_hours`: the fixes at or after the cutoff. */
  function KeepSince(h: seq<Fix>, cutoff: real): seq<Fix>
  {
    Filter(h, AtOrAfter(cutoff))
  }

  /** Trimming keeps exactly the fixes with `ts >= cutoff`, each as often as it
      occurred, in their original order (trimming a split list trims each part). */
  lemma TrimKeepsExactlyRecent(h: seq<Fix>, cutoff: real)
    ensures forall i :: 0 <= i < |KeepSince(h, cutoff)| ==> KeepSince(h, cutoff)[i].ts >= cutoff
    ensures forall f: Fix :: multiset(KeepSince(h, cutoff))[f] == if f.ts >= cutoff then multiset(h)[f] else 0
    ensures forall k :: 0 <= k <= |h| ==>
      KeepSince(h, cutoff) == KeepSince(h[..k], cutoff) + KeepSince(h[k..], cutoff)
    ensures KeepSince(KeepSince(h, cutoff), cutoff) == KeepSince(h, cutoff)
  {
    forall f: Fix ensures multiset(KeepSince(h, cutoff))[f] == if f.ts >= cutoff then multiset(h)[f] else 0 {
      FilterCount(h, AtOrAfter(cutoff), f);
    }
    forall k | 0 <= k <= |h|
      ensures KeepSince(h, cutoff) == KeepSince(h[..k], cutoff) + KeepSince(h[k..], cutoff)
    {
      assert h == h[..k] + h[k..];
      FilterAppend(h[..k], h[k..], AtOrAfter(cutoff));
    }
    FilterIdempotent(h, AtOrAfter(cutoff));
  }

  /** `get_positions_in_window`: the fixes with `end - window <= ts <= end`,
      sorted by timestamp (stably). */
  function WindowPositions(h: seq<Fix>, end: real, window: real): seq<Fix>
  {
    SortBy(Filter(h, Between(end - window, end)), TsKey)
  }

  /** The window holds exactly the fixes of the history inside it, sorted
      ascending; on a history already in timestamp order it is the plain filter. */
  lemma WindowPositionsSpec(h: seq<Fix>, end: real, window: real)
    ensures SortedBy(WindowPositions(h, end, window), TsKey)
    ensures forall i :: 0 <= i < |WindowPositions(h, end, window)| ==>
      end - window <= WindowPositions(h, end, window)[i].ts <= end
    ensures forall f: Fix :: multiset(WindowPositions(h, end, window))[f] ==
                             if end - window <= f.ts <= end then multiset(h)[f] else 0
    ensures SortedBy(h, TsKey) ==> WindowPositions(h, end, window) == Filter(h, Between(end - window, end))
  {
    var kept := Filter(h, Between(end - window, end));
    var r := WindowPositions(h, end, window);
    SortBySpec(kept, TsKey);
    forall f: Fix ensures multiset(r)[f] == if end - window <= f.ts <= end then multiset(h)[f] else 0 {
      FilterCount(h, Between(end - window, end), f);
    }
    forall i | 0 <= i < |r| ensures end - window <= r[i].ts <= end {
      assert r[i] in multiset(r);
      assert r[i] in multiset(kept);
    }
    if SortedBy(h, TsKey) {
      FilterSorted(h, Between(end - window, end), TsKey);
      SortBySorted(kept, TsKey);
    }
  }

  /** `compute_window_distance` as a value: the path length through the window. */
  function WindowDistance(h: seq<Fix>, end: real, window: real, dist: Metric): real
  {
    PathLength(Points(WindowPositions(h, end, window)), dist)
  }

  method ComputeWindowDistance(h: seq<Fix>, end: real, window: real, dist: Metric) returns (total: real)
    ensures total == WindowDistance(h, end, window, dist)
  {
    var positions := WindowPositions(h, end, window);
    if |positions| < 2 {
      return 0.0;
    }
    total := SumSegments(Points(positions), dist);
  }

  /** A window with fewer than two fixes has no distance, and no window distance
      is negative. */
  lemma WindowDistanceBounds(h: seq<Fix>, end: real, window: real, dist: Metric)
    ensures WindowDistance(h, end, window, dist) >= 0.0
    ensures |WindowPositions(h, end, window)| < 2 ==> WindowDistance(h, end, window, dist) == 0.0
  {
  }

  /** The comprehension `[loc for loc in history if now - loc.ts <= seconds]`
      used by the speed estimates; it keeps history order and does not sort. */
  function RecentFixes(h: seq<Fix>, now: real, seconds: real): seq<Fix>
  {
    Filter(h, NotOlderThan(now, seconds))
  }

  /** `periodic_persist_history`'s test, as written: the length of the history
      (just after the append, before the trim) is a multiple of three. */
  function PersistDue(h: seq<Fix>): bool
  {
    |h| % 3 == 0
  }

  /** One poll as the ingest sequences it: append the fix, test whether the
      history is due to be persisted, then trim to one hour. */
  function PollStep(h: seq<Fix>, f: Fix, now: real): (seq<Fix>, bool)
  {
    (KeepSince(h + [f], Cutoff(now, 1.0)), PersistDue(h + [f]))
  }

  /** How many of a run of polls persist the history. */
  function PersistCount(h: seq<Fix>, fixes: seq<Fix>, nows: seq<real>): nat
    requires |fixes| == |nows|
    decreases |fixes|
  {
    if fixes == [] then 0
    else
      var step := PollStep(h, fixes[0], nows[0]);
      (if step.1 then 1 else 0) + PersistCount(step.0, fixes[1..], nows[1..])
  }

  /** Every poll of the run trims the history back to the length it started with. */
  predicate SteadyRun(h: seq<Fix>, fixes: seq<Fix>, nows: seq<real>)
    requires |fixes| == |nows|
    decreases |fixes|
  {
    fixes == [] ||
    (var next := PollStep(h, fixes[0], nows[0]).0;
     |next| == |h| && SteadyRun(next, fixes[1..], nows[1..]))
  }

  /** As written, a window whose trimmed length stays at L with L + 1 not a
      multiple of three (60 fixes at a 60-second cadence: every test sees 61)
      is never persisted, however long the run. */
  lemma {:induction false} SteadyWindowIsNeverPersisted(h: seq<Fix>, fixes: seq<Fix>, nows: seq<real>)
    requires |fixes| == |nows|
    requires SteadyRun(h, fixes, nows)
    requires |h| % 3 != 2
    ensures PersistCount(h, fixes, nows) == 0
    decreases |fixes|
  {
    if fixes != [] {
      var next := PollStep(h, fixes[0], nows[0]).0;
      assert |h + [fixes[0]]| == |h| + 1;
      SteadyWindowIsNeverPersisted(next, fixes[1..], nows[1..]);
    }
  }

  /** The intended rule, "persist every third point": a counter of polls since
      the last flush (below three), independent of how long the history is. */
  function PollStepCounted(h: seq<Fix>, sinceFlush: nat, f: Fix, now: real): (seq<Fix>, nat, bool)
    requires sinceFlush < 3
  {
    var calls := sinceFlush + 1;
    (KeepSince(h + [f], Cutoff(now, 1.0)), if calls == 3 then 0 else calls, calls == 3)
  }

  function PersistCountCounted(h: seq<Fix>, sinceFlush: nat, fixes: seq<Fix>, nows: seq<real>): nat
    requires sinceFlush < 3
    requires |fixes| == |nows|
    decreases |fixes|
  {
    if fixes == [] then 0
    else
      var step := PollStepCounted(h, sinceFlush, fixes[0], nows[0]);
      (if step.2 then 1 else 0) + PersistCountCounted(step.0, step.1, fixes[1..], nows[1..])
  }

  /** With the counter, a run of n polls starting c polls after a flush persists
      exactly (c + n) / 3 times, whatever the trim does to the history. */
  lemma {:induction false} CountedPersistsEveryThird(h: seq<Fix>, sinceFlush: nat, fixes: seq<Fix>, nows: seq<real>)
    requires sinceFlush < 3
    requires |fixes| == |nows|
    ensures PersistCountCounted(h, sinceFlush, fixes, nows) == (sinceFlush + |fixes|) / 3
    decreases |fixes|
  {
    if fixes != [] {
      var step := PollStepCounted(h, sinceFlush, fixes[0], nows[0]);
      CountedPersistsEveryThird(step.0, step.1, fixes[1..], nows[1..]);
    }
  }
}
