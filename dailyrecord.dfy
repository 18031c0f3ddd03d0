/** The per-day record (`daily_data`): its per-minute location series, the
    record a new day starts from, the daily distance and the migration of the
    legacy `samples_by_minute` format. */
module DailyRecord {
  import opened Geo
  import opened Seqs

  /** One entry of `minute_locations`; `minute` counts minutes since the local
      midnight of the record's start day. */
  datatype MinuteEntry = MinuteEntry(minute: int, timestamp: real, lat: real, lng: real, speed: real, moving: bool)

  datatype Summary = Summary(firstMovementTime: Option<real>, lastMovementTime: Option<real>,
                             movingTimeSeconds: real, stoppedTimeSeconds: real)

  /** A `daily_<date>` record. Keys that a migrated record may carry as `None`
      are `Option`s; locations are stored with their timestamp. */
  datatype DailyRecord = DailyRecord(
    date: Option<string>,
    startTime: Option<real>,
    endTime: Option<real>,
    startLocation: Option<Fix>,
    endLocation: Option<Fix>,
    totalDistanceMiles: real,
    totalTravelTimeSeconds: real,
    minuteLocations: seq<MinuteEntry>,
    summary: Summary)

  const EmptySummary: Summary := Summary(None, None, 0.0, 0.0)

  /** The record `create_empty_daily_file` builds (its storage writes are not
      modelled). */
  function NewDailyRecord(date: string, startTime: real, lat: real, lng: real): DailyRecord
  {
    DailyRecord(Some(date), Some(startTime), None, Some(Fix(lat, lng, startTime)), None,
                0.0, 0.0, [], EmptySummary)
  }

  /** The sort key of `minute_locations.sort(key=lambda x: x['minute'])`. */
  function MinuteKey(e: MinuteEntry): real { e.minute as real }

  /** Minutes strictly increase along the series: sorted, at most one entry per minute. */
  predicate WellFormedSeries(ml: seq<MinuteEntry>)
  {
    forall i, j :: 0 <= i < j < |ml| ==> ml[i].minute < ml[j].minute
  }

  /** The first index at or after `i` holding minute `m`. */
  function FirstMinuteFrom(ml: seq<MinuteEntry>, m: int, i: nat): (k: Option<nat>)
    requires i <= |ml|
    ensures k.Some? ==> i <= k.value < |ml| && ml[k.value].minute == m
    ensures k.Some? ==> forall j :: i <= j < k.value ==> ml[j].minute != m
    ensures k.None? ==> forall j :: i <= j < |ml| ==> ml[j].minute != m
    decreases |ml| - i
  {
    if i == |ml| then None
    else if ml[i].minute == m then Some(i)
    else FirstMinuteFrom(ml, m, i + 1)
  }

  /** The `for loc in ...: if loc['minute'] == m: ... break` search. */
  method FindMinute(ml: seq<MinuteEntry>, m: int) returns (k: Option<nat>)
    ensures k == FirstMinuteFrom(ml, m, 0)
  {
    var i := 0;
    while i < |ml|
      invariant 0 <= i <= |ml|
      invariant FirstMinuteFrom(ml, m, 0) == FirstMinuteFrom(ml, m, i)
    {
      if ml[i].minute == m {
        return Some(i);
      }
      i := i + 1;
    }
    return None;
  }

  /** The upsert: overwrite the first entry of the same minute in place, or
      append the entry and re-sort by minute. */
  function Upsert(ml: seq<MinuteEntry>, e: MinuteEntry): (r: seq<MinuteEntry>)
    ensures e in r
  {
    match FirstMinuteFrom(ml, e.minute, 0)
    case Some(k) =>
      assert ml[k := e][k] == e;
      ml[k := e]
    case None =>
      SortBySpec(ml + [e], MinuteKey);
      assert e in multiset(ml + [e]);
      SortBy(ml + [e], MinuteKey)
  }

  /** Inserting an entry of a minute not yet present keeps minutes strictly increasing. */
  lemma {:induction false} InsertKeepsSeries(e: MinuteEntry, ml: seq<MinuteEntry>)
    requires WellFormedSeries(ml)
    requires forall i :: 0 <= i < |ml| ==> ml[i].minute != e.minute
    ensures WellFormedSeries(Insert(e, ml, MinuteKey))
  {
    if ml != [] && MinuteKey(e) >= MinuteKey(ml[0]) {
      var tail := ml[1..];
      assert forall i :: 0 <= i < |tail| ==> tail[i] == ml[i + 1];
      InsertKeepsSeries(e, tail);
      var rest := Insert(e, tail, MinuteKey);
      InsertPermutes(e, tail, MinuteKey);
      forall j | 0 <= j < |rest| ensures ml[0].minute < rest[j].minute {
        assert rest[j] in multiset(rest);
        if rest[j] != e {
          assert rest[j] in multiset(tail);
          var i :| 0 <= i < |tail| && tail[i] == rest[j];
          assert ml[0].minute < ml[i + 1].minute;
        }
      }
      assert Insert(e, ml, MinuteKey) == [ml[0]] + rest;
      ConsKeepsSeries(ml[0], rest);
    }
  }

  /** An entry of a smaller minute than every entry of a series may go in front. */
  lemma ConsKeepsSeries(x: MinuteEntry, rest: seq<MinuteEntry>)
    requires WellFormedSeries(rest)
    requires forall j :: 0 <= j < |rest| ==> x.minute < rest[j].minute
    ensures WellFormedSeries([x] + rest)
  {
    var s := [x] + rest;
    forall i, j | 0 <= i < j < |s| ensures s[i].minute < s[j].minute {
      assert s[j] == rest[j - 1];
      if i > 0 {
        assert s[i] == rest[i - 1];
      }
    }
  }

  /** An existing minute: the entry is overwritten in place; the other entries,
      all of other minutes, stay where they are. */
  lemma UpsertExisting(ml: seq<MinuteEntry>, e: MinuteEntry, k: nat)
    requires WellFormedSeries(ml)
    requires k < |ml| && ml[k].minute == e.minute
    ensures Upsert(ml, e) == ml[k := e]
    ensures WellFormedSeries(Upsert(ml, e))
    ensures forall x :: x in Upsert(ml, e) <==> x == e || (x in ml && x.minute != e.minute)
  {
    var f := FirstMinuteFrom(ml, e.minute, 0);
    assert f == Some(k);
    var r := ml[k := e];
    forall x ensures x in r <==> x == e || (x in ml && x.minute != e.minute) {
      if x in r && x != e {
        var i :| 0 <= i < |r| && r[i] == x;
        assert i != k && x == ml[i];
        assert ml[i].minute < ml[k].minute || ml[k].minute < ml[i].minute;
      }
      assert r[k] == e;
      if x in ml && x.minute != e.minute {
        var i :| 0 <= i < |ml| && ml[i] == x;
        assert r[i] == x;
      }
    }
  }

  /** A new minute: the entry is inserted in minute order and nothing else changes. */
  lemma UpsertNew(ml: seq<MinuteEntry>, e: MinuteEntry)
    requires WellFormedSeries(ml)
    requires forall i :: 0 <= i < |ml| ==> ml[i].minute != e.minute
    ensures Upsert(ml, e) == Insert(e, ml, MinuteKey)
    ensures WellFormedSeries(Upsert(ml, e))
    ensures multiset(Upsert(ml, e)) == multiset(ml) + multiset{e}
    ensures forall x :: x in Upsert(ml, e) <==> x == e || (x in ml && x.minute != e.minute)
  {
    SortByAppend(ml, e, MinuteKey);
    SortBySorted(ml, MinuteKey);
    InsertKeepsSeries(e, ml);
    InsertPermutes(e, ml, MinuteKey);
    var r := Upsert(ml, e);
    forall x ensures x in r <==> x == e || (x in ml && x.minute != e.minute) {
      assert x in r <==> x in multiset(r);
      assert x in ml <==> x in multiset(ml);
    }
  }

  /** On a well-formed series the upsert keeps minutes strictly increasing and
      holds exactly the new entry plus every entry of another minute. */
  lemma UpsertSpec(ml: seq<MinuteEntry>, e: MinuteEntry)
    requires WellFormedSeries(ml)
    ensures WellFormedSeries(Upsert(ml, e))
    ensures forall x :: x in Upsert(ml, e) <==> x == e || (x in ml && x.minute != e.minute)
  {
    match FirstMinuteFrom(ml, e.minute, 0)
    case Some(k) => UpsertExisting(ml, e, k);
    case None => UpsertNew(ml, e);
  }

  /** Appending a minute later than all others adds it at the end. */
  lemma LaterMinuteAppends(ml: seq<MinuteEntry>, e: MinuteEntry)
    requires WellFormedSeries(ml)
    requires forall i :: 0 <= i < |ml| ==> ml[i].minute < e.minute
    ensures Upsert(ml, e) == ml + [e]
  {
    SortByAppend(ml, e, MinuteKey);
    SortBySorted(ml, MinuteKey);
    InsertAtEnd(e, ml, MinuteKey);
  }

  /** Whether a sample repeats the last entry's latitude, longitude and timestamp. */
  predicate RepeatsLast(ml: seq<MinuteEntry>, ts: real, lat: real, lng: real)
  {
    |ml| > 0 && ml[|ml| - 1].lat == lat && ml[|ml| - 1].lng == lng && ml[|ml| - 1].timestamp == ts
  }

  /** `add_minute_location` as a value. `minuteOf(start, ts)` is the local
      minute-of-day computation; `None` is the error raised when the record has
      no start time to compute it from. */
  function AddMinute(rec: DailyRecord, ts: real, lat: real, lng: real, speed: real, moving: bool,
                     minuteOf: (real, real) -> int): (r: Option<DailyRecord>)
    ensures !moving || RepeatsLast(rec.minuteLocations, ts, lat, lng) ==> r == Some(rec)
    ensures r.None? <==> moving && !RepeatsLast(rec.minuteLocations, ts, lat, lng) && rec.startTime.None?
    ensures moving && !RepeatsLast(rec.minuteLocations, ts, lat, lng) && rec.startTime.Some? ==>
      r == Some(rec.(minuteLocations :=
                       Upsert(rec.minuteLocations, MinuteEntry(minuteOf(rec.startTime.value, ts), ts, lat, lng, speed, true)),
                     endLocation := Some(Fix(lat, lng, ts)), endTime := Some(ts)))
  {
    if !moving || RepeatsLast(rec.minuteLocations, ts, lat, lng) then Some(rec)
    else if rec.startTime.None? then None
    else
      var entry := MinuteEntry(minuteOf(rec.startTime.value, ts), ts, lat, lng, speed, moving);
      Some(rec.(minuteLocations := Upsert(rec.minuteLocations, entry),
                endLocation := Some(Fix(lat, lng, ts)), endTime := Some(ts)))
  }

  method AddMinuteLocation(rec: DailyRecord, ts: real, lat: real, lng: real, speed: real, moving: bool,
                           minuteOf: (real, real) -> int) returns (r: Option<DailyRecord>)
    ensures r == AddMinute(rec, ts, lat, lng, speed, moving, minuteOf)
  {
    if !moving {
      return Some(rec);
    }
    var ml := rec.minuteLocations;
    if |ml| > 0 {
      var last := ml[|ml| - 1];
      if last.lat == lat && last.lng == lng && last.timestamp == ts {
        return Some(rec);
      }
    }
    if rec.startTime.None? {
      return None;
    }
    var entry := MinuteEntry(minuteOf(rec.startTime.value, ts), ts, lat, lng, speed, moving);
    var k := FindMinute(ml, entry.minute);
    if k.Some? {
      ml := ml[k.value := entry];
    } else {
      ml := SortBy(ml + [entry], MinuteKey);
    }
    r := Some(rec.(minuteLocations := ml, endLocation := Some(Fix(lat, lng, ts)), endTime := Some(ts)));
  }

  /** A moving sample recorded into a well-formed series keeps it well formed;
      the new series holds the sample and every entry of another minute, and the
      record now ends at the sample. */
  lemma AddMinuteKeepsSeries(rec: DailyRecord, ts: real, lat: real, lng: real, speed: real,
                             minuteOf: (real, real) -> int)
    requires WellFormedSeries(rec.minuteLocations)
    requires rec.startTime.Some? && !RepeatsLast(rec.minuteLocations, ts, lat, lng)
    ensures var r := AddMinute(rec, ts, lat, lng, speed, true, minuteOf);
      var m := minuteOf(rec.startTime.value, ts);
      && r.Some?
      && WellFormedSeries(r.value.minuteLocations)
      && MinuteEntry(m, ts, lat, lng, speed, true) in r.value.minuteLocations
      && (forall x :: x in rec.minuteLocations && x.minute != m ==> x in r.value.minuteLocations)
      && (forall x :: x in r.value.minuteLocations ==> x.minute == m || x in rec.minuteLocations)
      && r.value.endLocation == Some(Fix(lat, lng, ts)) && r.value.endTime == Some(ts)
  {
    UpsertSpec(rec.minuteLocations, MinuteEntry(minuteOf(rec.startTime.value, ts), ts, lat, lng, speed, true));
  }

  /** The first moving sample of a fresh day becomes its only entry. */
  lemma FirstSampleOfFreshDay(date: string, startTime: real, sLat: real, sLng: real,
                              ts: real, lat: real, lng: real, speed: real, minuteOf: (real, real) -> int)
    ensures AddMinute(NewDailyRecord(date, startTime, sLat, sLng), ts, lat, lng, speed, true, minuteOf) ==
      Some(NewDailyRecord(date, startTime, sLat, sLng).(
        minuteLocations := [MinuteEntry(minuteOf(startTime, ts), ts, lat, lng, speed, true)],
        endLocation := Some(Fix(lat, lng, ts)), endTime := Some(ts)))
  {
    LaterMinuteAppends([], MinuteEntry(minuteOf(startTime, ts), ts, lat, lng, speed, true));
  }

  /** The positions of the series, in list order. */
  function EntryPoints(ml: seq<MinuteEntry>): (ps: seq<Point>)
    ensures |ps| == |ml|
    ensures forall i :: 0 <= i < |ml| ==> ps[i] == Point(ml[i].lat, ml[i].lng)
  {
    seq(|ml|, i requires 0 <= i < |ml| => Point(ml[i].lat, ml[i].lng))
  }

  /** `calculate_daily_distance`: the path length through the series in list order. */
  method CalculateDailyDistance(rec: DailyRecord, dist: Metric) returns (total: real)
    ensures total == PathLength(EntryPoints(rec.minuteLocations), dist)
    ensures total >= 0.0
  {
    var locations := rec.minuteLocations;
    if |locations| < 2 {
      return 0.0;
    }
    total := SumSegments(EntryPoints(locations), dist);
  }

  /** A sample for a later minute extends the daily distance by exactly one
      segment, from the previous last entry to the sample. */
  lemma LaterMinuteExtendsDistance(ml: seq<MinuteEntry>, e: MinuteEntry, dist: Metric)
    requires WellFormedSeries(ml) && ml != []
    requires forall i :: 0 <= i < |ml| ==> ml[i].minute < e.minute
    ensures PathLength(EntryPoints(Upsert(ml, e)), dist) ==
      PathLength(EntryPoints(ml), dist) + dist(Point(ml[|ml| - 1].lat, ml[|ml| - 1].lng), Point(e.lat, e.lng))
  {
    LaterMinuteAppends(ml, e);
    assert EntryPoints(ml + [e]) == EntryPoints(ml) + [Point(e.lat, e.lng)];
    PathLengthAppend(EntryPoints(ml), Point(e.lat, e.lng), dist);
  }

  /** One value of the legacy `samples_by_minute` map. */
  datatype Sample = Sample(lat: real, lng: real, speed: Option<real>)

  /** A record in the legacy format; the map is kept in its stored order, keyed
      by the sample's (already parsed) integer timestamp. */
  datatype LegacyDay = LegacyDay(
    date: Option<string>,
    startTime: Option<real>,
    endTime: Option<real>,
    startLocation: Option<Fix>,
    endLocation: Option<Fix>,
    totalMiles: Option<real>,
    totalTravelTime: Option<real>,
    samplesByMinute: Option<seq<(int, Sample)>>)

  /** What a load finds in storage: a current record or a legacy one. */
  datatype StoredDay = Current(record: DailyRecord) | Legacy(legacy: LegacyDay)

  /** The load guard: `samples_by_minute` present and `minute_locations` absent. */
  predicate NeedsMigration(s: StoredDay)
  {
    s.Legacy? && s.legacy.samplesByMinute.Some?
  }

  /** Python truthiness of an optional number. */
  predicate Truthy(x: Option<real>)
  {
    x.Some? && x.value != 0.0
  }

  function OrZero(x: Option<real>): real
  {
    if x.Some? then x.value else 0.0
  }

  /** The converted entry of one legacy sample; moving means speed above 1. */
  function MigrateSample(ts: int, s: Sample, start: real, minuteOf: (real, real) -> int): MinuteEntry
  {
    MinuteEntry(minuteOf(start, ts as real), ts as real, s.lat, s.lng, OrZero(s.speed), OrZero(s.speed) > 1.0)
  }

  /** The conversion loop over the samples, in stored order. */
  function MigrateSamples(samples: seq<(int, Sample)>, start: real, minuteOf: (real, real) -> int): (ml: seq<MinuteEntry>)
    ensures |ml| == |samples|
    ensures forall i :: 0 <= i < |samples| ==>
      && ml[i].timestamp == samples[i].0 as real
      && ml[i].minute == minuteOf(start, samples[i].0 as real)
      && ml[i].lat == samples[i].1.lat && ml[i].lng == samples[i].1.lng
      && ml[i].speed == OrZero(samples[i].1.speed)
      && (ml[i].moving <==> ml[i].speed > 1.0)
  {
    if samples == [] then []
    else [MigrateSample(samples[0].0, samples[0].1, start, minuteOf)] + MigrateSamples(samples[1..], start, minuteOf)
  }

  /** `migrate_old_daily_format`: copy the shared keys, rename the totals
      (missing ones become 0), start a fresh summary, and convert the samples
      only when the start time is truthy. */
  function Migrate(legacy: LegacyDay, minuteOf: (real, real) -> int): (r: DailyRecord)
    ensures r.date == legacy.date && r.startTime == legacy.startTime && r.endTime == legacy.endTime
    ensures r.startLocation == legacy.startLocation && r.endLocation == legacy.endLocation
    ensures r.totalDistanceMiles == OrZero(legacy.totalMiles) && r.totalTravelTimeSeconds == OrZero(legacy.totalTravelTime)
    ensures r.summary == EmptySummary
    ensures |r.minuteLocations| ==
      if Truthy(legacy.startTime) && legacy.samplesByMinute.Some? then |legacy.samplesByMinute.value| else 0
    ensures r.minuteLocations ==
      if Truthy(legacy.startTime) && legacy.samplesByMinute.Some?
      then MigrateSamples(legacy.samplesByMinute.value, legacy.startTime.value, minuteOf)
      else []
  {
    var ml := if Truthy(legacy.startTime) && legacy.samplesByMinute.Some?
              then MigrateSamples(legacy.samplesByMinute.value, legacy.startTime.value, minuteOf)
              else [];
    DailyRecord(legacy.date, legacy.startTime, legacy.endTime, legacy.startLocation, legacy.endLocation,
                OrZero(legacy.totalMiles), OrZero(legacy.totalTravelTime), ml, EmptySummary)
  }

  /** The shape a load returns: migrated when the guard holds, otherwise as stored. */
  function LoadShape(s: StoredDay, minuteOf: (real, real) -> int): StoredDay
  {
    if NeedsMigration(s) then Current(Migrate(s.legacy, minuteOf)) else s
  }

  /** Loading never leaves a record that needs migrating, a second load changes
      nothing, and a current record is returned untouched. */
  lemma LoadIsIdempotent(s: StoredDay, minuteOf: (real, real) -> int)
    ensures !NeedsMigration(LoadShape(s, minuteOf))
    ensures LoadShape(LoadShape(s, minuteOf), minuteOf) == LoadShape(s, minuteOf)
    ensures s.Current? ==> LoadShape(s, minuteOf) == s
    ensures NeedsMigration(s) ==> LoadShape(s, minuteOf).Current?
  {
  }
}
