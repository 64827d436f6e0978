/**
 * One reshape cycle of `adaptWeather`: load the two-day cache, pick today's record and
 * its key, resolve yesterday's record, upsert today, compact to the two greatest keys,
 * save, and build the downstream document.  The cache file is modelled by its contents
 * (`None` when it is missing or unreadable) and the clock by today's civil date.
 */
module Adapter {
  import opened Wrappers
  import opened Text
  import opened Records
  import opened DateKeys
  import opened Reshape
  import opened DailyCache

  /** `loadCache()`: the stored map, or `{}` when the file is missing or unreadable. */
  function Loaded(stored: Option<Cache>): (cache: Cache)
    ensures stored.None? ==> cache == map[]
    ensures stored.Some? ==> cache == stored.value
  {
    match stored
    case Some(c) => c
    case None => map[]
  }

  /** `if (todayDaily) cache[todayKey] = todayDaily`. */
  function Upsert(cache: Cache, todayKey: string, todayDaily: Option<Record>): (updated: Cache)
    ensures todayDaily.None? ==> updated == cache
    ensures todayDaily.Some? ==> updated.Keys == cache.Keys + {todayKey} && updated[todayKey] == todayDaily.value
    ensures forall k :: k in cache && k != todayKey ==> k in updated && updated[k] == cache[k]
  {
    match todayDaily
    case Some(r) => cache[todayKey := r]
    case None => cache
  }

  /**
   * The cache side of a cycle: `y` is the yesterday record the priority rule picks out
   * of the loaded cache, and `saved` is the upserted cache compacted to its two
   * greatest keys.
   */
  ghost predicate IsCacheStep(cache: Cache, todayKey: string, yesterdayKey: string, todayDaily: Option<Record>,
                              y: Option<Record>, saved: Cache)
  {
    ResolvesYesterday(cache, todayKey, yesterdayKey, y) && IsLatestTwo(Upsert(cache, todayKey, todayDaily), saved)
  }

  /** What a cycle promises: the cache step, and the document rendered from its yesterday record. */
  ghost predicate IsCycle(src: Snapshot, stored: Option<Cache>, now: Civil, data: WeatherData, saved: Cache)
  {
    var todayDaily := PickTodayDaily(src);
    var todayKey := TodayKey(todayDaily, now);
    exists y :: IsCacheStep(Loaded(stored), todayKey, AddDays(todayKey, -1, now), todayDaily, y, saved)
                && data == Render(src, todayDaily, y)
  }

  /** `adaptWeather(src)`, with the cache file's contents and today's date passed in. */
  method AdaptWeather(src: Snapshot, stored: Option<Cache>, now: Civil) returns (data: WeatherData, saved: Cache)
    ensures IsCycle(src, stored, now, data, saved)
    ensures |saved| <= 2
  {
    var cache := Loaded(stored);
    var todayDaily := PickTodayDaily(src);
    var todayKey := TodayKey(todayDaily, now);
    var yesterdayKey := AddDays(todayKey, -1, now);
    var yesterdayDaily := ResolveYesterday(cache, todayKey, yesterdayKey);
    ghost var loaded := cache;
    if todayDaily.Some? {
      cache := cache[todayKey := todayDaily.value];
    }
    assert cache == Upsert(loaded, todayKey, todayDaily);
    saved := KeepLatestTwo(cache);
    data := Render(src, todayDaily, yesterdayDaily);
    assert IsCacheStep(loaded, todayKey, yesterdayKey, todayDaily, yesterdayDaily, saved);
  }

  /** A cycle has exactly one outcome for a given snapshot, cache and date. */
  lemma CycleDeterministic(src: Snapshot, stored: Option<Cache>, now: Civil,
                           data1: WeatherData, saved1: Cache, data2: WeatherData, saved2: Cache)
    requires IsCycle(src, stored, now, data1, saved1) && IsCycle(src, stored, now, data2, saved2)
    ensures data1 == data2 && saved1 == saved2
  {
    var cache := Loaded(stored);
    var todayDaily := PickTodayDaily(src);
    var todayKey := TodayKey(todayDaily, now);
    var yesterdayKey := AddDays(todayKey, -1, now);
    var y1 :| IsCacheStep(cache, todayKey, yesterdayKey, todayDaily, y1, saved1) && data1 == Render(src, todayDaily, y1);
    var y2 :| IsCacheStep(cache, todayKey, yesterdayKey, todayDaily, y2, saved2) && data2 == Render(src, todayDaily, y2);
    LatestTwoUnique(Upsert(cache, todayKey, todayDaily), saved1, saved2);
    ResolvesYesterdayUnique(cache, todayKey, yesterdayKey, y1, y2);
  }

  /**
   * Today's record is saved under today's key, replacing any earlier entry, whenever at
   * most one cached key is greater than today's key.
   */
  lemma TodaySurvives(cache: Cache, todayKey: string, todayDaily: Option<Record>, saved: Cache)
    requires todayDaily.Some? && AtMostOneAbove(cache, todayKey)
    requires IsLatestTwo(Upsert(cache, todayKey, todayDaily), saved)
    ensures todayKey in saved && saved[todayKey] == todayDaily.value
  {
    var updated := Upsert(cache, todayKey, todayDaily);
    LessIrreflexive(todayKey);
    KeptIffAmongTopTwo(updated, saved, todayKey);
  }

  /** The same fact about a whole cycle: today's record is in the saved cache. */
  lemma CycleSavesToday(src: Snapshot, stored: Option<Cache>, now: Civil, data: WeatherData, saved: Cache)
    requires IsCycle(src, stored, now, data, saved)
    requires PickTodayDaily(src).Some?
    requires AtMostOneAbove(Loaded(stored), TodayKey(PickTodayDaily(src), now))
    ensures TodayKey(PickTodayDaily(src), now) in saved
    ensures saved[TodayKey(PickTodayDaily(src), now)] == PickTodayDaily(src).value
  {
    var todayKey := TodayKey(PickTodayDaily(src), now);
    var y :| IsCacheStep(Loaded(stored), todayKey, AddDays(todayKey, -1, now), PickTodayDaily(src), y, saved);
    TodaySurvives(Loaded(stored), TodayKey(PickTodayDaily(src), now), PickTodayDaily(src), saved);
  }

  // ---------------------------------------------------------------------------
  // Scenarios
  // ---------------------------------------------------------------------------

  /**
   * Cold start: with nothing cached, yesterday is the all-empty shape and the saved
   * cache holds today's record alone (or nothing, when there is no record for today).
   */
  lemma ColdStart(src: Snapshot, stored: Option<Cache>, now: Civil, data: WeatherData, saved: Cache)
    requires stored.None? || stored == Some(map[])
    requires IsCycle(src, stored, now, data, saved)
    ensures data.yesterday == EmptyYesterday
    ensures PickTodayDaily(src).None? ==> saved == map[]
    ensures PickTodayDaily(src).Some? ==>
              saved == map[TodayKey(PickTodayDaily(src), now) := PickTodayDaily(src).value]
  {
    var todayDaily := PickTodayDaily(src);
    var todayKey := TodayKey(todayDaily, now);
    assert Loaded(stored) == map[];
    var y :| IsCacheStep(map[], todayKey, AddDays(todayKey, -1, now), todayDaily, y, saved) && data == Render(src, todayDaily, y);
    NothingCachedNoYesterday(todayKey, AddDays(todayKey, -1, now), y);
    SmallCacheKept(Upsert(map[], todayKey, todayDaily), saved);
  }

  /** Two distinct valid days have distinct keys. */
  lemma KeysDistinct(a: Civil, b: Civil)
    requires ValidCivil(a) && InRange(a) && 100 <= a.year
    requires ValidCivil(b) && InRange(b) && 100 <= b.year
    requires a != b
    ensures FormatDate(DateOf(a)) != FormatDate(DateOf(b))
  {
    ParseFormatRoundTrip(a);
    ParseFormatRoundTrip(b);
  }

  /**
   * Steady state and a second run on the same day: with yesterday's entry cached (and
   * possibly an earlier record for today), yesterday is that entry and the saved cache
   * holds it and today's new record.
   */
  lemma NextDayStep(cache: Cache, todayKey: string, yesterdayKey: string, todayDaily: Option<Record>,
                    y: Option<Record>, saved: Cache, a: Record)
    requires yesterdayKey != todayKey && todayDaily.Some?
    requires yesterdayKey in cache && cache[yesterdayKey] == a && cache.Keys <= {yesterdayKey, todayKey}
    requires IsCacheStep(cache, todayKey, yesterdayKey, todayDaily, y, saved)
    ensures y == Some(a)
    ensures saved == map[yesterdayKey := a, todayKey := todayDaily.value]
  {
    var updated := Upsert(cache, todayKey, todayDaily);
    assert updated == cache[todayKey := todayDaily.value];
    StoreBesideYesterday(cache, todayKey, yesterdayKey, todayDaily.value, a);
    SmallCacheKept(updated, saved);
  }

  /** Storing today's record beside yesterday's entry leaves exactly those two entries. */
  lemma StoreBesideYesterday(cache: Cache, todayKey: string, yesterdayKey: string, r: Record, a: Record)
    requires yesterdayKey != todayKey
    requires yesterdayKey in cache && cache[yesterdayKey] == a && cache.Keys <= {yesterdayKey, todayKey}
    ensures cache[todayKey := r] == map[yesterdayKey := a, todayKey := r]
    ensures |cache[todayKey := r]| == 2
  {
    assert map[yesterdayKey := a, todayKey := r].Keys == {yesterdayKey, todayKey};
  }

  /** The same scenario for a whole cycle, with the keys of two consecutive days. */
  lemma NextDay(src: Snapshot, stored: Option<Cache>, now: Civil, data: WeatherData, saved: Cache,
                today: Civil, a: Record)
    requires ValidCivil(today) && InRange(today) && InRange(Pred(today)) && 100 < today.year
    requires PickTodayDaily(src).Some? && TodayKey(PickTodayDaily(src), now) == FormatDate(DateOf(today))
    requires var ky := FormatDate(DateOf(Pred(today)));
             stored.Some? && ky in stored.value && stored.value[ky] == a
             && stored.value.Keys <= {ky, FormatDate(DateOf(today))}
    requires IsCycle(src, stored, now, data, saved)
    ensures data.yesterday == MapDailyToYesterdayShape(Some(a))
    ensures saved == map[FormatDate(DateOf(Pred(today))) := a, FormatDate(DateOf(today)) := PickTodayDaily(src).value]
  {
    var kt := FormatDate(DateOf(today));
    var ky := FormatDate(DateOf(Pred(today)));
    ConsecutiveKeys(today, now);
    var todayDaily := PickTodayDaily(src);
    var cache := Loaded(stored);
    var y :| IsCacheStep(cache, kt, ky, todayDaily, y, saved) && data == Render(src, todayDaily, y);
    NextDayStep(cache, kt, ky, todayDaily, y, saved, a);
  }

  /** The key of the day before is what `addDays(todayKey, -1)` gives, and differs from today's. */
  lemma ConsecutiveKeys(today: Civil, now: Civil)
    requires ValidCivil(today) && InRange(today) && InRange(Pred(today)) && 100 < today.year
    ensures AddDays(FormatDate(DateOf(today)), -1, now) == FormatDate(DateOf(Pred(today)))
    ensures FormatDate(DateOf(Pred(today))) != FormatDate(DateOf(today))
  {
    AddDaysPrevious(today, now);
    KeysDistinct(Pred(today), today);
  }

  /**
   * A gap after downtime: the only cached entry is older than yesterday.  It is still
   * reported as yesterday, and both it and today's record are saved.
   */
  lemma AfterGapStep(todayKey: string, yesterdayKey: string, todayDaily: Option<Record>,
                     y: Option<Record>, saved: Cache, older: string, a: Record)
    requires todayDaily.Some? && Less(older, todayKey) && older != yesterdayKey
    requires IsCacheStep(map[older := a], todayKey, yesterdayKey, todayDaily, y, saved)
    ensures y == Some(a)
    ensures saved == map[older := a, todayKey := todayDaily.value]
  {
    var cache := map[older := a];
    LessIrreflexive(todayKey);
    assert exists k :: k in cache && Less(k, todayKey);
    var updated := Upsert(cache, todayKey, todayDaily);
    assert updated.Keys == {older, todayKey};
    SmallCacheKept(updated, saved);
  }

  /** The same scenario for a whole cycle. */
  lemma AfterGap(src: Snapshot, now: Civil, data: WeatherData, saved: Cache, older: string, a: Record)
    requires PickTodayDaily(src).Some?
    requires var todayKey := TodayKey(PickTodayDaily(src), now);
             Less(older, todayKey) && older != AddDays(todayKey, -1, now)
    requires IsCycle(src, Some(map[older := a]), now, data, saved)
    ensures data.yesterday == MapDailyToYesterdayShape(Some(a))
    ensures saved == map[older := a, TodayKey(PickTodayDaily(src), now) := PickTodayDaily(src).value]
  {
    var todayDaily := PickTodayDaily(src);
    var kt := TodayKey(todayDaily, now);
    var ky := AddDays(kt, -1, now);
    var y :| IsCacheStep(map[older := a], kt, ky, todayDaily, y, saved) && data == Render(src, todayDaily, y);
    AfterGapStep(kt, ky, todayDaily, y, saved, older, a);
  }

  /**
   * The gap scenario on calendar days: the only cached entry is for a day before
   * yesterday.  It is reported as yesterday, and both days are saved.
   */
  lemma AfterGapDays(src: Snapshot, now: Civil, data: WeatherData, saved: Cache, older: Civil, today: Civil, a: Record)
    requires ValidCivil(older) && 1000 <= older.year && ValidCivil(today) && today.year <= 9999
    requires CivilLess(older, Pred(today))
    requires PickTodayDaily(src).Some? && TodayKey(PickTodayDaily(src), now) == FormatDate(DateOf(today))
    requires IsCycle(src, Some(map[FormatDate(DateOf(older)) := a]), now, data, saved)
    ensures data.yesterday == MapDailyToYesterdayShape(Some(a))
    ensures saved == map[FormatDate(DateOf(older)) := a, FormatDate(DateOf(today)) := PickTodayDaily(src).value]
  {
    GapKeys(older, today, now);
    AfterGap(src, now, data, saved, FormatDate(DateOf(older)), a);
  }

  /** A day before yesterday has a key below today's that is not yesterday's key. */
  lemma GapKeys(older: Civil, today: Civil, now: Civil)
    requires ValidCivil(older) && 1000 <= older.year && ValidCivil(today) && today.year <= 9999
    requires CivilLess(older, Pred(today))
    ensures var ko, kt := FormatDate(DateOf(older)), FormatDate(DateOf(today));
            Less(ko, kt) && ko != AddDays(kt, -1, now)
  {
    assert InRange(older) && InRange(today) && InRange(Pred(today));
    KeyOrderIsChronological(older, today);
    ConsecutiveKeys(today, now);
    KeysDistinct(older, Pred(today));
  }
}
