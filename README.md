# Weather relay adapter: a verified model

The relay takes a weather snapshot from an upstream provider (the current observation, an
optional "today" record and a multi-day forecast) and reshapes it into the document an
older downstream client expects. The document's "yesterday" block is not available
upstream. To fill it, the adapter keeps a small two-day cache keyed by calendar day
(`YYYY-MM-DD`). Each call is one reshape cycle:

1. load the cache;
2. pick today's record and the key it belongs under;
3. resolve yesterday's record from the cache by a priority rule;
4. upsert today's record;
5. compact the cache to its two greatest keys and save it;
6. render the document.

The model covers `adapter.js`: its date-key helpers, the field-alias fallback, the
formatting helpers and the cache logic of `adaptWeather`. Modules:

- `Wrappers`: `Option`.
- `Text`: the pieces of JavaScript string behaviour the adapter relies on:
  - the `<` order on strings, proved to be a strict total order;
  - `split('-')`;
  - `Number` on the pieces of a date key;
  - `String(n)` and `padStart(2, '0')`.
- `DateKeys`: dates and date keys.
  - Civil dates with predecessor and successor, and the JavaScript `Date` behaviour that `new Date(y, m, d)` and `setDate` exhibit: month and day overflow, years 0..99 read as 1900..1999, and the Invalid Date outside the representable range.
  - `formatDate`, `parseDateKey` and `addDays`.
  - The weekday label of the forecast.
- `Records`: an upstream record as a map from field name to text, and the "first non-empty alias" lookup.
- `Reshape`: `formatTimeHHMM`, `formatTempLabel`, `pickTodayDaily`, today's key, `mapDailyToYesterdayShape`, the forecast entries and the rendered document.
- `DailyCache`: the two cache steps, written as methods that follow the source's branches and loop.
  - Yesterday resolution: sorted keys with `indexOf`, or a filter then the last key.
  - Compaction: sorted keys, `slice(-2)`, copied one key at a time.
  - Each method is proved against a specification predicate (`ResolvesYesterday`, `IsLatestTwo`), with lemmas about that predicate.
- `Adapter`: `adaptWeather` as a method, the cycle's specification `IsCycle`, and the scenarios of a cold start, the next day, a second run on the same day and a gap after downtime.

Inputs from outside the process are parameters:

- the cache file is its parsed contents, `None` when it is missing or unreadable;
- the clock is today's civil date `now`.

The cache rule has four cases. Cases 2 and 3 always give the same record:

1. the entry at `addDays(todayKey, -1)`;
2. else, when `todayKey` is cached, the entry at the key just before it in sorted order;
3. else the greatest cached key below `todayKey`;
4. else nothing.

The key just before `todayKey` in sorted order is the greatest cached key below it
(`DailyCache.PrecedingIsGreatestBelow`). So `ResolvesYesterday` states the rule in
three cases, and `ResolveYesterday` keeps the source's four branches.

## Model

| member | source | states |
|---|---|---|
| Text.LessIsStrictTotalOrder | adapter.js:107-114 | `Text.Less`, the string `<` that `sort()` and the `k < todayKey` filter use, is asymmetric, total on distinct strings and transitive |
| Text.LessConcat | adapter.js:107 | strings that start with pieces of equal length compare by those pieces first, then by the rest |
| Text.LessDigits | adapter.js:107 | on digit runs of equal length, string order is numeric order |
| Text.Split | adapter.js:31 | `split('-')` yields at least one piece, and no piece contains a dash |
| Text.JoinSplit | adapter.js:31 | joining the pieces of `split('-')` with '-' gives back the string, so no character is lost |
| Text.SplitJoin | adapter.js:31 | splitting `a-b` on '-' yields `a` followed by the pieces of `b` when `a` has no dash |
| Text.ToNumber | adapter.js:31 | `Number` of a key piece is a number exactly when the piece is a (possibly empty) run of ASCII digits |
| Text.IntToString | adapter.js:7 | `String(n)` is non-empty; for n >= 0 a digit run whose value is n, for n < 0 a '-' followed by the digits of -n |
| Text.NatToString | adapter.js:7 | `String(n)` is a non-empty digit run without a leading zero (except for 0) |
| Text.PadStart2 | adapter.js:7 | `padStart(2,'0')` has length max(2, len), ends with the input and is '0'-filled before it |
| Text.PaddedNatRoundTrip | adapter.js:7 | a padded month or day reads back as the number written |
| Records.Get | adapter.js:70-82 | reading `r.a` gives the field's text when present and '' when the field is missing |
| Records.FirstNonEmpty | adapter.js:70-82 | reading aliases in turn (`r.a`, then `r.b`, then '') gives '' iff every alias is empty, else the value of the first non-empty alias |
| DateKeys.Pred | adapter.js:96 | the day before a valid date is a valid, earlier date (month and year rollover) |
| DateKeys.Succ | adapter.js:37 | the day after a valid date is a valid, later date |
| DateKeys.PredSuccInverse | adapter.js:37 | day before and day after are inverse |
| DateKeys.NormalizeDay | adapter.js:32 | day overflow of `new Date`/`setDate` always lands on a valid date and leaves a valid date unchanged |
| DateKeys.NormalizeDayStep | adapter.js:32-37 | day 1 of a month is its first day, and day d + 1 is the calendar day after day d, for any d; so an overflowing day lands d - 1 days after the first of the month |
| DateKeys.MakeDate | adapter.js:32 | `new Date(y, m0, d)` is a valid in-range date or an Invalid Date |
| DateKeys.FormatDate | adapter.js:6-8 | `formatDate` never yields the empty key (an Invalid Date prints `NaN-NaN-NaN`) |
| DateKeys.PieceOrOne | adapter.js:32 | `m \|\| 1` on a key piece: the piece's number when it is a nonzero number, else 1 (missing, empty, zero or NaN) |
| DateKeys.ParseDateKey | adapter.js:30-33 | `parseDateKey` is null exactly when the year piece is not a digit run |
| DateKeys.KeyOrderIsChronological | adapter.js:125 | for years 1000 to 9999, string order on formatted keys is the chronological order of their days |
| DateKeys.ParseFormatRoundTrip | adapter.js:6-8 | parsing a formatted date (years from 100) gives back that date |
| DateKeys.FormatParseRoundTrip | adapter.js:30-33 | a well-formed `YYYY-MM-DD` key (a valid date whose year has no leading zero) parses, and formatting the result gives back the key |
| DateKeys.AddDays | adapter.js:35-39 | `addDays` never yields the empty key, and a key that parses to an Invalid Date yields `NaN-NaN-NaN`; its calendar behaviour is stated by the four lemmas below |
| DateKeys.ShiftDate | adapter.js:37 | `setDate(getDate() + delta)` keeps an Invalid Date invalid and otherwise lands on a valid date in the representable range |
| DateKeys.AddDaysPrevious | adapter.js:35-39 | `addDays(key, -1)` of a formatted date is the key of the day before |
| DateKeys.AddDaysNext | adapter.js:35-39 | `addDays(key, 1)` of a formatted date is the key of the day after |
| DateKeys.AddDaysOfParsed | adapter.js:35-39 | on a key that parses to a date, `addDays` formats that date moved by `setDate(getDate() + delta)` |
| DateKeys.MakeDateDayBefore | adapter.js:37 | `setDate(getDate() - 1)` lands on the previous calendar day, across month and year ends |
| DateKeys.MakeDateDayAfter | adapter.js:37 | `setDate(getDate() + 1)` lands on the next calendar day, across month and year ends |
| DateKeys.AddDaysFallsBackToNow | adapter.js:36 | a key whose year is not a number is shifted from today's date |
| DateKeys.EmptyKeyIs1900 | adapter.js:31-32 | `parseDateKey('')` is 1 January 1900, not null |
| DateKeys.TwoDigitYearsShift | adapter.js:32 | a date in years 0..99 formats to a key that parses as the same day in 1900..1999 |
| DateKeys.DayOfWeek | adapter.js:22 | the weekday index is in 0..6 |
| DateKeys.EpochIsThursday | adapter.js:22 | the weekday formula puts 1 January 1970 on a Thursday |
| DateKeys.WeekdayAdvances | adapter.js:22 | consecutive days have consecutive weekdays |
| DateKeys.DateLabel | adapter.js:17-23 | '' stays '', a date-only ISO string becomes day-of-month + 日 + weekday name, other strings are returned unchanged |
| Reshape.NowField | adapter.js:137-140 | a field of the current observation is '' when there is no observation |
| Reshape.FindClock | adapter.js:13 | finds the leftmost `dd:dd` at or after a position, or reports there is none |
| Reshape.FormatTimeHHMM | adapter.js:10-15 | '' for '', else the first `HH:MM` in the string, else the string unchanged |
| Reshape.FormatTimeShapes | adapter.js:10-15 | the result is the input or a five-character clock time |
| Reshape.FormatTempLabel | adapter.js:25-28 | '' iff the temperature is '', else the 高温/低温 prefix, the temperature and ℃ |
| Reshape.TempLabelInjective | adapter.js:25-28 | distinct temperatures get distinct labels |
| Reshape.CarriesDateOrTemp | adapter.js:56 | `src.today` counts as usable exactly when one of its date, fxDate or tempMax fields is present and non-empty |
| Reshape.PickTodayDaily | adapter.js:55-59 | `src.today` when it carries date, fxDate or tempMax; else the first forecast day; else null (and null only then) |
| Reshape.TodayKey | adapter.js:95 | today's record's fxDate or date, else today's formatted date; never empty |
| Reshape.MapDailyToYesterdayShape | adapter.js:61-68 | null gives the all-empty yesterday block |
| Reshape.YesterdayFieldsFromAliases | adapter.js:69-83 | every field of the block is the first non-empty value among its aliases |
| Reshape.YesterdayEmptyIff | adapter.js:61-84 | the block is all '' exactly when there is no record or it carries none of the aliases |
| Reshape.ForecastEntry | adapter.js:147-160 | a forecast entry's date label and temperature labels are built from the aliased fields |
| Reshape.TempMaxAliasFallback | adapter.js:71 | a record without `tempMax` but with `temp_max` shows that value as yesterday's high and in the forecast label |
| Reshape.TodayOrFirstDay | adapter.js:141-142 | sunrise/sunset is today's record's value when it has one; else the first forecast day's value; '' iff neither has it |
| Reshape.Render | adapter.js:132-165 | the document's yesterday block is the shape of the resolved record and the forecast has one entry per forecast day, in order |
| Reshape.SunriseFallback | adapter.js:141 | without a sunrise in today's record, sunrise comes from the first forecast day |
| DailyCache.SortedKeys | adapter.js:107 | `Object.keys(cache).sort()` lists each key once, in increasing order |
| DailyCache.IndexOf | adapter.js:108 | `indexOf` is the first position of the key, or -1 iff absent |
| DailyCache.FilterBelow | adapter.js:114 | the filter keeps exactly the keys below the bound, still sorted |
| DailyCache.GreatestBelowUnique | adapter.js:112-117 | there is one greatest key below a bound |
| DailyCache.PrecedingIsGreatestBelow | adapter.js:105-109 | the key just before today's in sorted order is the greatest key below it |
| DailyCache.LastIsGreatestBelow | adapter.js:113-117 | the last of the filtered keys is the greatest key below today's |
| DailyCache.PrecedingResolves | adapter.js:105-109 | when today's key is cached, taking the entry just before it (none at position 0) follows the priority rule |
| DailyCache.LastBelowResolves | adapter.js:111-117 | otherwise, taking the last of the keys below today's (none when there are none) follows the priority rule |
| DailyCache.ResolvesYesterdayUnique | adapter.js:99-118 | the priority rule determines yesterday's record |
| DailyCache.ResolveYesterday | adapter.js:99-118 | the entry at yesterday's key if cached; else nothing iff no key is below today's; else the entry at the greatest key below today's |
| DailyCache.KeepLatestTwo | adapter.js:125-128 | the saved cache is a sub-map with unchanged values, of size min(2, n), every dropped key below every kept key |
| DailyCache.CopyEntries | adapter.js:127-128 | the new map holds exactly the listed keys, each with its cached value |
| DailyCache.TailIsLatestTwo | adapter.js:125-128 | copying the entries at the last two sorted keys is the compaction |
| DailyCache.LatestTwoUnique | adapter.js:125-128 | compaction has only one possible result |
| DailyCache.SmallCacheKept | adapter.js:125-128 | a cache of at most two keys is saved unchanged |
| DailyCache.CompactionIdempotent | adapter.js:125-128 | compacting a compacted cache changes nothing |
| DailyCache.KeptIffAmongTopTwo | adapter.js:125-128 | a key is kept exactly when it is cached and at most one cached key is greater |
| Adapter.Loaded | adapter.js:41-49 | a missing or unreadable cache file is the empty cache |
| Adapter.Upsert | adapter.js:121-123 | with a record for today, today's key maps to it (overwriting) and no other entry changes; without one the cache is unchanged |
| Adapter.AdaptWeather | adapter.js:91-169 | a cycle saves the compaction of the upserted cache (at most two keys) and renders the yesterday record the priority rule picks from the loaded cache |
| Adapter.CycleDeterministic | adapter.js:91-129 | a snapshot, a cache and a date determine the document and the saved cache |
| Adapter.TodaySurvives | adapter.js:121-126 | today's record is saved under today's key when at most one cached key is greater |
| Adapter.CycleSavesToday | adapter.js:121-129 | the same, for a whole cycle |
| Adapter.ColdStart | adapter.js:99-129 | with an empty cache, yesterday is all '' and the saved cache holds only today's record |
| Adapter.ConsecutiveKeys | adapter.js:96 | `addDays(todayKey, -1)` is the previous day's key, distinct from today's |
| Adapter.NextDayStep | adapter.js:99-129 | with yesterday's entry cached and no key besides yesterday's and today's, yesterday is that entry and both days are saved, today's with the new record |
| Adapter.NextDay | adapter.js:99-129 | the same, for a whole cycle on consecutive calendar days |
| Adapter.AfterGapStep | adapter.js:111-129 | a lone entry older than yesterday is still reported as yesterday, and both it and today's record are saved |
| Adapter.AfterGap | adapter.js:111-129 | the same, for a whole cycle |
| Adapter.AfterGapDays | adapter.js:111-129 | with one cached day before yesterday, that day is reported as yesterday and both days are saved |

## Left out

- Reading and writing `yesterday.json` (`loadCache`, `saveCache`) is file I/O. The model takes the parsed cache as an `Option` input and returns the cache to save. A file whose JSON is an array or another non-map object is not distinguished from a map.
- Concurrent cycles that interleave load and save are not modelled. The source does not serialise them either.
- Field values are strings, with '' for a missing field. JavaScript truthiness of other values is not modelled, for example a numeric temperature `0` or a cached `null`. Neither are keys inherited from `Object.prototype`.
- `Number` is modelled only on the empty string and ASCII digit runs; every other piece is NaN. Not captured: signs, surrounding whitespace, decimals, hexadecimal, exponents, `Infinity`, and rounding above 2^53.
- String order compares characters, not UTF-16 code units. The two agree on the ASCII date keys the adapter produces.
- The valid range of a `Date` is taken as the local calendar days from -271821-04-20 to 275760-09-13. The time-zone offset at the two ends is not modelled.
- DateKeys.DateLabel: models `new Date(s)` only for date-only ISO strings naming a real calendar day, read as that day. That holds in time zones at or east of UTC; west of UTC the label shows the previous day. An ISO-shaped string with a day past the month's end (for example `2025-02-30`, which V8 rolls over to 2 March and labels) is returned unchanged here, as are other strings the engine's fallback parser accepts.
- DateKeys.ParseFormatRoundTrip: requires a year of at least 100, because years 0..99 are read back as 1900..1999 (`DateKeys.TwoDigitYearsShift`).
- DateKeys.FormatParseRoundTrip: excludes keys whose year starts with '0'. Such keys do not round-trip: `0999-01-01` formats back as `999-01-01`, and `0050-01-01` parses as a day in 1950.
- DateKeys.KeyOrderIsChronological: holds for years 1000 to 9999 only. Outside them string order and date order differ; for example a key of year 10000 sorts before one of year 9999.
- Reshape.MapDailyToYesterdayShape: its own contract states only the null case. The per-field facts are the lemmas `YesterdayFieldsFromAliases` and `YesterdayEmptyIff`.
- The constant members of the document are not modelled: `ok`, `sunrise_2`, `sunset_2`, `zhishus`. Nor is the exception a null snapshot raises at `src.city`, after the cache has been saved.
- The demonstration block at the end of `adapter.js` runs the module by hand and is left out.
- `qweather-api.js`, `jwt.js` and `server.js` are not part of this model. They are the network client, token signing and a mock server.
