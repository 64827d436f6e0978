/**
 * The reshaping half of the adapter: reading today's record out of an upstream
 * snapshot, the key it is cached under, and the downstream document built from the
 * snapshot, today's record and the resolved "yesterday" record.  Every field of the
 * document is a string that degrades to '' when the upstream data lacks it.
 */
module Reshape {
  import opened Wrappers
  import opened Text
  import opened DateKeys
  import opened Records

  // ---------------------------------------------------------------------------
  // Inputs
  // ---------------------------------------------------------------------------

  /**
   * What the upstream client hands over: the city, an update time, the current
   * observation, an optional distinguished "today" record and the daily forecast.
   * An absent string field is ''; an absent forecast list is [].
   */
  datatype Snapshot = Snapshot(
    city: string,
    updateTime: string,
    now: Option<Record>,
    today: Option<Record>,
    daily: seq<Record>)

  /** `src.now?.a || src.now?.b || ''`. */
  function NowField(src: Snapshot, aliases: seq<string>): (v: string)
    ensures src.now.None? ==> v == ""
  {
    match src.now
    case None => ""
    case Some(r) => FirstNonEmpty(r, aliases)
  }

  // ---------------------------------------------------------------------------
  // formatTimeHHMM
  // ---------------------------------------------------------------------------

  /** Two digits, a colon and two digits start at `i` of `s`. */
  predicate IsClockAt(s: string, i: int)
  {
    0 <= i && i + 5 <= |s| && IsDigit(s[i]) && IsDigit(s[i + 1]) && s[i + 2] == ':'
    && IsDigit(s[i + 3]) && IsDigit(s[i + 4])
  }

  /** The leftmost `HH:MM` at or after `from`. */
  function FindClock(s: string, from: nat): (found: Option<nat>)
    requires from <= |s|
    ensures found.Some? ==> from <= found.value && IsClockAt(s, found.value)
                            && forall j :: from <= j < found.value ==> !IsClockAt(s, j)
    ensures found.None? ==> forall j :: from <= j < |s| ==> !IsClockAt(s, j)
    decreases |s| - from
  {
    if from + 5 > |s| then None
    else if IsClockAt(s, from) then Some(from)
    else FindClock(s, from + 1)
  }

  /**
   * `formatTimeHHMM`: '' for '', otherwise the first `HH:MM` in the string (the
   * optional `T` before it in the pattern never changes which one is captured),
   * otherwise the string itself.
   */
  function FormatTimeHHMM(s: string): (hhmm: string)
    ensures s == "" ==> hhmm == ""
    ensures (forall i :: 0 <= i < |s| ==> !IsClockAt(s, i)) ==> hhmm == s
    ensures (exists i :: IsClockAt(s, i)) ==>
              exists i :: IsClockAt(s, i) && (forall j :: 0 <= j < i ==> !IsClockAt(s, j)) && hhmm == s[i..i + 5]
  {
    if s == "" then ""
    else
      match FindClock(s, 0)
      case Some(i) => s[i..i + 5]
      case None => s
  }

  /** Whatever the input, the result is '', a five-character clock time, or the input. */
  lemma FormatTimeShapes(s: string)
    ensures var t := FormatTimeHHMM(s);
            t == s || (|t| == 5 && IsClockAt(t, 0))
  {
    if s != "" && FindClock(s, 0).Some? {
      var i := FindClock(s, 0).value;
      assert IsClockAt(s[i..i + 5], 0);
    }
  }

  // ---------------------------------------------------------------------------
  // formatTempLabel
  // ---------------------------------------------------------------------------

  const HighPrefix := "高温 "
  const LowPrefix := "低温 "
  const Celsius := "℃"

  /** `formatTempLabel`: '' for an empty temperature, else "高温 t℃" or "低温 t℃". */
  function FormatTempLabel(temp: string, isHigh: bool): (shown: string)
    ensures shown == "" <==> temp == ""
    ensures temp != "" ==> |shown| == |temp| + 4 && shown[3..|shown| - 1] == temp
    ensures temp != "" ==> shown[..3] == (if isHigh then HighPrefix else LowPrefix) && shown[|shown| - 1] == '℃'
  {
    if temp == "" then "" else (if isHigh then HighPrefix else LowPrefix) + temp + Celsius
  }

  /** The temperature can be read back from its label: different temperatures, different labels. */
  lemma TempLabelInjective(a: string, b: string, isHigh: bool)
    requires FormatTempLabel(a, isHigh) == FormatTempLabel(b, isHigh)
    ensures a == b
  {
    var la := FormatTempLabel(a, isHigh);
    if a != "" {
      assert la[3..|la| - 1] == a && la[3..|la| - 1] == b;
    }
  }

  // ---------------------------------------------------------------------------
  // pickTodayDaily and todayKey
  // ---------------------------------------------------------------------------

  /** `src.today` is used when it has a `date`, `fxDate` or `tempMax`. */
  predicate CarriesDateOrTemp(r: Record)
    ensures CarriesDateOrTemp(r) <==> ("date" in r && r["date"] != "") || ("fxDate" in r && r["fxDate"] != "")
                                       || ("tempMax" in r && r["tempMax"] != "")
  {
    Get(r, "date") != "" || Get(r, "fxDate") != "" || Get(r, "tempMax") != ""
  }

  /** `pickTodayDaily`: a usable `src.today`, else the first forecast day, else null. */
  function PickTodayDaily(src: Snapshot): (picked: Option<Record>)
    ensures picked.None? <==> (src.today.None? || !CarriesDateOrTemp(src.today.value)) && |src.daily| == 0
    ensures src.today.Some? && CarriesDateOrTemp(src.today.value) ==> picked == src.today
    ensures (src.today.None? || !CarriesDateOrTemp(src.today.value)) && |src.daily| > 0 ==>
              picked == Some(src.daily[0])
  {
    if src.today.Some? && CarriesDateOrTemp(src.today.value) then src.today
    else if |src.daily| > 0 then Some(src.daily[0])
    else None
  }

  /** `todayKey`: today's record's `fxDate` or `date`, else today's date from the clock. */
  function TodayKey(todayDaily: Option<Record>, now: Civil): (key: string)
    ensures key != ""
    ensures todayDaily.Some? && FirstNonEmpty(todayDaily.value, DateAliases) != "" ==>
              key == FirstNonEmpty(todayDaily.value, DateAliases)
    ensures todayDaily.None? || FirstNonEmpty(todayDaily.value, DateAliases) == "" ==>
              key == FormatDate(DateOf(now))
  {
    var fromRecord := match todayDaily case Some(r) => FirstNonEmpty(r, DateAliases) case None => "";
    if fromRecord != "" then fromRecord else FormatDate(DateOf(now))
  }

  // ---------------------------------------------------------------------------
  // The downstream document
  // ---------------------------------------------------------------------------

  /** Half a day of the yesterday block: condition text, wind direction, wind scale. */
  datatype YesterdayHalf = YesterdayHalf(type_1: string, fx_1: string, fl_1: string)

  datatype Yesterday = Yesterday(
    date_1: string,
    high_1: string,
    low_1: string,
    day_1: YesterdayHalf,
    night_1: YesterdayHalf)

  const EmptyYesterday := Yesterday("", "", "", YesterdayHalf("", "", ""), YesterdayHalf("", "", ""))

  /** The yesterday block's fields in declaration order. */
  function YesterdayFields(y: Yesterday): seq<string>
  {
    [y.date_1, y.high_1, y.low_1, y.day_1.type_1, y.day_1.fx_1, y.day_1.fl_1,
     y.night_1.type_1, y.night_1.fx_1, y.night_1.fl_1]
  }

  /** For each field of the yesterday block, the aliases it is read from. */
  const YesterdayAliases: seq<seq<string>> :=
    [DateAliases, TempMaxAliases, TempMinAliases,
     TextDayAliases, WindDirDayAliases, WindScaleDayAliases,
     TextNightAliases, WindDirNightAliases, WindScaleNightAliases]

  /**
   * `mapDailyToYesterdayShape`: all '' for null; otherwise every field is the first
   * non-empty value among its aliases, or ''.
   */
  function MapDailyToYesterdayShape(daily: Option<Record>): (shape: Yesterday)
    ensures daily.None? ==> shape == EmptyYesterday
  {
    match daily
    case None => EmptyYesterday
    case Some(d) =>
      Yesterday(
        FirstNonEmpty(d, DateAliases),
        FirstNonEmpty(d, TempMaxAliases),
        FirstNonEmpty(d, TempMinAliases),
        YesterdayHalf(FirstNonEmpty(d, TextDayAliases), FirstNonEmpty(d, WindDirDayAliases),
                      FirstNonEmpty(d, WindScaleDayAliases)),
        YesterdayHalf(FirstNonEmpty(d, TextNightAliases), FirstNonEmpty(d, WindDirNightAliases),
                      FirstNonEmpty(d, WindScaleNightAliases)))
  }

  /** Each field of the yesterday block is the first non-empty value among its aliases. */
  lemma YesterdayFieldsFromAliases(d: Record)
    ensures forall i :: 0 <= i < |YesterdayAliases| ==>
              YesterdayFields(MapDailyToYesterdayShape(Some(d)))[i] == FirstNonEmpty(d, YesterdayAliases[i])
  {
    var f := YesterdayFields(MapDailyToYesterdayShape(Some(d)));
    var values := [FirstNonEmpty(d, DateAliases), FirstNonEmpty(d, TempMaxAliases), FirstNonEmpty(d, TempMinAliases),
                   FirstNonEmpty(d, TextDayAliases), FirstNonEmpty(d, WindDirDayAliases),
                   FirstNonEmpty(d, WindScaleDayAliases), FirstNonEmpty(d, TextNightAliases),
                   FirstNonEmpty(d, WindDirNightAliases), FirstNonEmpty(d, WindScaleNightAliases)];
    assert f == values;
    forall i | 0 <= i < |YesterdayAliases|
      ensures values[i] == FirstNonEmpty(d, YesterdayAliases[i])
    {
      if i == 0 {} else if i == 1 {} else if i == 2 {} else if i == 3 {} else if i == 4 {}
      else if i == 5 {} else if i == 6 {} else if i == 7 {} else {}
    }
  }

  /** The yesterday block is all '' exactly when there is no record or it has none of the aliases. */
  lemma YesterdayEmptyIff(daily: Option<Record>)
    ensures MapDailyToYesterdayShape(daily) == EmptyYesterday <==>
            daily.None? || forall i, j :: 0 <= i < |YesterdayAliases| && 0 <= j < |YesterdayAliases[i]| ==>
                                            Get(daily.value, YesterdayAliases[i][j]) == ""
  {
    if daily.Some? {
      var d := daily.value;
      var f := YesterdayFields(MapDailyToYesterdayShape(daily));
      YesterdayFieldsFromAliases(d);
      FieldsEmptyIff(MapDailyToYesterdayShape(daily));
      AllFirstEmptyIff(d, YesterdayAliases);
      assert (forall i :: 0 <= i < 9 ==> f[i] == "") <==>
             (forall i :: 0 <= i < |YesterdayAliases| ==> FirstNonEmpty(d, YesterdayAliases[i]) == "");
    }
  }

  /** A yesterday block is the empty one exactly when all nine of its fields are ''. */
  lemma FieldsEmptyIff(y: Yesterday)
    ensures |YesterdayFields(y)| == 9
    ensures y == EmptyYesterday <==> forall i :: 0 <= i < 9 ==> YesterdayFields(y)[i] == ""
  {
    var f := YesterdayFields(y);
    if forall i :: 0 <= i < 9 ==> f[i] == "" {
      assert f[0] == "" && f[1] == "" && f[2] == "" && f[3] == "" && f[4] == "";
      assert f[5] == "" && f[6] == "" && f[7] == "" && f[8] == "";
    }
  }

  /** Every entry of an alias table reads '' exactly when every alias in it is empty. */
  lemma AllFirstEmptyIff(d: Record, table: seq<seq<string>>)
    ensures (forall i :: 0 <= i < |table| ==> FirstNonEmpty(d, table[i]) == "") <==>
            (forall i, j :: 0 <= i < |table| && 0 <= j < |table[i]| ==> Get(d, table[i][j]) == "")
  {
  }

  /** Half a forecast day: condition text (`type`), wind direction, wind scale. */
  datatype ForecastHalf = ForecastHalf(kind: string, fengxiang: string, fengli: string)

  datatype ForecastDay = ForecastDay(date: string, high: string, low: string, day: ForecastHalf, night: ForecastHalf)

  /** One forecast entry: weekday-labelled date, temperature labels, day and night halves. */
  function ForecastEntry(d: Record): (entry: ForecastDay)
    ensures entry.date == DateLabel(FirstNonEmpty(d, DateAliases))
    ensures entry.high == FormatTempLabel(FirstNonEmpty(d, TempMaxAliases), true)
    ensures entry.low == FormatTempLabel(FirstNonEmpty(d, TempMinAliases), false)
  {
    ForecastDay(
      DateLabel(FirstNonEmpty(d, DateAliases)),
      FormatTempLabel(FirstNonEmpty(d, TempMaxAliases), true),
      FormatTempLabel(FirstNonEmpty(d, TempMinAliases), false),
      ForecastHalf(FirstNonEmpty(d, TextDayAliases), FirstNonEmpty(d, WindDirDayAliases),
                   FirstNonEmpty(d, WindScaleDayAliases)),
      ForecastHalf(FirstNonEmpty(d, TextNightAliases), FirstNonEmpty(d, WindDirNightAliases),
                   FirstNonEmpty(d, WindScaleNightAliases)))
  }

  /** A record without `tempMax` but with `temp_max` shows the `temp_max` value, in both blocks. */
  lemma TempMaxAliasFallback(d: Record, t: string)
    requires Get(d, "tempMax") == "" && Get(d, "temp_max") == t
    ensures MapDailyToYesterdayShape(Some(d)).high_1 == t
    ensures t != "" ==> ForecastEntry(d).high == HighPrefix + t + Celsius
  {
    assert TempMaxAliases[0] == "tempMax" && TempMaxAliases[1] == "temp_max";
  }

  /** The `data` object of the downstream document (its constant members are not modelled). */
  datatype WeatherData = WeatherData(
    city: string,
    updatetime: string,
    wendu: string,
    fengli: string,
    shidu: string,
    fengxiang: string,
    sunrise_1: string,
    sunset_1: string,
    yesterday: Yesterday,
    forecast: seq<ForecastDay>)

  /** `todayDaily?.f || src.daily?.[0]?.f || ''`. */
  function TodayOrFirstDay(src: Snapshot, todayDaily: Option<Record>, field: string): (v: string)
    ensures v == "" <==> (todayDaily.None? || Get(todayDaily.value, field) == "")
                         && (|src.daily| == 0 || Get(src.daily[0], field) == "")
    ensures todayDaily.Some? && Get(todayDaily.value, field) != "" ==> v == Get(todayDaily.value, field)
    ensures (todayDaily.None? || Get(todayDaily.value, field) == "") && |src.daily| > 0 ==>
              v == Get(src.daily[0], field)
  {
    var fromToday := match todayDaily case Some(r) => Get(r, field) case None => "";
    if fromToday != "" then fromToday
    else if |src.daily| > 0 then Get(src.daily[0], field)
    else ""
  }

  /** The document built from the snapshot, today's record and the resolved yesterday record. */
  function Render(src: Snapshot, todayDaily: Option<Record>, yesterdayDaily: Option<Record>): (data: WeatherData)
    ensures data.yesterday == MapDailyToYesterdayShape(yesterdayDaily)
    ensures |data.forecast| == |src.daily|
    ensures forall i :: 0 <= i < |src.daily| ==> data.forecast[i] == ForecastEntry(src.daily[i])
  {
    var updateTime := if src.updateTime != "" then src.updateTime else NowField(src, ["obsTime"]);
    WeatherData(
      src.city,
      FormatTimeHHMM(updateTime),
      NowField(src, ["temp"]),
      NowField(src, ["windScale", "windSpeed"]),
      NowField(src, ["humidity"]),
      NowField(src, ["windDir"]),
      TodayOrFirstDay(src, todayDaily, "sunrise"),
      TodayOrFirstDay(src, todayDaily, "sunset"),
      MapDailyToYesterdayShape(yesterdayDaily),
      seq(|src.daily|, i requires 0 <= i < |src.daily| => ForecastEntry(src.daily[i])))
  }

  /** Sunrise comes from today's record, falling back to the first forecast day. */
  lemma SunriseFallback(src: Snapshot, todayDaily: Option<Record>, y: Option<Record>)
    requires |src.daily| > 0
    requires todayDaily.None? || Get(todayDaily.value, "sunrise") == ""
    ensures Render(src, todayDaily, y).sunrise_1 == Get(src.daily[0], "sunrise")
  {
  }
}
