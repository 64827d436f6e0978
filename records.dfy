/**
 * Upstream weather records and the alias fallback used to read them.  The upstream
 * provider names a field in one of several ways (`tempMax` or `temp_max`, ...); the
 * adapter reads `r.a || r.b || ''`, so the first alias holding a non-empty value wins.
 */
module Records {

  /**
   * A record as the upstream sends it: field name to text.  A field that is missing
   * and a field that is empty read alike, as the empty string.
   */
  type Record = map<string, string>

  /** `r[name]`, with a missing field read as ''. */
  function Get(r: Record, name: string): (v: string)
    ensures name in r ==> v == r[name]
    ensures name !in r ==> v == ""
  {
    if name in r then r[name] else ""
  }

  /** `r[a0] || r[a1] || ... || ''`. */
  function FirstNonEmpty(r: Record, aliases: seq<string>): (v: string)
    ensures v == "" <==> forall i :: 0 <= i < |aliases| ==> Get(r, aliases[i]) == ""
    ensures v != "" ==> exists i :: 0 <= i < |aliases| && v == Get(r, aliases[i])
                                    && forall j :: 0 <= j < i ==> Get(r, aliases[j]) == ""
  {
    if |aliases| == 0 then ""
    else if Get(r, aliases[0]) != "" then Get(r, aliases[0])
    else
      var v := FirstNonEmpty(r, aliases[1..]);
      assert v != "" ==> exists i :: 0 <= i < |aliases| && v == Get(r, aliases[i])
                                    && forall j :: 0 <= j < i ==> Get(r, aliases[j]) == "" by {
        if v != "" {
          var i :| 0 <= i < |aliases[1..]| && v == Get(r, aliases[1..][i])
                   && forall j :: 0 <= j < i ==> Get(r, aliases[1..][j]) == "";
          assert aliases[i + 1] == aliases[1..][i];
          forall j | 0 <= j < i + 1
            ensures Get(r, aliases[j]) == ""
          {
            if j > 0 {
              assert aliases[j] == aliases[1..][j - 1];
            }
          }
        }
      }
      assert forall i :: 1 <= i < |aliases| ==> aliases[i] == aliases[1..][i - 1];
      v
  }

  // The alias table: for each logical field, the names it may arrive under, in order.
  const DateAliases: seq<string> := ["fxDate", "date"]
  const TempMaxAliases: seq<string> := ["tempMax", "temp_max"]
  const TempMinAliases: seq<string> := ["tempMin", "temp_min"]
  const TextDayAliases: seq<string> := ["textDay", "text_day"]
  const WindDirDayAliases: seq<string> := ["windDirDay", "wind_dir_day"]
  const WindScaleDayAliases: seq<string> := ["windScaleDay", "wind_scale_day"]
  const TextNightAliases: seq<string> := ["textNight", "text_night"]
  const WindDirNightAliases: seq<string> := ["windDirNight", "wind_dir_night"]
  const WindScaleNightAliases: seq<string> := ["windScaleNight", "wind_scale_night"]
}
