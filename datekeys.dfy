/**
 * Calendar-day keys (`YYYY-MM-DD`) and the part of JavaScript's `Date` the adapter
 * uses to build and shift them: `new Date(y, m, d)` with its overflow
 * normalisation, `setDate`, the valid time range, `formatDate`, `parseDateKey`,
 * `addDays` and the forecast's weekday label.  Dates are local calendar dates; the
 * clock ("now") is a parameter.
 */
module DateKeys {
  import opened Wrappers
  import opened Text

  // ---------------------------------------------------------------------------
  // Proleptic Gregorian calendar
  // ---------------------------------------------------------------------------

  datatype Civil = Civil(year: int, month: int, day: int)

  predicate IsLeap(year: int)
  {
    year % 4 == 0 && (year % 100 != 0 || year % 400 == 0)
  }

  function DaysIn(year: int, month: int): (n: int)
    ensures 28 <= n <= 31
  {
    if month == 2 then (if IsLeap(year) then 29 else 28)
    else if month == 4 || month == 6 || month == 9 || month == 11 then 30
    else 31
  }

  predicate ValidCivil(c: Civil)
  {
    1 <= c.month <= 12 && 1 <= c.day <= DaysIn(c.year, c.month)
  }

  /** Chronological order on calendar dates. */
  predicate CivilLess(a: Civil, b: Civil)
  {
    a.year < b.year
    || (a.year == b.year && (a.month < b.month || (a.month == b.month && a.day < b.day)))
  }

  /** The day before `c`, with month and year rollover. */
  function Pred(c: Civil): (p: Civil)
    requires ValidCivil(c)
    ensures ValidCivil(p) && CivilLess(p, c)
  {
    if c.day > 1 then Civil(c.year, c.month, c.day - 1)
    else if c.month > 1 then Civil(c.year, c.month - 1, DaysIn(c.year, c.month - 1))
    else Civil(c.year - 1, 12, 31)
  }

  /** The day after `c`, with month and year rollover. */
  function Succ(c: Civil): (s: Civil)
    requires ValidCivil(c)
    ensures ValidCivil(s) && CivilLess(c, s)
  {
    if c.day < DaysIn(c.year, c.month) then Civil(c.year, c.month, c.day + 1)
    else if c.month < 12 then Civil(c.year, c.month + 1, 1)
    else Civil(c.year + 1, 1, 1)
  }

  lemma PredSuccInverse(c: Civil)
    requires ValidCivil(c)
    ensures Pred(Succ(c)) == c && Succ(Pred(c)) == c
  {
  }

  // ---------------------------------------------------------------------------
  // JavaScript Date values
  // ---------------------------------------------------------------------------

  /** First and last local calendar days a `Date` can hold (8.64e15 ms either side of 1970). */
  const MinDate := Civil(-271821, 4, 20)
  const MaxDate := Civil(275760, 9, 13)

  predicate InRange(c: Civil)
  {
    !CivilLess(c, MinDate) && !CivilLess(MaxDate, c)
  }

  /** A `Date` object: either an Invalid Date (time value NaN) or a calendar day. */
  datatype JsDate = InvalidDate | DateOf(date: Civil)

  /**
   * Day `day` counted from the first of (`year`, `month`): days past the end of the
   * month roll into the following months, days below 1 into the preceding ones.
   */
  function NormalizeDay(year: int, month: int, day: int): (c: Civil)
    requires 1 <= month <= 12
    ensures ValidCivil(c)
    ensures ValidCivil(Civil(year, month, day)) ==> c == Civil(year, month, day)
    decreases if day < 1 then 1 - day else 0, if day < 1 then 0 else day
  {
    if day < 1 then
      var (py, pm) := if month == 1 then (year - 1, 12) else (year, month - 1);
      NormalizeDay(py, pm, day + DaysIn(py, pm))
    else if day > DaysIn(year, month) then
      var (ny, nm) := if month == 12 then (year + 1, 1) else (year, month + 1);
      NormalizeDay(ny, nm, day - DaysIn(year, month))
    else
      Civil(year, month, day)
  }

  /**
   * Day 1 of a month is its first day, and each further day is the next calendar day:
   * together these fix where every overflowing day lands (day `d` is `d - 1` days after
   * the first of the month).
   */
  lemma {:induction false} NormalizeDayStep(year: int, month: int, day: int)
    requires 1 <= month <= 12
    ensures NormalizeDay(year, month, 1) == Civil(year, month, 1)
    ensures NormalizeDay(year, month, day + 1) == Succ(NormalizeDay(year, month, day))
    decreases if day < 1 then 1 - day else 0, if day < 1 then 0 else day
  {
    if day < 1 {
      var (py, pm) := if month == 1 then (year - 1, 12) else (year, month - 1);
      if day + 1 < 1 {
        NormalizeDayStep(py, pm, day + DaysIn(py, pm));
      } else {
        assert NormalizeDay(year, month, day) == NormalizeDay(py, pm, DaysIn(py, pm));
      }
    } else if day > DaysIn(year, month) {
      var (ny, nm) := if month == 12 then (year + 1, 1) else (year, month + 1);
      NormalizeDayStep(ny, nm, day - DaysIn(year, month));
    } else if day == DaysIn(year, month) {
      var (ny, nm) := if month == 12 then (year + 1, 1) else (year, month + 1);
      assert NormalizeDay(year, month, day + 1) == NormalizeDay(ny, nm, 1);
    }
  }

  /**
   * `new Date(year, month0, day)` (after its rule that years 0..99 mean 1900..1999, which
   * `ParseDateKey` applies) and `setDate` alike: the zero-based month is folded
   * into the year first (floor division), then the day overflows; a result outside
   * the representable range is an Invalid Date.
   */
  function MakeDate(year: int, month0: int, day: int): (d: JsDate)
    ensures d.DateOf? ==> ValidCivil(d.date) && InRange(d.date)
  {
    var c := NormalizeDay(year + month0 / 12, month0 % 12 + 1, day);
    if InRange(c) then DateOf(c) else InvalidDate
  }

  /** `formatDate`: year as `getFullYear()` prints it, month and day padded to two digits. */
  function FormatDate(d: JsDate): (key: string)
    ensures |key| > 0
  {
    match d
    case InvalidDate => "NaN-NaN-NaN"
    case DateOf(c) =>
      IntToString(c.year) + "-" + PadStart2(IntToString(c.month)) + "-" + PadStart2(IntToString(c.day))
  }

  /** `m || 1` on the piece at `i` of a split key: a missing, empty, zero or NaN piece is 1. */
  function PieceOrOne(pieces: seq<string>, i: nat): (n: nat)
    ensures n >= 1
    ensures i < |pieces| && ToNumber(pieces[i]).Some? && ToNumber(pieces[i]).value != 0 ==>
              n == ToNumber(pieces[i]).value
    ensures i >= |pieces| || ToNumber(pieces[i]).None? || ToNumber(pieces[i]) == Some(0) ==> n == 1
  {
    if i < |pieces| then
      match ToNumber(pieces[i])
      case Some(v) => if v == 0 then 1 else v
      case None => 1
    else 1
  }

  /**
   * `parseDateKey`: split on '-', read the pieces as numbers; a NaN year gives null,
   * otherwise `new Date(y, (m || 1) - 1, d || 1)`, where years 0..99 mean 1900..1999.
   */
  function ParseDateKey(key: string): (d: Option<JsDate>)
    ensures d.None? <==> !AllDigits(Split(key)[0])
  {
    var pieces := Split(key);
    match ToNumber(pieces[0])
    case None => None
    case Some(y) =>
      var year := if y <= 99 then 1900 + y else y;
      Some(MakeDate(year, PieceOrOne(pieces, 1) - 1, PieceOrOne(pieces, 2)))
  }

  /**
   * `addDays`: the parsed key, or `now` when the key does not parse, moved by
   * `delta` days with `setDate`, and formatted again.
   */
  function AddDays(key: string, delta: int, now: Civil): (shifted: string)
    ensures |shifted| > 0
    ensures ParseDateKey(key) == Some(InvalidDate) ==> shifted == "NaN-NaN-NaN"
  {
    var base := match ParseDateKey(key) case Some(d) => d case None => DateOf(now);
    FormatDate(ShiftDate(base, delta))
  }

  /** `d.setDate(d.getDate() + delta)`: an Invalid Date stays invalid. */
  function ShiftDate(d: JsDate, delta: int): (shifted: JsDate)
    ensures d.InvalidDate? ==> shifted == InvalidDate
    ensures shifted.DateOf? ==> ValidCivil(shifted.date) && InRange(shifted.date)
  {
    match d
    case InvalidDate => InvalidDate
    case DateOf(c) => MakeDate(c.year, c.month - 1, c.day + delta)
  }

  // ---------------------------------------------------------------------------
  // Round trips and day shifts
  // ---------------------------------------------------------------------------

  /** A date-only ISO string: four-digit year, two-digit month and day naming a valid date. */
  predicate IsIsoDate(s: string)
  {
    && |s| == 10 && s[4] == '-' && s[7] == '-'
    && AllDigits(s[..4]) && AllDigits(s[5..7]) && AllDigits(s[8..])
    && ValidCivil(KeyFields(s))
  }

  /**
   * A key `formatDate` can write back unchanged: a date-only ISO string whose year has no
   * leading zero (`formatDate` writes 999 as `999`, and years below 100 do not parse back).
   */
  predicate WellFormedKey(k: string)
  {
    IsIsoDate(k) && k[0] != '0'
  }

  /** The year, month and day digits of a ten-character key, read as numbers. */
  function KeyFields(k: string): Civil
    requires |k| == 10 && AllDigits(k[..4]) && AllDigits(k[5..7]) && AllDigits(k[8..])
  {
    Civil(DigitsValue(k[..4]), DigitsValue(k[5..7]), DigitsValue(k[8..]))
  }

  lemma FourDigitsBounds(s: string)
    requires |s| == 4 && AllDigits(s) && s[0] != '0'
    ensures 1000 <= DigitsValue(s) <= 9999
  {
    var s1, s2, s3 := s[..1], s[..2], s[..3];
    assert s3[..2] == s2 && s3[2] == s[2] && s[..|s| - 1] == s3;
    assert s2[..1] == s1 && s2[1] == s[1];
    assert s1[..0] == [] && s1[0] == s[0];
    assert DigitsValue(s1) == DigitValue(s[0]);
    assert DigitsValue(s2) == DigitValue(s[0]) * 10 + DigitValue(s[1]);
    assert DigitsValue(s3) == DigitsValue(s2) * 10 + DigitValue(s[2]);
    assert DigitsValue(s) == DigitsValue(s3) * 10 + DigitValue(s[3]);
  }

  /** A key joined from three dash-free pieces splits back into them. */
  lemma SplitThree(a: string, b: string, c: string)
    requires '-' !in a && '-' !in b && '-' !in c
    ensures Split(a + "-" + b + "-" + c) == [a, b, c]
  {
    assert a + "-" + b + "-" + c == a + "-" + (b + "-" + c);
    SplitJoin(a, b + "-" + c);
    SplitJoin(b, c);
    SplitNoDash(c);
  }

  lemma DigitsHaveNoDash(s: string)
    requires AllDigits(s)
    ensures '-' !in s
  {
  }

  /** `new Date(y, m - 1, d)` on a valid, representable date is that date. */
  lemma MakeDateOfValid(c: Civil)
    requires ValidCivil(c) && InRange(c)
    ensures MakeDate(c.year, c.month - 1, c.day) == DateOf(c)
  {
    assert 0 <= c.month - 1 < 12;
    assert (c.month - 1) / 12 == 0 && (c.month - 1) % 12 == c.month - 1;
  }

  /** A key of three numeric pieces, the last two positive, parses as `new Date(y, m - 1, d)`. */
  lemma ParseOfNumbers(key: string, y: nat, m: nat, d: nat)
    requires 1 <= m && 1 <= d
    requires |Split(key)| == 3
    requires ToNumber(Split(key)[0]) == Some(y)
    requires ToNumber(Split(key)[1]) == Some(m)
    requires ToNumber(Split(key)[2]) == Some(d)
    ensures ParseDateKey(key) == Some(MakeDate(if y <= 99 then 1900 + y else y, m - 1, d))
  {
    var pieces := Split(key);
    assert PieceOrOne(pieces, 1) == m;
    assert PieceOrOne(pieces, 2) == d;
  }

  /** A key whose three pieces read as the fields of a valid date parses to that date. */
  lemma ParseOfPieces(key: string, c: Civil)
    requires ValidCivil(c) && InRange(c) && 100 <= c.year
    requires |Split(key)| == 3
    requires ToNumber(Split(key)[0]) == Some(c.year)
    requires ToNumber(Split(key)[1]) == Some(c.month as nat)
    requires ToNumber(Split(key)[2]) == Some(c.day as nat)
    ensures ParseDateKey(key) == Some(DateOf(c))
  {
    ParseOfNumbers(key, c.year, c.month, c.day);
    MakeDateOfValid(c);
  }

  /** The three pieces `formatDate` writes read back as the year, month and day. */
  lemma FormattedPieces(c: Civil)
    requires 1 <= c.month && 1 <= c.day && 0 <= c.year
    ensures |Split(FormatDate(DateOf(c)))| == 3
    ensures ToNumber(Split(FormatDate(DateOf(c)))[0]) == Some(c.year)
    ensures ToNumber(Split(FormatDate(DateOf(c)))[1]) == Some(c.month as nat)
    ensures ToNumber(Split(FormatDate(DateOf(c)))[2]) == Some(c.day as nat)
  {
    var ys, ms, ds := NatToString(c.year), PadStart2(NatToString(c.month)), PadStart2(NatToString(c.day));
    var key := FormatDate(DateOf(c));
    assert key == ys + "-" + ms + "-" + ds by {
      assert IntToString(c.year) == ys && IntToString(c.month) == NatToString(c.month)
             && IntToString(c.day) == NatToString(c.day);
    }
    assert AllDigits(ys) && ToNumber(ys) == Some(c.year) by { DigitsOfNat(c.year); }
    assert AllDigits(ms) && ToNumber(ms) == Some(c.month as nat) by { PaddedNatRoundTrip(c.month); }
    assert AllDigits(ds) && ToNumber(ds) == Some(c.day as nat) by { PaddedNatRoundTrip(c.day); }
    assert Split(key) == [ys, ms, ds] by {
      DigitsHaveNoDash(ys);
      DigitsHaveNoDash(ms);
      DigitsHaveNoDash(ds);
      SplitThree(ys, ms, ds);
    }
  }

  /** Pieces written by `formatDate` for a year of at least 100 read back as that date. */
  lemma ParseFormatRoundTrip(c: Civil)
    requires ValidCivil(c) && InRange(c) && 100 <= c.year
    ensures ParseDateKey(FormatDate(DateOf(c))) == Some(DateOf(c))
  {
    FormattedPieces(c);
    ParseOfPieces(FormatDate(DateOf(c)), c);
  }

  /** Two digits read as a number and padded again give the same two digits. */
  lemma TwoDigitsRoundTrip(s: string)
    requires |s| == 2 && AllDigits(s)
    ensures PadStart2(NatToString(DigitsValue(s))) == s
  {
    if s[0] == '0' {
      assert s == "0" + s[1..];
      DigitsLeadingZero(s[1..]);
      NatOfDigits(s[1..]);
    } else {
      NatOfDigits(s);
    }
  }

  /** Formatting the fields of a well-formed key writes the key back. */
  lemma FormatKeyFields(k: string)
    requires WellFormedKey(k)
    ensures FormatDate(DateOf(KeyFields(k))) == k
  {
    var ys, ms, ds := k[..4], k[5..7], k[8..];
    FourDigitsBounds(ys);
    NatOfDigits(ys);
    TwoDigitsRoundTrip(ms);
    TwoDigitsRoundTrip(ds);
    assert k == ys + "-" + ms + "-" + ds;
  }

  /** A well-formed key survives parsing and formatting unchanged. */
  lemma FormatParseRoundTrip(k: string)
    requires WellFormedKey(k)
    ensures ParseDateKey(k).Some? && FormatDate(ParseDateKey(k).value) == k
  {
    var c := KeyFields(k);
    FourDigitsBounds(k[..4]);
    FormatKeyFields(k);
    ParseFormatRoundTrip(c);
  }

  /** `addDays` on a key that parses to a date moves that date with `setDate`. */
  lemma AddDaysOfParsed(key: string, delta: int, now: Civil, c: Civil)
    requires ParseDateKey(key) == Some(DateOf(c))
    ensures AddDays(key, delta, now) == FormatDate(MakeDate(c.year, c.month - 1, c.day + delta))
  {
    assert ShiftDate(DateOf(c), delta) == MakeDate(c.year, c.month - 1, c.day + delta);
  }

  /** The same, with the moved date named: `addDays` formats `target`. */
  lemma AddDaysLandsOn(key: string, delta: int, now: Civil, c: Civil, target: JsDate)
    requires ParseDateKey(key) == Some(DateOf(c))
    requires MakeDate(c.year, c.month - 1, c.day + delta) == target
    ensures AddDays(key, delta, now) == FormatDate(target)
  {
    AddDaysOfParsed(key, delta, now, c);
  }

  /** `setDate(getDate() - 1)` on a valid date lands on the previous calendar day. */
  lemma MakeDateDayBefore(c: Civil)
    requires ValidCivil(c) && InRange(Pred(c))
    ensures MakeDate(c.year, c.month - 1, c.day - 1) == DateOf(Pred(c))
  {
    assert 0 <= c.month - 1 < 12;
    assert (c.month - 1) / 12 == 0 && (c.month - 1) % 12 == c.month - 1;
    if c.day == 1 {
      var (py, pm) := if c.month == 1 then (c.year - 1, 12) else (c.year, c.month - 1);
      assert NormalizeDay(c.year, c.month, 0) == NormalizeDay(py, pm, DaysIn(py, pm));
    }
  }

  /** `setDate(getDate() + 1)` on a valid date lands on the next calendar day. */
  lemma MakeDateDayAfter(c: Civil)
    requires ValidCivil(c) && InRange(Succ(c))
    ensures MakeDate(c.year, c.month - 1, c.day + 1) == DateOf(Succ(c))
  {
    assert (c.month - 1) / 12 == 0 && (c.month - 1) % 12 + 1 == c.month;
    NormalizeDayStep(c.year, c.month, c.day);
  }

  /** `addDays(key, -1)` on a formatted key is the previous calendar day. */
  lemma AddDaysPrevious(c: Civil, now: Civil)
    requires ValidCivil(c) && InRange(c) && InRange(Pred(c)) && 100 <= c.year
    ensures AddDays(FormatDate(DateOf(c)), -1, now) == FormatDate(DateOf(Pred(c)))
  {
    ParseFormatRoundTrip(c);
    MakeDateDayBefore(c);
    AddDaysLandsOn(FormatDate(DateOf(c)), -1, now, c, DateOf(Pred(c)));
  }

  /** `addDays(key, 1)` on a formatted key is the next calendar day. */
  lemma AddDaysNext(c: Civil, now: Civil)
    requires ValidCivil(c) && InRange(c) && InRange(Succ(c)) && 100 <= c.year
    ensures AddDays(FormatDate(DateOf(c)), 1, now) == FormatDate(DateOf(Succ(c)))
  {
    ParseFormatRoundTrip(c);
    MakeDateDayAfter(c);
    AddDaysLandsOn(FormatDate(DateOf(c)), 1, now, c, DateOf(Succ(c)));
  }

  /** A key whose year is not a number is shifted from today's date instead. */
  lemma AddDaysFallsBackToNow(key: string, delta: int, now: Civil)
    requires ParseDateKey(key).None?
    requires ValidCivil(now) && InRange(now) && 100 <= now.year
    ensures AddDays(key, delta, now) == AddDays(FormatDate(DateOf(now)), delta, now)
  {
    ParseFormatRoundTrip(now);
  }

  /** The empty key is not unparsable: `Number('')` is 0, so it is 1 January 1900. */
  lemma EmptyKeyIs1900()
    ensures ParseDateKey("") == Some(DateOf(Civil(1900, 1, 1)))
  {
    assert Split("") == [""];
    assert NormalizeDay(1900, 1, 1) == Civil(1900, 1, 1);
  }

  /** Years 0..99 are read back as 1900..1999, so keys for those years do not round-trip. */
  lemma TwoDigitYearsShift(c: Civil)
    requires 0 <= c.year <= 99 && ValidCivil(Civil(1900 + c.year, c.month, c.day))
    ensures ParseDateKey(FormatDate(DateOf(c))) == Some(DateOf(Civil(1900 + c.year, c.month, c.day)))
  {
    FormattedPieces(c);
    ParseOfTwoDigitPieces(FormatDate(DateOf(c)), c);
  }

  /** A key whose first piece reads as a year below 100 parses to that year plus 1900. */
  lemma ParseOfTwoDigitPieces(key: string, c: Civil)
    requires 0 <= c.year <= 99 && ValidCivil(Civil(1900 + c.year, c.month, c.day))
    requires |Split(key)| == 3
    requires ToNumber(Split(key)[0]) == Some(c.year)
    requires ToNumber(Split(key)[1]) == Some(c.month as nat)
    requires ToNumber(Split(key)[2]) == Some(c.day as nat)
    ensures ParseDateKey(key) == Some(DateOf(Civil(1900 + c.year, c.month, c.day)))
  {
    var shifted := Civil(1900 + c.year, c.month, c.day);
    assert MakeDate(1900 + c.year, c.month - 1, c.day) == DateOf(shifted) by {
      assert InRange(shifted);
      MakeDateOfValid(shifted);
    }
    ParseOfNumbers(key, c.year, c.month, c.day);
  }

  // ---------------------------------------------------------------------------
  // Key order
  // ---------------------------------------------------------------------------

  /** Equal-length pieces followed by the same separator compare as the pieces do. */
  lemma LessWithSeparator(a: string, c: string, sep: string)
    requires |a| == |c|
    ensures Less(a + sep, c + sep) <==> Less(a, c)
    ensures a + sep == c + sep <==> a == c
  {
    LessConcat(a, sep, c, sep);
    LessIrreflexive(sep);
    if a + sep == c + sep {
      assert a == (a + sep)[..|a|] && c == (c + sep)[..|c|];
    }
  }

  /** The two digits `formatDate` writes for a month or day, compared as text, compare as numbers. */
  lemma PaddedOrder(m: nat, n: nat)
    requires 1 <= m < 100 && 1 <= n < 100
    ensures |PadStart2(NatToString(m))| == 2 && |PadStart2(NatToString(n))| == 2
    ensures Less(PadStart2(NatToString(m)), PadStart2(NatToString(n))) <==> m < n
    ensures PadStart2(NatToString(m)) == PadStart2(NatToString(n)) <==> m == n
  {
    ShortNatLength(m);
    ShortNatLength(n);
    PaddedNatRoundTrip(m);
    PaddedNatRoundTrip(n);
    LessDigits(PadStart2(NatToString(m)), PadStart2(NatToString(n)));
  }

  /** The four digits of a year from 1000 to 9999, compared as text, compare as numbers. */
  lemma YearOrder(y: nat, z: nat)
    requires 1000 <= y <= 9999 && 1000 <= z <= 9999
    ensures |NatToString(y)| == 4 && |NatToString(z)| == 4
    ensures Less(NatToString(y), NatToString(z)) <==> y < z
    ensures NatToString(y) == NatToString(z) <==> y == z
  {
    FourDigitNatLength(y);
    FourDigitNatLength(z);
    DigitsOfNat(y);
    DigitsOfNat(z);
    LessDigits(NatToString(y), NatToString(z));
  }

  /** `formatDate` of a date with a non-negative year, as its three pieces. */
  lemma FormatAsPieces(c: Civil)
    requires 0 <= c.year && 1 <= c.month && 1 <= c.day
    ensures FormatDate(DateOf(c)) ==
            (NatToString(c.year) + "-") + ((PadStart2(NatToString(c.month)) + "-") + PadStart2(NatToString(c.day)))
  {
    var y, m, d := NatToString(c.year), PadStart2(NatToString(c.month)), PadStart2(NatToString(c.day));
    assert IntToString(c.year) == y && PadStart2(IntToString(c.month)) == m && PadStart2(IntToString(c.day)) == d;
    Regroup(y, m, d);
  }

  lemma Regroup(y: string, m: string, d: string)
    ensures y + "-" + m + "-" + d == (y + "-") + ((m + "-") + d)
  {
  }

  /** Keys made of pieces of fixed widths compare piece by piece: year, then month, then day. */
  lemma PiecewiseOrder(ya: string, ma: string, da: string, yb: string, mb: string, db: string)
    requires |ya| == |yb| && |ma| == |mb|
    ensures Less((ya + "-") + ((ma + "-") + da), (yb + "-") + ((mb + "-") + db)) <==>
            Less(ya, yb) || (ya == yb && (Less(ma, mb) || (ma == mb && Less(da, db))))
  {
    LessWithSeparator(ya, yb, "-");
    LessWithSeparator(ma, mb, "-");
    LessConcat(ya + "-", (ma + "-") + da, yb + "-", (mb + "-") + db);
    LessConcat(ma + "-", da, mb + "-", db);
  }

  /**
   * For years 1000 to 9999, the string order of keys (what `sort()` and `<` use) is the
   * chronological order of their days.
   */
  lemma KeyOrderIsChronological(a: Civil, b: Civil)
    requires ValidCivil(a) && 1000 <= a.year <= 9999
    requires ValidCivil(b) && 1000 <= b.year <= 9999
    ensures Less(FormatDate(DateOf(a)), FormatDate(DateOf(b))) <==> CivilLess(a, b)
  {
    FormatAsPieces(a);
    FormatAsPieces(b);
    YearOrder(a.year, b.year);
    PaddedOrder(a.month, b.month);
    PaddedOrder(a.day, b.day);
    PiecewiseOrder(NatToString(a.year), PadStart2(NatToString(a.month)), PadStart2(NatToString(a.day)),
                   NatToString(b.year), PadStart2(NatToString(b.month)), PadStart2(NatToString(b.day)));
  }

  // ---------------------------------------------------------------------------
  // Forecast date label (formatDateLabel)
  // ---------------------------------------------------------------------------

  /** Days contributed by the years before `year` in the weekday formula below. */
  function YearShift(year: int): int
  {
    year + year / 4 - year / 100 + year / 400
  }

  /** Day of the week, 0 = Sunday, for the proleptic Gregorian calendar. */
  function DayOfWeek(c: Civil): (w: int)
    requires ValidCivil(c)
    ensures 0 <= w < 7
  {
    var offsets := [0, 3, 2, 5, 0, 3, 5, 1, 4, 6, 2, 4];
    var y := if c.month < 3 then c.year - 1 else c.year;
    (YearShift(y) + offsets[c.month - 1] + c.day) % 7
  }

  /** 1 January 1970 was a Thursday. */
  lemma EpochIsThursday()
    ensures DayOfWeek(Civil(1970, 1, 1)) == 4
  {
  }

  const WeekdayNames: seq<string> := ["星期日", "星期一", "星期二", "星期三", "星期四", "星期五", "星期六"]

  /**
   * `formatDateLabel`: "" stays "", a date-only ISO string becomes
   * "<day-of-month>日<weekday>", any other string is returned unchanged.
   */
  function DateLabel(s: string): (shown: string)
    ensures s == "" ==> shown == ""
    ensures !IsIsoDate(s) ==> shown == s
    ensures IsIsoDate(s) ==> shown == NatToString(KeyFields(s).day) + "日" + WeekdayNames[DayOfWeek(KeyFields(s))]
  {
    if s == "" then ""
    else if IsIsoDate(s) then
      var c := KeyFields(s);
      NatToString(c.day) + "日" + WeekdayNames[DayOfWeek(c)]
    else s
  }

  lemma ModSevenShift(a: int, k: int)
    ensures (a + 7 * k) % 7 == a % 7 && (a + 1) % 7 == (a % 7 + 1) % 7
  {
  }

  /** Consecutive days have consecutive weekdays, so the labels cycle through the week. */
  lemma WeekdayAdvances(c: Civil)
    requires ValidCivil(c)
    ensures DayOfWeek(Succ(c)) == (DayOfWeek(c) + 1) % 7
  {
    var offsets := [0, 3, 2, 5, 0, 3, 5, 1, 4, 6, 2, 4];
    var y := if c.month < 3 then c.year - 1 else c.year;
    var a := YearShift(y) + offsets[c.month - 1] + c.day;
    assert DayOfWeek(c) == a % 7;
    var k: int;
    if c.day < DaysIn(c.year, c.month) {
      k := 0;
    } else if c.month == 2 {
      LeapYearShift(c.year);
      k := -4;
    } else if c.month < 12 {
      k := (offsets[c.month] - offsets[c.month - 1] - c.day) / 7;
      assert offsets[c.month] - offsets[c.month - 1] - c.day == 7 * k;
    } else {
      k := -5;
    }
    assert DayOfWeek(Succ(c)) == (a + 1 + 7 * k) % 7;
    ModSevenShift(a + 1, k);
    ModSevenShift(a, 0);
  }

  /** Entering a year adds one weekday, two after a leap day. */
  lemma LeapYearShift(year: int)
    ensures YearShift(year) - YearShift(year - 1) == if IsLeap(year) then 2 else 1
  {
    var d4, d100, d400 := year / 4 - (year - 1) / 4, year / 100 - (year - 1) / 100, year / 400 - (year - 1) / 400;
    assert YearShift(year) - YearShift(year - 1) == 1 + d4 - d100 + d400;
    DivStep4(year);
    DivStep100(year);
    DivStep400(year);
    if year % 400 == 0 {
      assert year % 100 == 0 && year % 4 == 0;
    } else if year % 100 == 0 {
      assert year % 4 == 0;
    }
  }

  lemma DivStep4(year: int)
    ensures year / 4 - (year - 1) / 4 == if year % 4 == 0 then 1 else 0
  {
  }

  lemma DivStep100(year: int)
    ensures year / 100 - (year - 1) / 100 == if year % 100 == 0 then 1 else 0
  {
  }

  lemma DivStep400(year: int)
    ensures year / 400 - (year - 1) / 400 == if year % 400 == 0 then 1 else 0
  {
  }
}
