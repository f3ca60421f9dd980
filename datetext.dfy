/** Text renderings of a date: `Date.prototype.toISOString` cut at the 'T'
    (the calendar date of ISO 8601, section 4.1.2.2 extended format
    YYYY-MM-DD) and `String(date)` (ECMAScript's Date.prototype.toString)
    with the zone fixed at UTC. */
module DateText {
  import opened JsText
  import opened Calendar

  /** The year of `toISOString`: four digits for 0..9999, otherwise a sign and six digits. */
  function IsoYear(y: int): (s: string)
    ensures 0 <= y <= 9999 ==> |s| == 4 && AllDigits(s) && DigitsValue(s) == y
  {
    if 0 <= y <= 9999 then PadZeros(NatToString(y), 4)
    else (if y < 0 then "-" else "+") + PadZeros(NatToString(if y < 0 then -y else y), 6)
  }

  /** Two-digit month or day, as `toISOString` and `toString` print them. */
  function TwoDigits(n: nat): (s: string)
    requires n < 100
    ensures |s| == 2 && AllDigits(s) && DigitsValue(s) == n
  {
    PadZeros(NatToString(n), 2)
  }

  /** `date.toISOString().split('T')[0]`: for the years 0..9999, the
      YYYY-MM-DD text of the date's calendar day. */
  function IsoDate(d: Date): (s: string)
    ensures IsoText(CivilFromDays(d.day), s)
  {
    IsoCivil(CivilFromDays(d.day))
  }

  /** `s` is the YYYY-MM-DD text of `c` when `c` falls in the years
      0..9999: the four-digit year, the month counted from 1 and the day of
      the month, in two digits each, joined by dashes. */
  predicate IsoText(c: Civil, s: string) {
    ValidCivil(c) && 0 <= c.year <= 9999 ==>
      && |s| == 10 && s[4] == '-' && s[7] == '-'
      && s[..4] == IsoYear(c.year) && s[5..7] == TwoDigits(c.month + 1) && s[8..] == TwoDigits(c.day)
  }

  /** The YYYY-MM-DD text of a calendar date. */
  function IsoCivil(c: Civil): (s: string)
    requires ValidCivil(c)
    ensures IsoText(c, s)
  {
    var year, month, day := IsoYear(c.year), TwoDigits(c.month + 1), TwoDigits(c.day);
    DashJoined(year, month, day);
    year + "-" + month + "-" + day
  }

  /** Where the pieces of a YYYY-MM-DD text sit. */
  lemma DashJoined(year: string, month: string, day: string)
    requires |month| == 2 && |day| == 2
    ensures var s := year + "-" + month + "-" + day;
      |year| == 4 ==>
        && |s| == 10 && s[4] == '-' && s[7] == '-'
        && s[..4] == year && s[5..7] == month && s[8..] == day
  {
  }

  const WeekDayNames: seq<string> := ["Sun", "Mon", "Tue", "Wed", "Thu", "Fri", "Sat"]
  const MonthNames: seq<string> :=
    ["Jan", "Feb", "Mar", "Apr", "May", "Jun", "Jul", "Aug", "Sep", "Oct", "Nov", "Dec"]

  /** `String(date)` at midnight UTC, e.g. "Thu Jan 05 2023 00:00:00 GMT+0000 (Coordinated Universal Time)";
      1970-01-01 was a Thursday. */
  function DateToString(d: Date): (s: string)
    ensures |s| > 3
  {
    var c := CivilFromDays(d.day);
    var year := (if c.year < 0 then "-" else "") + PadZeros(NatToString(if c.year < 0 then -c.year else c.year), 4);
    WeekDayNames[(d.day + 4) % 7] + " " + MonthNames[c.month] + " " + TwoDigits(c.day) + " " + year
      + " 00:00:00 GMT+0000 (Coordinated Universal Time)"
  }
}
