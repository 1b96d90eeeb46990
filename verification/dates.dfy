/** Calendar dates as the collector sees them: the `YYYY-MM-DD` strings the
    analytics API returns, Python's `datetime.strptime(s, '%Y-%m-%d')` that turns
    such a string into a date (cloudflare_analytics.py:240), and the zero-padded
    rendering the sheet's `yyyy-mm-dd` number format shows. */
module Dates {
  import opened Outcomes
  import opened Text

  /** A proleptic Gregorian date, as Python's `datetime.date` holds it. */
  datatype CalendarDate = CalendarDate(year: int, month: int, day: int)

  predicate IsLeapYear(y: int)
  {
    y % 4 == 0 && (y % 100 != 0 || y % 400 == 0)
  }

  function DaysInMonth(y: int, m: int): (n: int)
    requires 1 <= m <= 12
    ensures 28 <= n <= 31
  {
    if m == 2 then (if IsLeapYear(y) then 29 else 28)
    else if m == 4 || m == 6 || m == 9 || m == 11 then 30
    else 31
  }

  /** The dates `datetime` accepts: years 1 to 9999 and a day that exists in its month. */
  predicate ValidDate(d: CalendarDate)
  {
    && 1 <= d.year <= 9999
    && 1 <= d.month <= 12
    && 1 <= d.day <= DaysInMonth(d.year, d.month)
  }

  /** Chronological order of dates. */
  predicate Before(a: CalendarDate, b: CalendarDate)
  {
    || a.year < b.year
    || (a.year == b.year && a.month < b.month)
    || (a.year == b.year && a.month == b.month && a.day < b.day)
  }

  /** The `%m` directive, `1[0-2]|0[1-9]|[1-9]`, followed by the literal `-`:
      the month and the index just after the `-`. At most one alternative can be
      followed by `-`, so the regular expression's backtracking never matters. */
  function MonthField(s: string, i: nat): (r: Option<(int, nat)>)
    ensures r.Some? ==> 1 <= r.value.0 <= 12 && i + 2 <= r.value.1 <= |s| && s[r.value.1 - 1] == '-'
  {
    if i + 2 < |s| && s[i] == '1' && '0' <= s[i + 1] <= '2' && s[i + 2] == '-' then
      Some((10 + DigitValue(s[i + 1]), i + 3))
    else if i + 2 < |s| && s[i] == '0' && '1' <= s[i + 1] <= '9' && s[i + 2] == '-' then
      Some((DigitValue(s[i + 1]), i + 3))
    else if i + 1 < |s| && '1' <= s[i] <= '9' && s[i + 1] == '-' then
      Some((DigitValue(s[i]), i + 2))
    else
      None
  }

  /** The `%d` directive, `3[01]|[12]\d|0[1-9]|[1-9]| [1-9]`: the first alternative
      that matches at `j` wins, since nothing follows it in the pattern; the day and
      the index just after it. */
  function DayField(s: string, j: nat): (r: Option<(int, nat)>)
    ensures r.Some? ==> 1 <= r.value.0 <= 31 && j < r.value.1 <= |s|
  {
    if j + 1 < |s| && s[j] == '3' && '0' <= s[j + 1] <= '1' then
      Some((30 + DigitValue(s[j + 1]), j + 2))
    else if j + 1 < |s| && '1' <= s[j] <= '2' && IsDigit(s[j + 1]) then
      Some((10 * DigitValue(s[j]) + DigitValue(s[j + 1]), j + 2))
    else if j + 1 < |s| && s[j] == '0' && '1' <= s[j + 1] <= '9' then
      Some((DigitValue(s[j + 1]), j + 2))
    else if j < |s| && '1' <= s[j] <= '9' then
      Some((DigitValue(s[j]), j + 1))
    else if j + 1 < |s| && s[j] == ' ' && '1' <= s[j + 1] <= '9' then
      Some((DigitValue(s[j + 1]), j + 2))
    else
      None
  }

  /** `datetime.strptime(s, '%Y-%m-%d')`: four digits, `-`, a month, `-`, a day,
      nothing left over, and a date that exists. None is the ValueError. */
  function ParseDate(s: string): (r: Option<CalendarDate>)
    ensures r.Some? ==> ValidDate(r.value)
  {
    if |s| < 5 || !AllDigits(s[..4]) || s[4] != '-' then None
    else
      match MonthField(s, 5)
      case None => None
      case Some((month, j)) =>
        match DayField(s, j)
        case None => None
        case Some((day, k)) =>
          var d := CalendarDate(DigitsValue(s[..4]), month, day);
          if k == |s| && ValidDate(d) then Some(d) else None
  }

  /** The zero-padded `YYYY-MM-DD` form: what the API sends and what a cell with the
      `yyyy-mm-dd` number format shows. */
  function IsoDate(d: CalendarDate): (s: string)
    requires ValidDate(d)
    ensures |s| == 10
  {
    Padded(d.year, 4) + "-" + Padded(d.month, 2) + "-" + Padded(d.day, 2)
  }

  /** A date string in canonical form: it parses, and printing the date back gives it. */
  predicate IsCanonical(s: string)
  {
    ParseDate(s).Some? && IsoDate(ParseDate(s).value) == s
  }

  /** Parsing the zero-padded rendering of a date gives the date back. */
  lemma ParseIsoDate(d: CalendarDate)
    requires ValidDate(d)
    ensures ParseDate(IsoDate(d)) == Some(d)
    ensures IsCanonical(IsoDate(d))
  {
    var s := IsoDate(d);
    var y, m, dd := Padded(d.year, 4), Padded(d.month, 2), Padded(d.day, 2);
    PaddedTwoDigits(d.month);
    PaddedTwoDigits(d.day);
    assert s[..4] == y;
    assert s[4] == '-' && s[7] == '-';
    assert s[5] == m[0] && s[6] == m[1];
    assert s[8] == dd[0] && s[9] == dd[1];
    MonthFieldOfPadded(s, d.month);
    DayFieldOfPadded(s, d.day);
  }

  lemma MonthFieldOfPadded(s: string, month: int)
    requires 1 <= month <= 12 && |s| == 10 && s[7] == '-'
    requires s[5] == DigitChar(month / 10) && s[6] == DigitChar(month % 10)
    ensures MonthField(s, 5) == Some((month, 8))
  {
  }

  lemma DayFieldOfPadded(s: string, day: int)
    requires 1 <= day <= 31 && |s| == 10
    requires s[8] == DigitChar(day / 10) && s[9] == DigitChar(day % 10)
    ensures DayField(s, 8) == Some((day, 10))
  {
  }

  /** The zero-padded rendering orders dates chronologically: sorting the API's date
      strings as `str` sorts the days by date. */
  lemma IsoDateOrder(a: CalendarDate, b: CalendarDate)
    requires ValidDate(a) && ValidDate(b)
    ensures Less(IsoDate(a), IsoDate(b)) <==> Before(a, b)
  {
    var ya, ma, da := Padded(a.year, 4), Padded(a.month, 2), Padded(a.day, 2);
    var yb, mb, db := Padded(b.year, 4), Padded(b.month, 2), Padded(b.day, 2);
    assert IsoDate(a) == ya + ("-" + (ma + ("-" + da)));
    assert IsoDate(b) == yb + ("-" + (mb + ("-" + db)));
    LessConcat(ya, "-" + (ma + ("-" + da)), yb, "-" + (mb + ("-" + db)));
    LessConcat("-", ma + ("-" + da), "-", mb + ("-" + db));
    LessConcat(ma, "-" + da, mb, "-" + db);
    LessConcat("-", da, "-", db);
    LessIrreflexive("-");
    DigitsLess(ya, yb);
    DigitsLess(ma, mb);
    DigitsLess(da, db);
    PaddedInjective(a.year, b.year, 4);
    PaddedInjective(a.month, b.month, 2);
  }

  /** Different valid dates have different renderings. */
  lemma IsoDateInjective(a: CalendarDate, b: CalendarDate)
    requires ValidDate(a) && ValidDate(b) && IsoDate(a) == IsoDate(b)
    ensures a == b
  {
    ParseIsoDate(a);
    ParseIsoDate(b);
  }
}
