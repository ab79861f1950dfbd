/** Calendar dates, the parse performed by `datetime.strptime(s, "%Y-%m-%d")`
    and the clock formats the record store stamps into ids and audit
    columns. */
module Dates {
  import opened Common

  datatype Date = Date(year: int, month: int, day: int)

  predicate IsLeapYear(y: int) {
    y % 4 == 0 && (y % 100 != 0 || y % 400 == 0)
  }

  function DaysInMonth(y: int, m: int): (n: int)
    requires 1 <= m <= 12
    ensures 28 <= n <= 31
  {
    if m == 2 then (if IsLeapYear(y) then 29 else 28)
    else if m == 4 || m == 6 || m == 9 || m == 11 then 30
    else 31
  }

  /** A date `datetime.date` accepts: years 1 to 9999, real days of real months. */
  predicate ValidDate(d: Date) {
    1 <= d.year <= 9999 && 1 <= d.month <= 12 && 1 <= d.day <= DaysInMonth(d.year, d.month)
  }

  /** `a > b` on dates. */
  predicate After(a: Date, b: Date) {
    a.year > b.year
    || (a.year == b.year && a.month > b.month)
    || (a.year == b.year && a.month == b.month && a.day > b.day)
  }

  /** An ASCII decimal digit (the model reads regex `\d` this way). */
  predicate IsDigit(c: char) {
    '0' <= c <= '9'
  }

  function Digit(c: char): (n: int)
    requires IsDigit(c)
    ensures 0 <= n <= 9
  {
    c as int - '0' as int
  }

  /** The matches of strptime's month pattern `1[0-2]|0[1-9]|[1-9]` at `i`,
      in the order the alternation tries them, as (month, end index). */
  function MonthMatches(s: string, i: nat): (r: seq<(int, nat)>)
    ensures forall c :: c in r ==> 1 <= c.0 <= 12 && i < c.1 <= |s|
  {
    (if i + 1 < |s| && s[i] == '1' && '0' <= s[i + 1] <= '2' then [(10 + Digit(s[i + 1]), i + 2)] else [])
    + (if i + 1 < |s| && s[i] == '0' && '1' <= s[i + 1] <= '9' then [(Digit(s[i + 1]), i + 2)] else [])
    + (if i < |s| && '1' <= s[i] <= '9' then [(Digit(s[i]), i + 1)] else [])
  }

  /** The first alternative of strptime's day pattern
      `3[01]|[12]\d|0[1-9]|[1-9]| [1-9]` that matches at `i`. Nothing follows
      the day in the format, so the regex settles on the first one. */
  function DayMatch(s: string, i: nat): (r: Option<(int, nat)>)
    ensures r.Some? ==> 1 <= r.value.0 <= 31 && i < r.value.1 <= |s|
  {
    if i + 1 < |s| && s[i] == '3' && (s[i + 1] == '0' || s[i + 1] == '1') then Some((30 + Digit(s[i + 1]), i + 2))
    else if i + 1 < |s| && (s[i] == '1' || s[i] == '2') && IsDigit(s[i + 1]) then Some((10 * Digit(s[i]) + Digit(s[i + 1]), i + 2))
    else if i + 1 < |s| && s[i] == '0' && '1' <= s[i + 1] <= '9' then Some((Digit(s[i + 1]), i + 2))
    else if i < |s| && '1' <= s[i] <= '9' then Some((Digit(s[i]), i + 1))
    else if i + 1 < |s| && s[i] == ' ' && '1' <= s[i + 1] <= '9' then Some((Digit(s[i + 1]), i + 2))
    else None
  }

  /** Backtracking over the month candidates: the first one followed by `-`
      and a day. Gives (month, day, end of match). */
  function MatchMonthDay(s: string, cands: seq<(int, nat)>): (r: Option<(int, int, nat)>)
    requires forall c :: c in cands ==> 1 <= c.0 <= 12 && c.1 <= |s|
    ensures r.Some? ==> 1 <= r.value.0 <= 12 && 1 <= r.value.1 <= 31 && r.value.2 <= |s|
  {
    if cands == [] then None
    else
      var j := cands[0].1;
      if j < |s| && s[j] == '-' && DayMatch(s, j + 1).Some? then
        Some((cands[0].0, DayMatch(s, j + 1).value.0, DayMatch(s, j + 1).value.1))
      else MatchMonthDay(s, cands[1..])
  }

  /** `datetime.strptime(s, "%Y-%m-%d").date()`, or None where strptime raises
      ValueError: the pattern does not match, "unconverted data remains"
      after the day, or the numbers are not a calendar date. */
  function ParseYmd(s: string): (r: Option<Date>)
    ensures r.Some? ==> ValidDate(r.value)
  {
    if |s| < 5 || !(IsDigit(s[0]) && IsDigit(s[1]) && IsDigit(s[2]) && IsDigit(s[3])) || s[4] != '-' then None
    else
      var year := 1000 * Digit(s[0]) + 100 * Digit(s[1]) + 10 * Digit(s[2]) + Digit(s[3]);
      match MatchMonthDay(s, MonthMatches(s, 5))
      case None => None
      case Some(md) =>
        if md.2 != |s| then None
        else if ValidDate(Date(year, md.0, md.1)) then Some(Date(year, md.0, md.1))
        else None
  }

  /** Zero-padded decimal digits. */
  function Pad2(n: int): (r: string)
    requires 0 <= n < 100
    ensures |r| == 2 && IsDigit(r[0]) && IsDigit(r[1])
    ensures 10 * Digit(r[0]) + Digit(r[1]) == n
  {
    [('0' as int + n / 10) as char, ('0' as int + n % 10) as char]
  }

  function Pad4(n: int): (r: string)
    requires 0 <= n < 10000
    ensures |r| == 4 && forall i :: 0 <= i < 4 ==> IsDigit(r[i])
    ensures 1000 * Digit(r[0]) + 100 * Digit(r[1]) + 10 * Digit(r[2]) + Digit(r[3]) == n
  {
    Pad2(n / 100) + Pad2(n % 100)
  }

  /** The ISO form `YYYY-MM-DD`, as `date.isoformat()` writes it. */
  function FormatYmd(d: Date): (r: string)
    requires ValidDate(d)
    ensures |r| == 10
  {
    Pad4(d.year) + "-" + Pad2(d.month) + "-" + Pad2(d.day)
  }

  /** strptime reads back every zero-padded ISO date. */
  lemma FormatThenParse(d: Date)
    requires ValidDate(d)
    ensures ParseYmd(FormatYmd(d)) == Some(d)
  {
    var s := FormatYmd(d);
    var y, m, dd := Pad4(d.year), Pad2(d.month), Pad2(d.day);
    assert s == y + "-" + m + "-" + dd;
    assert s[0] == y[0] && s[1] == y[1] && s[2] == y[2] && s[3] == y[3] && s[4] == '-';
    assert s[5] == m[0] && s[6] == m[1] && s[7] == '-' && s[8] == dd[0] && s[9] == dd[1];
    PaddedMonth(s, 5, d.month);
    PaddedDay(s, 8, d.day);
    assert MatchMonthDay(s, MonthMatches(s, 5)) == Some((d.month, d.day, 10));
  }

  /** A zero-padded month is the first candidate of the month pattern. */
  lemma PaddedMonth(s: string, i: nat, m: int)
    requires 1 <= m <= 12 && i + 1 < |s| && s[i] == Pad2(m)[0] && s[i + 1] == Pad2(m)[1]
    ensures |MonthMatches(s, i)| > 0 && MonthMatches(s, i)[0] == (m, i + 2)
  {
  }

  /** A zero-padded day is what the day pattern reads. */
  lemma PaddedDay(s: string, i: nat, d: int)
    requires 1 <= d <= 31 && i + 1 < |s| && s[i] == Pad2(d)[0] && s[i + 1] == Pad2(d)[1]
    ensures DayMatch(s, i) == Some((d, i + 2))
  {
  }

  /** strptime also takes unpadded months and days. */
  lemma ParseUnpadded()
    ensures ParseYmd("2024-1-5") == Some(Date(2024, 1, 5))
  {
    assert MonthMatches("2024-1-5", 5) == [(1, 6)];
  }

  /** February 29th exists in leap years only. */
  lemma ParseLeapDay()
    ensures ParseYmd("2024-02-29") == Some(Date(2024, 2, 29))
    ensures ParseYmd("2023-02-29") == None
  {
    assert MonthMatches("2024-02-29", 5) == [(2, 7)];
    assert MonthMatches("2023-02-29", 5) == [(2, 7)];
  }

  /** A month past 12 is read as month 1 followed by junk, and fails. */
  lemma ParseBadMonth()
    ensures ParseYmd("2024-13-01") == None
  {
    assert MonthMatches("2024-13-01", 5) == [(1, 6)];
  }

  /** Trailing characters fail. */
  lemma ParseTrailingSpace()
    ensures ParseYmd("2024-01-01 ") == None
  {
    assert MonthMatches("2024-01-01 ", 5) == [(1, 7)];
    assert DayMatch("2024-01-01 ", 8) == Some((1, 10));
  }

  /** A wall-clock reading, as `datetime.now()` returns it. */
  datatype DateTime = DateTime(date: Date, hour: int, minute: int, second: int)

  /** A reading the clock can give; years before 1000 are left out, since
      their `%Y` rendering depends on the platform. */
  predicate ValidClock(t: DateTime) {
    ValidDate(t.date) && 1000 <= t.date.year
    && 0 <= t.hour < 24 && 0 <= t.minute < 60 && 0 <= t.second < 60
  }

  /** `strftime('%Y%m%d%H%M%S')`: fourteen digits. */
  function CompactStamp(t: DateTime): (r: string)
    requires ValidClock(t)
    ensures |r| == 14 && forall i :: 0 <= i < 14 ==> IsDigit(r[i])
  {
    var r := Pad4(t.date.year) + Pad2(t.date.month) + Pad2(t.date.day)
      + Pad2(t.hour) + Pad2(t.minute) + Pad2(t.second);
    assert forall i :: 0 <= i < 4 ==> r[i] == Pad4(t.date.year)[i];
    r
  }

  /** `strftime('%Y-%m-%d %H:%M:%S')`. */
  function ClockStamp(t: DateTime): (r: string)
    requires ValidClock(t)
    ensures |r| == 19
  {
    FormatYmd(t.date) + " " + Pad2(t.hour) + ":" + Pad2(t.minute) + ":" + Pad2(t.second)
  }
}
