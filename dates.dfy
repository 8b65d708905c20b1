/** Calendar dates as Python's `datetime` reads and writes them: `fromisoformat` on a
    `yyyy-MM-dd` string, `isoformat()`, and `strftime('%Y-%m-%d')` / `strftime('%H%M')` of an
    instant. An instant is a whole number of seconds since 1970-01-01T00:00:00 UTC. */
module Dates {
  import opened Wrappers
  import opened Strings

  datatype Date = Date(year: int, month: int, day: int)

  type Instant = int

  const SecondsPerDay: nat := 86400

  predicate IsLeapYear(y: int)
  {
    y % 4 == 0 && (y % 100 != 0 || y % 400 == 0)
  }

  function DaysInMonth(y: int, m: int): int
  {
    if m == 2 then (if IsLeapYear(y) then 29 else 28)
    else if m == 4 || m == 6 || m == 9 || m == 11 then 30
    else 31
  }

  /** The dates Python's `date` can hold: years 1 to 9999, real months and days. */
  predicate ValidDate(d: Date)
  {
    1 <= d.year <= 9999 && 1 <= d.month <= 12 && 1 <= d.day <= DaysInMonth(d.year, d.month)
  }

  /** `a < b` on dates (and on the midnight datetimes Python builds from them). */
  predicate Before(a: Date, b: Date)
  {
    a.year < b.year
    || (a.year == b.year && a.month < b.month)
    || (a.year == b.year && a.month == b.month && a.day < b.day)
  }

  /** `datetime.fromisoformat(s)` for a ten-character date string: `yyyy-MM-dd` with ASCII
      digits naming a real calendar date; anything else raises, here `None`. */
  function ParseIsoDate(s: string): (r: Option<Date>)
    ensures r.Some? ==> ValidDate(r.value) && |s| == 10
  {
    if |s| == 10 && AllDigits(s[..4]) && s[4] == '-' && AllDigits(s[5..7]) && s[7] == '-'
      && AllDigits(s[8..])
    then
      var d := Date(DigitsValue(s[..4]), DigitsValue(s[5..7]), DigitsValue(s[8..]));
      if ValidDate(d) then Some(d) else None
    else None
  }

  /** `date.isoformat()`: `yyyy-MM-dd`, zero-padded. */
  function FormatIsoDate(d: Date): (s: string)
    requires ValidDate(d)
    ensures |s| == 10
  {
    Padded(d.year, 4) + "-" + Padded(d.month, 2) + "-" + Padded(d.day, 2)
  }

  /** What `list_repositories` stores as `last_backup`: the midnight datetime parsed from a
      date string, rendered with `isoformat()` and a trailing `Z`. */
  function MidnightStamp(d: Date): (s: string)
    requires ValidDate(d)
    ensures |s| == 20
  {
    FormatIsoDate(d) + "T00:00:00Z"
  }

  /** The stored stamp's first ten characters parse back to the very date it was made from, so
      comparing a new date against `fromisoformat(last_backup[:10])` compares dates. */
  lemma StampRoundTrip(d: Date)
    requires ValidDate(d)
    ensures ParseIsoDate(Take(MidnightStamp(d), 10)) == Some(d)
  {
    var y, m, dd := Padded(d.year, 4), Padded(d.month, 2), Padded(d.day, 2);
    var s := FormatIsoDate(d);
    assert Take(MidnightStamp(d), 10) == s;
    assert s[..4] == y && s[4] == '-';
    assert s[5..7] == m && s[7] == '-';
    assert s[8..] == dd;
    PaddedValue(d.year, 4);
    PaddedValue(d.month, 2);
    PaddedValue(d.day, 2);
    assert AllDigits(s[..4]) && AllDigits(s[5..7]) && AllDigits(s[8..]);
    assert Date(DigitsValue(s[..4]), DigitsValue(s[5..7]), DigitsValue(s[8..])) == d;
  }

  /** `Before` is a strict total order: of two different dates exactly one is earlier. */
  lemma BeforeTotal(a: Date, b: Date)
    ensures a == b || Before(a, b) || Before(b, a)
    ensures !(Before(a, b) && Before(b, a))
  {
  }

  // ---------------------------------------------------------------------------
  // Instants to civil time, for strftime

  function DaysInYear(y: int): nat
  {
    if IsLeapYear(y) then 366 else 365
  }

  /** The date `rem` days after 1 January of year `y`. */
  function DateFromYear(y: int, rem: nat): (d: Date)
    requires y >= 1
    ensures d.year >= 1 && 1 <= d.month <= 12 && d.day >= 1
    decreases rem
  {
    if rem < DaysInYear(y) then DateFromMonth(y, 1, rem)
    else DateFromYear(y + 1, rem - DaysInYear(y))
  }

  /** The date `rem` days after the first of month `m` of year `y`. */
  function DateFromMonth(y: int, m: int, rem: nat): (d: Date)
    requires y >= 1 && 1 <= m <= 12
    ensures d.year == y && 1 <= d.month <= 12 && d.day >= 1
    decreases 12 - m
  {
    if m == 12 || rem < DaysInMonth(y, m) then Date(y, m, rem + 1)
    else DateFromMonth(y, m + 1, rem - DaysInMonth(y, m))
  }

  /** Days from 0001-01-01 to 1970-01-01. */
  const EpochOrdinal: nat := 719162

  /** The UTC calendar date of an instant no earlier than 0001-01-01 (the proleptic Gregorian
      calendar, as Python's `datetime` uses). */
  function CivilDate(t: Instant): (d: Date)
    requires t >= -(EpochOrdinal * SecondsPerDay)
    ensures d.year >= 1 && 1 <= d.month <= 12 && d.day >= 1
  {
    DateFromYear(1, t / SecondsPerDay + EpochOrdinal)
  }

  /** `strftime('%Y-%m-%d')`. */
  function FormatYmd(t: Instant): (s: string)
    requires t >= -(EpochOrdinal * SecondsPerDay)
    ensures |s| == 10 && '/' !in s && '.' !in s
  {
    var d := CivilDate(t);
    var s := Padded(d.year, 4) + "-" + Padded(d.month, 2) + "-" + Padded(d.day, 2);
    assert forall k :: 0 <= k < 10 ==> IsDigit(s[k]) || s[k] == '-';
    s
  }

  /** `strftime('%H%M')`. */
  function FormatHm(t: Instant): (s: string)
    ensures |s| == 4 && AllDigits(s)
  {
    var secs := t % SecondsPerDay;
    Padded(secs / 3600, 2) + Padded(secs % 3600 / 60, 2)
  }
}
