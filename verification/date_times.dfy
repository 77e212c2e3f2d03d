/** Calendar date-times as Python's `datetime` holds them, their ordering and
    the `%Y%m%d_%H%M%S` rendering used in renamed files. */
module DateTimes {
  import opened Text

  datatype DateTime = DateTime(year: int, month: int, day: int,
                               hour: int, minute: int, second: int, microsecond: int)

  predicate IsLeapYear(y: int) {
    y % 4 == 0 && (y % 100 != 0 || y % 400 == 0)
  }

  function DaysInMonth(y: int, m: int): int
    requires 1 <= m <= 12
  {
    if m == 2 then (if IsLeapYear(y) then 29 else 28)
    else if m == 4 || m == 6 || m == 9 || m == 11 then 30
    else 31
  }

  /** What `datetime(year, month, day, hour, minute, second)` accepts without
      raising `ValueError` (years 1 through 9999, the proleptic Gregorian
      calendar). */
  predicate ValidFields(year: int, month: int, day: int, hour: int, minute: int, second: int) {
    && 1 <= year <= 9999
    && 1 <= month <= 12
    && 1 <= day <= DaysInMonth(year, month)
    && 0 <= hour <= 23
    && 0 <= minute <= 59
    && 0 <= second <= 59
  }

  predicate Valid(t: DateTime) {
    ValidFields(t.year, t.month, t.day, t.hour, t.minute, t.second)
    && 0 <= t.microsecond <= 999999
  }

  /** A value a `datetime` object can hold. */
  type Date = t: DateTime | Valid(t) witness DateTime(1, 1, 1, 0, 0, 0, 0)

  /** Python's `a < b` on naive datetimes: field by field, most significant first. */
  predicate Before(a: DateTime, b: DateTime) {
    if a.year != b.year then a.year < b.year
    else if a.month != b.month then a.month < b.month
    else if a.day != b.day then a.day < b.day
    else if a.hour != b.hour then a.hour < b.hour
    else if a.minute != b.minute then a.minute < b.minute
    else if a.second != b.second then a.second < b.second
    else a.microsecond < b.microsecond
  }

  /** `Before` is a strict total order, which is what a sort by date needs. */
  lemma BeforeStrictTotal(a: DateTime, b: DateTime, c: DateTime)
    ensures !Before(a, a)
    ensures Before(a, b) && Before(b, c) ==> Before(a, c)
    ensures a != b ==> Before(a, b) || Before(b, a)
    ensures Before(a, b) ==> !Before(b, a)
  {
  }

  /** `t.strftime("%Y%m%d_%H%M%S")`. */
  function Format(t: Date): string {
    PadTo(t.year, 4) + PadTo(t.month, 2) + PadTo(t.day, 2) + "_"
    + PadTo(t.hour, 2) + PadTo(t.minute, 2) + PadTo(t.second, 2)
  }

  /** The shape `\d{8}_\d{6}` of a time string, exactly fifteen characters. */
  predicate StampShape(s: string) {
    |s| == 15 && DigitsAt(s, 0, 8) && s[8] == '_' && DigitsAt(s, 9, 6)
  }

  /** Each field of a formatted date sits at its fixed place. */
  lemma FormatFields(t: Date)
    ensures |Format(t)| == 15 && Format(t)[8] == '_'
    ensures Format(t)[0..4] == PadTo(t.year, 4)
    ensures Format(t)[4..6] == PadTo(t.month, 2) && Format(t)[6..8] == PadTo(t.day, 2)
    ensures Format(t)[9..11] == PadTo(t.hour, 2) && Format(t)[11..13] == PadTo(t.minute, 2)
    ensures Format(t)[13..15] == PadTo(t.second, 2)
  {
    var y, mo, d := PadTo(t.year, 4), PadTo(t.month, 2), PadTo(t.day, 2);
    var h, mi, se := PadTo(t.hour, 2), PadTo(t.minute, 2), PadTo(t.second, 2);
    PadToWidth(t.year, 4);
    PadToWidth(t.month, 2);
    PadToWidth(t.day, 2);
    PadToWidth(t.hour, 2);
    PadToWidth(t.minute, 2);
    PadToWidth(t.second, 2);
    var s := Format(t);
    assert s == y + mo + d + "_" + h + mi + se;
    assert s[0..4] == y && s[4..6] == mo && s[6..8] == d;
    assert s[9..11] == h && s[11..13] == mi && s[13..15] == se;
  }

  /** Digits in two adjacent pieces make a run of digits. */
  lemma DigitsJoin(s: string, a: nat, b: nat, c: nat)
    requires a <= b <= c <= |s| && AllDigits(s[a..b]) && AllDigits(s[b..c])
    ensures AllDigits(s[a..c])
  {
    forall k | 0 <= k < c - a ensures IsDigit(s[a..c][k]) {
      if a + k < b {
        assert s[a..c][k] == s[a..b][k];
      } else {
        assert s[a..c][k] == s[b..c][a + k - b];
      }
    }
  }

  /** A formatted date has the time-string shape, and its fields read back as
      the date's year, month, day, hour, minute and second. */
  lemma FormatRoundTrip(t: Date)
    ensures StampShape(Format(t))
    ensures AllDigits(Format(t)[0..4]) && ValueOf(Format(t)[0..4]) == t.year
    ensures AllDigits(Format(t)[4..6]) && ValueOf(Format(t)[4..6]) == t.month
    ensures AllDigits(Format(t)[6..8]) && ValueOf(Format(t)[6..8]) == t.day
    ensures AllDigits(Format(t)[9..11]) && ValueOf(Format(t)[9..11]) == t.hour
    ensures AllDigits(Format(t)[11..13]) && ValueOf(Format(t)[11..13]) == t.minute
    ensures AllDigits(Format(t)[13..15]) && ValueOf(Format(t)[13..15]) == t.second
  {
    var s := Format(t);
    FormatFields(t);
    DigitsJoin(s, 0, 4, 6);
    DigitsJoin(s, 0, 6, 8);
    DigitsJoin(s, 9, 11, 13);
    DigitsJoin(s, 9, 13, 15);
    PadToRoundTrip(t.year, 4);
    PadToRoundTrip(t.month, 2);
    PadToRoundTrip(t.day, 2);
    PadToRoundTrip(t.hour, 2);
    PadToRoundTrip(t.minute, 2);
    PadToRoundTrip(t.second, 2);
  }
}
