/** The two regular expressions the pipeline runs over file names:
    the date pattern `(\d{4})[-_]?(\d{2})[-_]?(\d{2})[-_]?(\d{2})[-_]?(\d{2})[-_]?(\d{2})`
    searched for by the date resolvers, and the time-string pattern
    `\d{8}_\d{6}` searched for by the renamer. Both use `re.search`, which
    reports the leftmost match only. */
module FilenameDates {
  import opened Text
  import opened Results
  import opened DateTimes

  /** The six captured groups, each read with `int`. */
  datatype Fields = Fields(year: nat, month: nat, day: nat, hour: nat, minute: nat, second: nat)

  predicate IsSep(c: char) {
    c == '-' || c == '_'
  }

  /** Which of the five optional separators `[-_]?` a match consumes. */
  datatype Layout = Layout(s1: bool, s2: bool, s3: bool, s4: bool, s5: bool)

  function Skip(b: bool): nat {
    if b then 1 else 0
  }

  /** Where the six digit groups start when a match begins at `i`. */
  function Starts(i: nat, l: Layout): (p: seq<nat>)
    ensures |p| == 6 && p[0] == i
  {
    var p1 := i + 4 + Skip(l.s1);
    var p2 := p1 + 2 + Skip(l.s2);
    var p3 := p2 + 2 + Skip(l.s3);
    var p4 := p3 + 2 + Skip(l.s4);
    var p5 := p4 + 2 + Skip(l.s5);
    [i, p1, p2, p3, p4, p5]
  }

  /** A separator the layout consumes at `q` really is there. */
  predicate SepOk(s: string, q: nat, b: bool) {
    b ==> q < |s| && IsSep(s[q])
  }

  /** The date pattern matches at `i` consuming the separators `l` names:
      the declarative reading of the regular expression. */
  predicate LayoutMatches(s: string, i: nat, l: Layout) {
    var p := Starts(i, l);
    && DigitsAt(s, p[0], 4) && SepOk(s, p[0] + 4, l.s1)
    && DigitsAt(s, p[1], 2) && SepOk(s, p[1] + 2, l.s2)
    && DigitsAt(s, p[2], 2) && SepOk(s, p[2] + 2, l.s3)
    && DigitsAt(s, p[3], 2) && SepOk(s, p[3] + 2, l.s4)
    && DigitsAt(s, p[4], 2) && SepOk(s, p[4] + 2, l.s5)
    && DigitsAt(s, p[5], 2)
  }

  ghost predicate PatternAt(s: string, i: nat) {
    exists l :: LayoutMatches(s, i, l)
  }

  predicate SepPresent(s: string, q: nat) {
    q < |s| && IsSep(s[q])
  }

  /** The layout the regex engine tries first: each `[-_]?` consumes a
      separator whenever one is present. */
  function Greedy(s: string, i: nat): Layout {
    var b1 := SepPresent(s, i + 4);
    var p1 := i + 4 + Skip(b1);
    var b2 := SepPresent(s, p1 + 2);
    var p2 := p1 + 2 + Skip(b2);
    var b3 := SepPresent(s, p2 + 2);
    var p3 := p2 + 2 + Skip(b3);
    var b4 := SepPresent(s, p3 + 2);
    var p4 := p3 + 2 + Skip(b4);
    var b5 := SepPresent(s, p4 + 2);
    Layout(b1, b2, b3, b4, b5)
  }

  /** A separator is never a digit, so skipping a present separator can never
      rescue a match: every layout that matches is the greedy one. Hence the
      engine's backtracking order does not matter and the match at `i` is
      unique. */
  lemma MatchIsGreedy(s: string, i: nat, l: Layout)
    requires LayoutMatches(s, i, l)
    ensures l == Greedy(s, i)
  {
    var p := Starts(i, l);
    var g := Greedy(s, i);
    assert IsDigit(s[p[1]]) by { assert s[p[1]..p[1] + 2][0] == s[p[1]]; }
    assert IsDigit(s[p[2]]) by { assert s[p[2]..p[2] + 2][0] == s[p[2]]; }
    assert IsDigit(s[p[3]]) by { assert s[p[3]..p[3] + 2][0] == s[p[3]]; }
    assert IsDigit(s[p[4]]) by { assert s[p[4]..p[4] + 2][0] == s[p[4]]; }
    assert IsDigit(s[p[5]]) by { assert s[p[5]..p[5] + 2][0] == s[p[5]]; }
    assert l.s1 == g.s1;
    assert l.s2 == g.s2;
    assert l.s3 == g.s3;
    assert l.s4 == g.s4;
  }

  /** The integer values of the six groups of a match. */
  function GroupValues(s: string, i: nat, l: Layout): Fields
    requires LayoutMatches(s, i, l)
  {
    var p := Starts(i, l);
    Fields(ValueOf(s[p[0]..p[0] + 4]), ValueOf(s[p[1]..p[1] + 2]), ValueOf(s[p[2]..p[2] + 2]),
           ValueOf(s[p[3]..p[3] + 2]), ValueOf(s[p[4]..p[4] + 2]), ValueOf(s[p[5]..p[5] + 2]))
  }

  /** `re.match` of the date pattern at position `i`. */
  function MatchAt(s: string, i: nat): (r: Option<Fields>)
    ensures r.Some? <==> PatternAt(s, i)
    ensures forall l :: LayoutMatches(s, i, l) ==> r == Some(GroupValues(s, i, l))
  {
    var g := Greedy(s, i);
    assert forall l :: LayoutMatches(s, i, l) ==> l == g by {
      forall l | LayoutMatches(s, i, l) ensures l == g { MatchIsGreedy(s, i, l); }
    }
    if LayoutMatches(s, i, g) then Some(GroupValues(s, i, g)) else None
  }

  /** Scan for the first position at or after `i` where the pattern matches. */
  function SearchFrom(s: string, i: nat): (r: Option<nat>)
    ensures r.Some? ==> i <= r.value && PatternAt(s, r.value)
    ensures r.Some? ==> forall j :: i <= j < r.value ==> !PatternAt(s, j)
    ensures r.None? ==> forall j :: i <= j ==> !PatternAt(s, j)
    decreases |s| - i
  {
    if |s| < i + 4 then None
    else if MatchAt(s, i).Some? then Some(i)
    else SearchFrom(s, i + 1)
  }

  /** `re.search(date_pattern, name)`: the position of the leftmost match. */
  function LeftmostDate(name: string): (r: Option<nat>)
    ensures r.Some? ==> PatternAt(name, r.value) && forall j :: 0 <= j < r.value ==> !PatternAt(name, j)
    ensures r.None? ==> forall j :: 0 <= j ==> !PatternAt(name, j)
  {
    SearchFrom(name, 0)
  }

  function FieldsValid(f: Fields): bool {
    ValidFields(f.year, f.month, f.day, f.hour, f.minute, f.second)
  }

  function ToDate(f: Fields): Date
    requires FieldsValid(f)
  {
    DateTime(f.year, f.month, f.day, f.hour, f.minute, f.second, 0)
  }

  /** The date the class-based resolvers read from a name:
      `datetime(*map(int, match.groups()))` on the leftmost match, with a
      `ValueError` (an impossible calendar date) giving nothing. A later,
      valid match is never consulted. */
  function FilenameDate(name: string): (r: Option<Date>)
    ensures r.Some? <==> LeftmostDate(name).Some? && FieldsValid(MatchAt(name, LeftmostDate(name).value).value)
    ensures r.Some? ==> r.value == ToDate(MatchAt(name, LeftmostDate(name).value).value)
  {
    match LeftmostDate(name)
    case None => None
    case Some(i) =>
      var f := MatchAt(name, i).value;
      if FieldsValid(f) then Some(ToDate(f)) else None
  }

  /** Read declaratively: when the pattern first matches at `i` with layout
      `l`, a date comes out exactly when that match's six groups form a valid
      calendar date, and it is that date. */
  lemma FilenameDateAtFirstMatch(name: string, i: nat, l: Layout)
    requires LayoutMatches(name, i, l)
    requires forall j :: 0 <= j < i ==> !PatternAt(name, j)
    ensures FilenameDate(name).Some? <==> FieldsValid(GroupValues(name, i, l))
    ensures FilenameDate(name).Some? ==> FilenameDate(name).value == ToDate(GroupValues(name, i, l))
  {
    assert PatternAt(name, i);
    assert LeftmostDate(name) == Some(i);
  }

  /** A name on which the pattern matches nowhere gives no date. */
  lemma NoMatchNoDate(name: string)
    requires forall i: nat :: !PatternAt(name, i)
    ensures FilenameDate(name).None?
  {
  }

  /** The script variant's reading: month and day are first range-checked
      (1-12, 1-31) and only then handed to `datetime`, whose `ValueError` is
      also caught. */
  function RangeCheckedFilenameDate(name: string): Option<Date> {
    match LeftmostDate(name)
    case None => None
    case Some(i) =>
      var f := MatchAt(name, i).value;
      if 1 <= f.month <= 12 && 1 <= f.day <= 31 then
        if FieldsValid(f) then Some(ToDate(f)) else None
      else None
  }

  /** The extra range check changes nothing: every date it rejects `datetime`
      rejects too, and a date it lets through (30 February, hour 24) is still
      rejected by `datetime`. */
  lemma RangeCheckRedundant(name: string)
    ensures RangeCheckedFilenameDate(name) == FilenameDate(name)
  {
  }

  // ---------------------------------------------------------------- stamps

  /** `\d{8}_\d{6}` matches at `i`. */
  predicate StampAt(s: string, i: nat) {
    i + 15 <= |s| && StampShape(s[i..i + 15])
  }

  function StampFrom(s: string, i: nat): (r: Option<nat>)
    ensures r.Some? ==> i <= r.value && StampAt(s, r.value)
    ensures r.Some? ==> forall j :: i <= j < r.value ==> !StampAt(s, j)
    ensures r.None? ==> forall j :: i <= j ==> !StampAt(s, j)
    decreases |s| - i
  {
    if |s| < i + 15 then None
    else if StampShape(s[i..i + 15]) then Some(i)
    else StampFrom(s, i + 1)
  }

  /** `_get_time_string` and its inline copies: the leftmost `\d{8}_\d{6}` in
      the name if there is one, otherwise the date rendered the same way. The
      result always has the time-string shape. */
  function TimeString(name: string, date: Date): (r: string)
    ensures StampShape(r)
    ensures StampFrom(name, 0).Some? ==>
      var i := StampFrom(name, 0).value; r == name[i..i + 15] && forall j :: 0 <= j < i ==> !StampAt(name, j)
    ensures StampFrom(name, 0).None? ==> r == Format(date) && forall j :: 0 <= j ==> !StampAt(name, j)
  {
    match StampFrom(name, 0)
    case Some(i) => name[i..i + 15]
    case None => FormatRoundTrip(date); Format(date)
  }

  // ---------------------------------------------------------------- lemmas

  /** The layout a `yyyymmdd_HHMMSS` time string matches with: only the `_`
      between day and hour is present. */
  const StampLayout: Layout := Layout(false, false, true, false, false)

  lemma DigitsWithin(s: string, a: nat, b: nat, c: nat, d: nat)
    requires a <= c <= d <= b <= |s| && AllDigits(s[a..b])
    ensures AllDigits(s[c..d])
  {
    forall k | 0 <= k < d - c ensures IsDigit(s[c..d][k]) {
      assert s[c..d][k] == s[a..b][c - a + k];
    }
  }

  /** The six fields a time string spells. */
  function StampFields(f: string): Fields
    requires StampShape(f)
  {
    DigitsWithin(f, 0, 8, 0, 4);
    DigitsWithin(f, 0, 8, 4, 6);
    DigitsWithin(f, 0, 8, 6, 8);
    DigitsWithin(f, 9, 15, 9, 11);
    DigitsWithin(f, 9, 15, 11, 13);
    DigitsWithin(f, 9, 15, 13, 15);
    Fields(ValueOf(f[0..4]), ValueOf(f[4..6]), ValueOf(f[6..8]),
      ValueOf(f[9..11]), ValueOf(f[11..13]), ValueOf(f[13..15]))
  }

  /** A string that begins with a time string matches the date pattern at 0,
      each group reading the corresponding field. */
  lemma StampPrefixMatches(f: string, rest: string)
    requires StampShape(f)
    ensures LayoutMatches(f + rest, 0, StampLayout)
    ensures GroupValues(f + rest, 0, StampLayout) == StampFields(f)
  {
    var s := f + rest;
    assert s[0..8] == f[0..8] && s[9..15] == f[9..15] && s[8] == f[8];
    assert s[0..4] == f[0..4] && s[4..6] == f[4..6] && s[6..8] == f[6..8];
    assert s[9..11] == f[9..11] && s[11..13] == f[11..13] && s[13..15] == f[13..15];
    assert Starts(0, StampLayout) == [0, 4, 6, 9, 11, 13];
  }

  /** A name that begins with a time string spelling a real date is dated by
      that string. */
  lemma StampNameParses(f: string, rest: string)
    requires StampShape(f) && FieldsValid(StampFields(f))
    ensures FilenameDate(f + rest) == Some(ToDate(StampFields(f)))
  {
    StampPrefixMatches(f, rest);
    assert LeftmostDate(f + rest) == Some(0);
  }

  /** A name that begins with a formatted time string reads back, through the
      date pattern, as the date it was formatted from (to the second). */
  lemma FormattedNameParses(t: Date, rest: string)
    ensures FilenameDate(Format(t) + rest) == Some(DateTime(t.year, t.month, t.day, t.hour, t.minute, t.second, 0))
  {
    FormatRoundTrip(t);
    assert StampFields(Format(t)) == Fields(t.year, t.month, t.day, t.hour, t.minute, t.second);
    StampNameParses(Format(t), rest);
  }
}
