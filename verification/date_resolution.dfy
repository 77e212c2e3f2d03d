/** The capture-date fallback chains. Embedded EXIF data and the file's
    modification time come from libraries and the filesystem, so they are
    inputs here: `exif` is the parsed `DateTime` tag, or None when PIL/piexif
    found none or raised; `mtime` is the decomposed `os.path.getmtime`, or None
    when that call raised (the one failure the resolvers do not swallow). */
module DateResolution {
  import opened Results
  import opened DateTimes
  import opened FilenameDates
  import opened Text

  /** The reference shape of every chain: the first source in the list that
      yields a date, and none when no source does. */
  function FirstPresent(sources: seq<Option<Date>>): (r: Option<Date>)
    ensures r.None? <==> forall i :: 0 <= i < |sources| ==> sources[i].None?
    ensures r.Some? ==>
      exists i :: (0 <= i < |sources| && sources[i] == r && forall j :: 0 <= j < i ==> sources[j].None?)
  {
    if |sources| == 0 then None
    else if sources[0].Some? then sources[0]
    else
      var r := FirstPresent(sources[1..]);
      assert forall i :: 1 <= i < |sources| ==> sources[i] == sources[1..][i - 1];
      if r.Some? then
        var i :| 0 <= i < |sources[1..]| && sources[1..][i] == r &&
          (forall j :: 0 <= j < i ==> sources[1..][j].None?);
        assert sources[i + 1] == r;
        r
      else r
  }

  /** The reference on a chain of three sources. */
  lemma FirstOfThree(a: Option<Date>, b: Option<Date>, c: Option<Date>)
    ensures FirstPresent([a, b, c]) == if a.Some? then a else if b.Some? then b else c
  {
    assert [a, b, c][1..] == [b, c];
    assert [b, c][1..] == [c];
    assert [c][1..] == [];
    assert FirstPresent([c]) == c;
    assert FirstPresent([b, c]) == if b.Some? then b else c;
  }

  /** The class-based variants: EXIF first, then the leftmost filename match
      if it is a real calendar date, then the modification time. */
  function ResolveExifFirst(name: string, exif: Option<Date>, mtime: Option<Date>): (r: Option<Date>)
    ensures r == FirstPresent([exif, FilenameDate(name), mtime])
  {
    FirstOfThree(exif, FilenameDate(name), mtime);
    if exif.Some? then exif
    else if FilenameDate(name).Some? then FilenameDate(name)
    else mtime
  }

  /** The script variant: the range-checked filename date first, then EXIF,
      then the modification time. */
  function ResolveNameFirst(name: string, exif: Option<Date>, mtime: Option<Date>): (r: Option<Date>)
    ensures r == FirstPresent([FilenameDate(name), exif, mtime])
  {
    FirstOfThree(FilenameDate(name), exif, mtime);
    RangeCheckRedundant(name);
    var fromName := RangeCheckedFilenameDate(name);
    if fromName.Some? then fromName
    else if exif.Some? then exif
    else mtime
  }

  /** Which chain a variant uses. */
  datatype ChainOrder = ExifFirst | NameFirst

  function Resolve(order: ChainOrder, name: string, exif: Option<Date>, mtime: Option<Date>): (r: Option<Date>)
    ensures mtime.Some? ==> r.Some?
    ensures r.None? <==> exif.None? && FilenameDate(name).None? && mtime.None?
    ensures r.Some? ==> r == exif || r == FilenameDate(name) || r == mtime
  {
    match order
    case ExifFirst => ResolveExifFirst(name, exif, mtime)
    case NameFirst => ResolveNameFirst(name, exif, mtime)
  }

  /** Without EXIF data the two chains agree on every name. */
  lemma ChainsAgreeWithoutExif(name: string, mtime: Option<Date>)
    ensures ResolveExifFirst(name, None, mtime) == ResolveNameFirst(name, None, mtime)
  {
  }

  /** With both an EXIF date and a different filename date, the chains part
      ways: the class variants take the EXIF date, the script the name's. */
  lemma ChainsDisagree(name: string, exif: Date, mtime: Option<Date>)
    requires FilenameDate(name).Some? && FilenameDate(name).value != exif
    ensures ResolveExifFirst(name, Some(exif), mtime) == Some(exif)
    ensures ResolveNameFirst(name, Some(exif), mtime) == FilenameDate(name)
    ensures ResolveExifFirst(name, Some(exif), mtime) != ResolveNameFirst(name, Some(exif), mtime)
  {
  }

  /** A name with two date-like runs: the first reads as month 13, the
      second is a real date. */
  const MixedName: string := "20231301_000000_20230512_143000.jpg"

  /** Two digits at `i`, and the number they spell. */
  lemma TwoDigitsAt(s: string, i: nat)
    requires i + 2 <= |s| && IsDigit(s[i]) && IsDigit(s[i + 1])
    ensures DigitsAt(s, i, 2)
    ensures ValueOf(s[i..i + 2]) == 10 * DigitValue(s[i]) + DigitValue(s[i + 1])
  {
    var t := s[i..i + 2];
    assert t[0] == s[i] && t[1] == s[i + 1];
    forall k | 0 <= k < 2 ensures IsDigit(t[k]) {
      if k == 0 { assert t[k] == s[i]; } else { assert t[k] == s[i + 1]; }
    }
    assert t[..1][0] == t[0];
    assert ValueOf(t[..1]) == DigitValue(t[0]) by {
      assert t[..1][..0] == [];
    }
  }

  /** Four digits at `i`, and the number they spell. */
  lemma FourDigitsAt(s: string, i: nat)
    requires i + 4 <= |s|
    requires IsDigit(s[i]) && IsDigit(s[i + 1]) && IsDigit(s[i + 2]) && IsDigit(s[i + 3])
    ensures DigitsAt(s, i, 4)
    ensures ValueOf(s[i..i + 4]) ==
      1000 * DigitValue(s[i]) + 100 * DigitValue(s[i + 1]) + 10 * DigitValue(s[i + 2]) + DigitValue(s[i + 3])
  {
    var t := s[i..i + 4];
    assert t[0] == s[i] && t[1] == s[i + 1] && t[2] == s[i + 2] && t[3] == s[i + 3];
    forall k | 0 <= k < 4 ensures IsDigit(t[k]) {
      if k == 0 { assert t[k] == s[i]; }
      else if k == 1 { assert t[k] == s[i + 1]; }
      else if k == 2 { assert t[k] == s[i + 2]; }
      else { assert t[k] == s[i + 3]; }
    }
    var t1, t2, t3 := t[..1], t[..2], t[..3];
    assert t1[0] == t[0] && t2[1] == t[1] && t3[2] == t[2];
    assert t1[..0] == [] && t2[..1] == t1 && t3[..2] == t2 && t[..3] == t3;
    assert ValueOf(t1) == DigitValue(t[0]);
    assert ValueOf(t2) == 10 * DigitValue(t[0]) + DigitValue(t[1]);
    assert ValueOf(t3) == 100 * DigitValue(t[0]) + 10 * DigitValue(t[1]) + DigitValue(t[2]);
  }

  /** Reads a `yyyymmdd_HHMMSS` run at `i` character by character: the date
      pattern matches there with only the day/hour separator consumed. */
  lemma StampRunMatches(s: string, i: nat)
    requires i + 15 <= |s| && s[i + 8] == '_'
    requires forall j :: i <= j < i + 15 && j != i + 8 ==> IsDigit(s[j])
    ensures LayoutMatches(s, i, StampLayout)
    ensures GroupValues(s, i, StampLayout) == Fields(
      1000 * DigitValue(s[i]) + 100 * DigitValue(s[i + 1]) + 10 * DigitValue(s[i + 2]) + DigitValue(s[i + 3]),
      10 * DigitValue(s[i + 4]) + DigitValue(s[i + 5]),
      10 * DigitValue(s[i + 6]) + DigitValue(s[i + 7]),
      10 * DigitValue(s[i + 9]) + DigitValue(s[i + 10]),
      10 * DigitValue(s[i + 11]) + DigitValue(s[i + 12]),
      10 * DigitValue(s[i + 13]) + DigitValue(s[i + 14]))
  {
    assert IsDigit(s[i]) && IsDigit(s[i + 1]) && IsDigit(s[i + 2]) && IsDigit(s[i + 3]);
    assert IsDigit(s[i + 4]) && IsDigit(s[i + 5]) && IsDigit(s[i + 6]) && IsDigit(s[i + 7]);
    assert IsDigit(s[i + 9]) && IsDigit(s[i + 10]) && IsDigit(s[i + 11]) && IsDigit(s[i + 12]);
    assert IsDigit(s[i + 13]) && IsDigit(s[i + 14]);
    FourDigitsAt(s, i);
    TwoDigitsAt(s, i + 4);
    TwoDigitsAt(s, i + 6);
    TwoDigitsAt(s, i + 9);
    TwoDigitsAt(s, i + 11);
    TwoDigitsAt(s, i + 13);
    assert Starts(i, StampLayout) == [i, i + 4, i + 6, i + 9, i + 11, i + 13];
  }

  lemma MixedNameFirstRun()
    ensures LayoutMatches(MixedName, 0, StampLayout)
    ensures GroupValues(MixedName, 0, StampLayout).month == 13
  {
    var name := MixedName;
    assert forall j :: 0 <= j < 15 && j != 8 ==> IsDigit(name[j]);
    StampRunMatches(name, 0);
  }

  lemma MixedNameSecondRunFields()
    ensures LayoutMatches(MixedName, 16, StampLayout)
    ensures GroupValues(MixedName, 16, StampLayout) == Fields(2023, 5, 12, 14, 30, 0)
  {
    var name := MixedName;
    assert forall j :: 16 <= j < 31 && j != 24 ==> IsDigit(name[j]);
    StampRunMatches(name, 16);
  }

  lemma MixedNameSecondRun()
    ensures MatchAt(MixedName, 16) == Some(Fields(2023, 5, 12, 14, 30, 0))
  {
    MixedNameSecondRunFields();
  }

  /** The leftmost match of `MixedName` starts at 0 and reads month 13. */
  lemma MixedNameLeftmost()
    ensures LeftmostDate(MixedName) == Some(0)
    ensures MatchAt(MixedName, 0).Some? && MatchAt(MixedName, 0).value.month == 13
  {
    MixedNameFirstRun();
  }

  lemma MixedNameUndated()
    ensures FilenameDate(MixedName) == None
  {
    MixedNameLeftmost();
  }

  /** 12 May 2023, 14:30:00 is a real date. */
  lemma SecondRunValid()
    ensures FieldsValid(Fields(2023, 5, 12, 14, 30, 0))
  {
    assert DaysInMonth(2023, 5) == 31;
  }

  /** Only the leftmost match is consulted: in `MixedName` it reads as month
      13, so the modification time wins although a valid date follows later
      in the same name. */
  lemma LeftmostMatchDecides(mtime: Date)
    ensures MatchAt(MixedName, 16) == Some(Fields(2023, 5, 12, 14, 30, 0))
    ensures FieldsValid(Fields(2023, 5, 12, 14, 30, 0))
    ensures FilenameDate(MixedName) == None
    ensures ResolveExifFirst(MixedName, None, Some(mtime)) == Some(mtime)
  {
    assert MatchAt(MixedName, 16) == Some(Fields(2023, 5, 12, 14, 30, 0)) by { MixedNameSecondRun(); }
    assert FilenameDate(MixedName) == None by { MixedNameUndated(); }
    assert FieldsValid(Fields(2023, 5, 12, 14, 30, 0)) by { SecondRunValid(); }
  }
}
