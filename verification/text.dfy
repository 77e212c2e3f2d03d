/** Character and string helpers shared by every component: ASCII digits, the
    decimal rendering of `str(n)` and `"%04d" % n` with its inverse `int(s)`,
    ASCII lower-casing, suffix tests and the base-name split done by
    `os.path.splitext`. */
module Text {

  // ---------------------------------------------------------------- digits

  predicate IsDigit(c: char) {
    '0' <= c <= '9'
  }

  predicate AllDigits(s: string) {
    forall i :: 0 <= i < |s| ==> IsDigit(s[i])
  }

  /** True when `s[i..i + n]` exists and consists of ASCII digits only. */
  predicate DigitsAt(s: string, i: nat, n: nat) {
    i + n <= |s| && AllDigits(s[i..i + n])
  }

  function DigitValue(c: char): nat
    requires IsDigit(c)
  {
    (c as int - '0' as int) as nat
  }

  function DigitChar(d: nat): (c: char)
    requires d < 10
    ensures IsDigit(c) && DigitValue(c) == d
  {
    ('0' as int + d) as char
  }

  /** The value of a string of decimal digits, as Python's `int(s)` reads it
      (leading zeros allowed, the empty string reads as 0). */
  function ValueOf(s: string): nat
    requires AllDigits(s)
  {
    if |s| == 0 then 0 else ValueOf(s[..|s| - 1]) * 10 + DigitValue(s[|s| - 1])
  }

  /** `str(n)` for a natural number: the shortest decimal rendering. */
  function Decimal(n: nat): (s: string)
    ensures 1 <= |s| && AllDigits(s)
    ensures n < 10 <==> |s| == 1
  {
    if n < 10 then [DigitChar(n)] else Decimal(n / 10) + [DigitChar(n % 10)]
  }

  lemma {:induction false} DecimalRoundTrip(n: nat)
    ensures ValueOf(Decimal(n)) == n
  {
    if n >= 10 {
      var s := Decimal(n / 10);
      var t := s + [DigitChar(n % 10)];
      assert t[..|t| - 1] == s;
      DecimalRoundTrip(n / 10);
    }
  }

  /** Distinct numbers have distinct renderings: the counter suffixes and
      sequence numbers built from them never coincide. */
  lemma DecimalInjective(a: nat, b: nat)
    requires Decimal(a) == Decimal(b)
    ensures a == b
  {
    DecimalRoundTrip(a);
    DecimalRoundTrip(b);
  }

  function Zeros(k: nat): (s: string)
    ensures |s| == k && AllDigits(s)
  {
    if k == 0 then [] else Zeros(k - 1) + ['0']
  }

  /** `n` rendered in decimal and left-padded with zeros to `width`
      characters; a wider number is rendered in full (`"%0*d" % (width, n)`). */
  function PadTo(n: nat, width: nat): (s: string)
    ensures AllDigits(s)
    ensures |s| == if |Decimal(n)| < width then width else |Decimal(n)|
  {
    var d := Decimal(n);
    if |d| < width then Zeros(width - |d|) + d else d
  }

  /** `"%04d" % n`, the sequence-number field of a renamed file. */
  function ZeroPad4(n: nat): string {
    PadTo(n, 4)
  }

  lemma {:induction false} ZerosValue(k: nat)
    ensures ValueOf(Zeros(k)) == 0
  {
    if k > 0 {
      assert Zeros(k)[..k - 1] == Zeros(k - 1);
      ZerosValue(k - 1);
    }
  }

  lemma {:induction false} LeadingZerosValue(k: nat, s: string)
    requires AllDigits(s)
    ensures AllDigits(Zeros(k) + s) && ValueOf(Zeros(k) + s) == ValueOf(s)
  {
    var t := Zeros(k) + s;
    assert AllDigits(t) by {
      forall i | 0 <= i < |t| ensures IsDigit(t[i]) {
        if i < k { assert t[i] == Zeros(k)[i]; } else { assert t[i] == s[i - k]; }
      }
    }
    if |s| == 0 {
      assert t == Zeros(k);
      ZerosValue(k);
    } else {
      var s' := s[..|s| - 1];
      assert t[..|t| - 1] == Zeros(k) + s';
      LeadingZerosValue(k, s');
    }
  }

  lemma PaddedRoundTrip(n: nat, width: nat)
    requires |Decimal(n)| < width
    ensures AllDigits(Zeros(width - |Decimal(n)|) + Decimal(n))
    ensures ValueOf(Zeros(width - |Decimal(n)|) + Decimal(n)) == n
  {
    DecimalRoundTrip(n);
    LeadingZerosValue(width - |Decimal(n)|, Decimal(n));
  }

  /** Reading a zero-padded field back gives the number that was written. */
  lemma PadToRoundTrip(n: nat, width: nat)
    ensures ValueOf(PadTo(n, width)) == n
  {
    if |Decimal(n)| < width {
      PaddedRoundTrip(n, width);
    } else {
      DecimalRoundTrip(n);
    }
  }

  /** An in-range number fills its field exactly. */
  lemma PadToWidth(n: nat, width: nat)
    requires width == 2 || width == 4
    requires width == 2 ==> n <= 99
    requires width == 4 ==> n <= 9999
    ensures |PadTo(n, width)| == width
  {
    DecimalWidthBound(n);
  }

  lemma {:induction false} DecimalWidthBound(n: nat)
    ensures n <= 9999 ==> |Decimal(n)| <= 4
    ensures n <= 999 ==> |Decimal(n)| <= 3
    ensures n <= 99 ==> |Decimal(n)| <= 2
  {
    if n >= 10 {
      DecimalWidthBound(n / 10);
    }
  }

  // ---------------------------------------------------------------- case

  /** Lower-casing of one character as far as the five image suffixes are
      concerned: only `A`..`Z` map onto the ASCII letters those suffixes use. */
  function LowerAscii(c: char): (l: char)
    ensures 'A' <= c <= 'Z' ==> l as int == c as int + 32
    ensures !('A' <= c <= 'Z') ==> l == c
  {
    if 'A' <= c <= 'Z' then (c as int + 32) as char else c
  }

  function Lower(s: string): (l: string)
    ensures |l| == |s|
    ensures forall i :: 0 <= i < |s| ==> l[i] == LowerAscii(s[i])
  {
    if |s| == 0 then [] else Lower(s[..|s| - 1]) + [LowerAscii(s[|s| - 1])]
  }

  predicate EndsWith(s: string, suffix: string) {
    |suffix| <= |s| && s[|s| - |suffix|..] == suffix
  }

  // ---------------------------------------------------------------- name lists

  /** The names a list holds. */
  function Elems(s: seq<string>): set<string> {
    set x | x in s
  }

  /** No name occurs twice in the list. */
  predicate Distinct(s: seq<string>) {
    forall i, j :: 0 <= i < j < |s| ==> s[i] != s[j]
  }

  lemma ElemsSnoc(s: seq<string>, x: string)
    ensures Elems(s + [x]) == Elems(s) + {x}
  {
  }

  // ---------------------------------------------------------------- splitext

  predicate NoDot(s: string) {
    forall i :: 0 <= i < |s| ==> s[i] != '.'
  }

  predicate OnlyDots(s: string) {
    forall i :: 0 <= i < |s| ==> s[i] == '.'
  }

  /** Index of the last `c` in `s`, or -1 when `c` does not occur. */
  function LastIndexOf(s: string, c: char): (r: int)
    ensures -1 <= r < |s|
    ensures r >= 0 ==> s[r] == c
    ensures forall j :: r < j < |s| ==> s[j] != c
  {
    if |s| == 0 then -1
    else if s[|s| - 1] == c then |s| - 1
    else LastIndexOf(s[..|s| - 1], c)
  }

  /** `os.path.splitext` on a base name (no directory separators): the
      extension runs from the last dot to the end, unless everything before
      that dot is dots too (`.jpg`, `..png`), in which case there is none. */
  function SplitExt(name: string): (r: (string, string))
    ensures r.0 + r.1 == name
    ensures r.1 != [] ==> r.1[0] == '.' && NoDot(r.1[1..]) && !OnlyDots(r.0)
    ensures r.1 == [] ==> forall i :: 0 <= i < |name| && name[i] == '.' ==> OnlyDots(name[..i])
  {
    var d := LastIndexOf(name, '.');
    if d < 0 || OnlyDots(name[..d]) then
      (name, [])
    else
      assert name[..d] + name[d..] == name;
      (name[..d], name[d..])
  }

  function Stem(name: string): string {
    SplitExt(name).0
  }

  function Ext(name: string): string {
    SplitExt(name).1
  }

  /** The last dot of `a + b`, when `a` has none and `b` is a dot followed by
      dot-free text, is where `b` starts. */
  lemma LastDotOfJoin(a: string, b: string)
    requires NoDot(a) && 1 <= |b| && b[0] == '.' && NoDot(b[1..])
    ensures LastIndexOf(a + b, '.') == |a|
  {
    var s := a + b;
    assert s[|a|] == '.';
    forall j | |a| < j < |s| ensures s[j] != '.' {
      assert s[j] == b[1..][j - |a| - 1];
    }
  }
}
