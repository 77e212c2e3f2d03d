/** Renaming of the collected files: each is dated, the list is sorted by date
    (Python's `list.sort` is stable), and the k-th file, counting from 1,
    becomes `"%04d" % k + "_" + time string + original extension`. The
    renames are then applied one by one to the target directory. */
module RenamePlanner {
  import opened Results
  import opened Text
  import opened DateTimes
  import opened FilenameDates
  import opened DateResolution

  /** A collected file as the renamer sees it: its name in the target
      directory and the outcome of dating it (None when the date lookup
      raised). */
  datatype Entry = Entry(name: string, date: Option<Date>)

  /** A dated file; `pos` is its index in the collected list. */
  datatype Dated = Dated(pos: nat, name: string, date: Date)

  /** What a variant does when dating a file raises: leave the file out of
      the plan, or end the run. */
  datatype DateErrorPolicy = DropFile | AbortOnDate

  /** What a variant does when `os.rename` raises. */
  datatype RenameErrorPolicy = ContinueOnRename | AbortOnRename

  // ---------------------------------------------------------------- dating

  /** The first `n` files of `image_dates`, in collected order with their
      dates. A file whose dating raised is dropped or ends the run, by
      policy. */
  function DateUpTo(onError: DateErrorPolicy, entries: seq<Entry>, n: nat): Result<seq<Dated>, string>
    requires n <= |entries|
  {
    if n == 0 then Ok([])
    else
      match DateUpTo(onError, entries, n - 1)
      case Err(e) => Err(e)
      case Ok(ds) =>
        match entries[n - 1].date
        case Some(d) => Ok(ds + [Dated(n - 1, entries[n - 1].name, d)])
        case None => if onError == DropFile then Ok(ds) else Err(entries[n - 1].name)
  }

  /** Dating ends the run exactly when the policy says so and some file has
      no date. */
  lemma {:induction false} DateUpToErr(onError: DateErrorPolicy, entries: seq<Entry>, n: nat)
    requires n <= |entries|
    ensures DateUpTo(onError, entries, n).Err? <==>
      onError == AbortOnDate && exists i :: 0 <= i < n && entries[i].date.None?
  {
    if n > 0 {
      DateUpToErr(onError, entries, n - 1);
      if onError == AbortOnDate && entries[n - 1].date.None? {
        assert 0 <= n - 1 < n && entries[n - 1].date.None?;
      }
      if onError == AbortOnDate && exists i :: 0 <= i < n && entries[i].date.None? {
        var i :| 0 <= i < n && entries[i].date.None?;
        if i < n - 1 {
          assert DateUpTo(onError, entries, n - 1).Err?;
        }
      }
    }
  }

  /** Every dated file carries its position, name and date, and positions
      increase. */
  predicate SoundFor(entries: seq<Entry>, n: nat, ds: seq<Dated>) {
    && (forall k :: 0 <= k < |ds| ==>
         ds[k].pos < n && ds[k].pos < |entries| && ds[k].name == entries[ds[k].pos].name
         && entries[ds[k].pos].date == Some(ds[k].date))
    && (forall k, m :: 0 <= k < m < |ds| ==> ds[k].pos < ds[m].pos)
  }

  lemma {:induction false} DateUpToSound(onError: DateErrorPolicy, entries: seq<Entry>, n: nat)
    requires n <= |entries| && DateUpTo(onError, entries, n).Ok?
    ensures SoundFor(entries, n, DateUpTo(onError, entries, n).value)
  {
    if n > 0 {
      DateUpToSound(onError, entries, n - 1);
      var ds := DateUpTo(onError, entries, n - 1).value;
      if entries[n - 1].date.Some? {
        var last := Dated(n - 1, entries[n - 1].name, entries[n - 1].date.value);
        assert DateUpTo(onError, entries, n).value == ds + [last];
        assert forall k :: 0 <= k < |ds| ==> (ds + [last])[k] == ds[k];
      }
    }
  }

  lemma {:induction false} DateUpToKeeps(onError: DateErrorPolicy, entries: seq<Entry>, n: nat)
    requires n <= |entries| && DateUpTo(onError, entries, n).Ok?
    ensures forall i :: 0 <= i < n && entries[i].date.Some? ==>
      Dated(i, entries[i].name, entries[i].date.value) in DateUpTo(onError, entries, n).value
  {
    if n > 0 {
      DateUpToKeeps(onError, entries, n - 1);
    }
  }

  /** `image_dates` over all collected files. */
  function DateAll(onError: DateErrorPolicy, entries: seq<Entry>): (r: Result<seq<Dated>, string>)
    ensures r.Err? <==> onError == AbortOnDate && exists i :: 0 <= i < |entries| && entries[i].date.None?
    ensures r.Ok? ==> forall k :: 0 <= k < |r.value| ==>
      var d := r.value[k];
      d.pos < |entries| && d.name == entries[d.pos].name && entries[d.pos].date == Some(d.date)
    ensures r.Ok? ==> forall k, m :: 0 <= k < m < |r.value| ==> r.value[k].pos < r.value[m].pos
    ensures r.Ok? ==> forall i :: 0 <= i < |entries| && entries[i].date.Some? ==>
      Dated(i, entries[i].name, entries[i].date.value) in r.value
  {
    DateUpToErr(onError, entries, |entries|);
    var r := DateUpTo(onError, entries, |entries|);
    if r.Ok? then
      DateUpToSound(onError, entries, |entries|);
      DateUpToKeeps(onError, entries, |entries|);
      r
    else
      r
  }

  lemma {:induction false} DateUpToComplete(onError: DateErrorPolicy, entries: seq<Entry>, n: nat)
    requires n <= |entries|
    requires forall i :: 0 <= i < |entries| ==> entries[i].date.Some?
    ensures DateUpTo(onError, entries, n).Ok?
    ensures |DateUpTo(onError, entries, n).value| == n
    ensures forall k :: 0 <= k < n ==> DateUpTo(onError, entries, n).value[k].pos == k
  {
    if n > 0 {
      DateUpToComplete(onError, entries, n - 1);
      var ds := DateUpTo(onError, entries, n - 1).value;
      var last := Dated(n - 1, entries[n - 1].name, entries[n - 1].date.value);
      assert DateUpTo(onError, entries, n).value == ds + [last];
      forall k | 0 <= k < n ensures (ds + [last])[k].pos == k {
        if k < n - 1 {
          assert (ds + [last])[k] == ds[k];
        }
      }
    }
  }

  /** With every file datable nothing is dropped: the list is the collected
      list, position for position. */
  lemma DateAllComplete(onError: DateErrorPolicy, entries: seq<Entry>)
    requires forall i :: 0 <= i < |entries| ==> entries[i].date.Some?
    ensures DateAll(onError, entries).Ok?
    ensures |DateAll(onError, entries).value| == |entries|
    ensures forall k :: 0 <= k < |entries| ==> DateAll(onError, entries).value[k].pos == k
  {
    DateUpToComplete(onError, entries, |entries|);
  }

  // ---------------------------------------------------------------- sorting

  /** The order a stable sort by date leaves the files in: by date, and by
      collected position among equal dates. */
  predicate KeyLess(a: Dated, b: Dated) {
    Before(a.date, b.date) || (a.date == b.date && a.pos < b.pos)
  }

  predicate SortedByKey(s: seq<Dated>) {
    forall i, j :: 0 <= i < j < |s| ==> KeyLess(s[i], s[j])
  }

  lemma KeyLessTransitive(a: Dated, b: Dated, c: Dated)
    requires KeyLess(a, b) && KeyLess(b, c)
    ensures KeyLess(a, c)
  {
    BeforeStrictTotal(a.date, b.date, c.date);
  }

  lemma KeyLessAsymmetric(a: Dated, b: Dated)
    requires KeyLess(a, b)
    ensures !KeyLess(b, a)
  {
    BeforeStrictTotal(a.date, b.date, a.date);
  }

  /** Putting in front an element that precedes every element keeps the
      order. */
  lemma PrependSorted(x: Dated, s: seq<Dated>)
    requires SortedByKey(s)
    requires forall k :: 0 <= k < |s| ==> KeyLess(x, s[k])
    ensures SortedByKey([x] + s)
  {
    forall i, j | 0 <= i < j < |[x] + s| ensures KeyLess(([x] + s)[i], ([x] + s)[j]) {
      if i > 0 {
        assert ([x] + s)[i] == s[i - 1];
      }
      assert ([x] + s)[j] == s[j - 1];
    }
  }

  /** An element dated before the first of a sorted list can go in front. */
  lemma InsertFront(x: Dated, s: seq<Dated>)
    requires SortedByKey(s) && |s| > 0 && Before(x.date, s[0].date)
    ensures SortedByKey([x] + s)
  {
    forall k | 0 <= k < |s| ensures KeyLess(x, s[k]) {
      if k > 0 { KeyLessTransitive(x, s[0], s[k]); }
    }
    PrependSorted(x, s);
  }

  /** The rest of a sorted list is sorted and still precedes `x`. */
  lemma InsertTailReady(x: Dated, s: seq<Dated>)
    requires SortedByKey(s) && |s| > 0
    requires forall k :: 0 <= k < |s| ==> s[k].pos < x.pos
    ensures SortedByKey(s[1..])
    ensures forall k :: 0 <= k < |s[1..]| ==> s[1..][k].pos < x.pos
  {
    SplitFirst(s);
    forall k | 0 <= k < |s[1..]| ensures s[1..][k].pos < x.pos {
      assert s[1..][k] == s[k + 1];
    }
  }

  /** The head of a sorted list stays in front of the rest with a later
      element inserted. */
  lemma InsertBehind(x: Dated, s: seq<Dated>, t: seq<Dated>)
    requires SortedByKey(s) && |s| > 0
    requires !Before(x.date, s[0].date) && s[0].pos < x.pos
    requires multiset(t) == multiset(s[1..]) + multiset{x} && SortedByKey(t)
    ensures SortedByKey([s[0]] + t)
    ensures multiset([s[0]] + t) == multiset(s) + multiset{x}
  {
    BeforeStrictTotal(x.date, s[0].date, s[0].date);
    forall k | 0 <= k < |t| ensures KeyLess(s[0], t[k]) {
      assert t[k] in multiset(t);
      if t[k] != x {
        var m :| 0 <= m < |s[1..]| && s[1..][m] == t[k];
        assert t[k] == s[m + 1];
      }
    }
    PrependSorted(s[0], t);
    SplitFirst(s);
  }

  /** One step of insertion sort comparing dates only: `x` goes in front of
      the first element dated strictly after it, so it lands behind every
      element with the same date. */
  function Insert(x: Dated, s: seq<Dated>): (r: seq<Dated>)
    requires SortedByKey(s)
    requires forall k :: 0 <= k < |s| ==> s[k].pos < x.pos
    ensures multiset(r) == multiset(s) + multiset{x}
    ensures SortedByKey(r)
  {
    if |s| == 0 then [x]
    else if Before(x.date, s[0].date) then
      InsertFront(x, s);
      [x] + s
    else
      InsertTailReady(x, s);
      var t := Insert(x, s[1..]);
      InsertBehind(x, s, t);
      [s[0]] + t
  }

  /** `image_dates.sort(key=lambda x: x[1])`. */
  function SortByDate(s: seq<Dated>): (r: seq<Dated>)
    requires forall k, m :: 0 <= k < m < |s| ==> s[k].pos < s[m].pos
    ensures multiset(r) == multiset(s)
    ensures SortedByKey(r)
  {
    if |s| == 0 then []
    else
      var n := |s| - 1;
      var sorted := SortByDate(s[..n]);
      forall k | 0 <= k < |sorted| ensures sorted[k].pos < s[n].pos {
        assert sorted[k] in multiset(s[..n]);
        var m :| 0 <= m < n && s[..n][m] == sorted[k];
      }
      SplitLast(s);
      Insert(s[n], sorted)
  }

  /** The sorted list has the same length and holds only input elements. */
  lemma SortByDateElements(s: seq<Dated>)
    requires forall k, m :: 0 <= k < m < |s| ==> s[k].pos < s[m].pos
    ensures |SortByDate(s)| == |s|
    ensures forall i :: 0 <= i < |s| ==> SortByDate(s)[i] in s
  {
    var r := SortByDate(s);
    assert |r| == |multiset(r)| == |multiset(s)| == |s|;
    forall i | 0 <= i < |s| ensures r[i] in s {
      assert r[i] in multiset(s);
    }
  }

  /** A list sorted by the stable key is determined by its elements: any
      stable sort by date gives the same list as `SortByDate`. */
  lemma {:induction false} SortedUnique(a: seq<Dated>, b: seq<Dated>)
    requires SortedByKey(a) && SortedByKey(b) && multiset(a) == multiset(b)
    ensures a == b
  {
    if |a| > 0 {
      assert a[0] in multiset(b);
      assert b[0] in multiset(a);
      if a[0] != b[0] {
        var i :| 0 <= i < |b| && b[i] == a[0];
        var j :| 0 <= j < |a| && a[j] == b[0];
        assert KeyLess(b[0], a[0]) && KeyLess(a[0], b[0]);
        KeyLessAsymmetric(a[0], b[0]);
        assert false;
      }
      SplitFirst(a);
      SplitFirst(b);
      assert multiset(a[1..]) == multiset(b[1..]);
      SortedUnique(a[1..], b[1..]);
    } else {
      assert |b| == |multiset(b)| == 0;
    }
  }

  lemma SplitFirst(s: seq<Dated>)
    requires |s| > 0
    ensures s == [s[0]] + s[1..]
    ensures multiset(s[1..]) == multiset(s) - multiset{s[0]}
    ensures SortedByKey(s) ==> SortedByKey(s[1..])
  {
    assert s == [s[0]] + s[1..];
  }

  // ---------------------------------------------------------------- naming

  /** The new name of the k-th file. */
  function NewName(k: nat, name: string, date: Date): string {
    ZeroPad4(k) + "_" + TimeString(name, date) + Ext(name)
  }

  /** The leading run of digits of a name. */
  function LeadingDigits(s: string): (d: string)
    ensures AllDigits(d) && |d| <= |s| && d == s[..|d|]
    ensures |d| < |s| ==> !IsDigit(s[|d|])
  {
    if |s| > 0 && IsDigit(s[0]) then [s[0]] + LeadingDigits(s[1..]) else []
  }

  lemma {:induction false} LeadingDigitsOfJoin(d: string, rest: string)
    requires AllDigits(d) && |rest| > 0 && !IsDigit(rest[0])
    ensures LeadingDigits(d + rest) == d
  {
    if |d| > 0 {
      assert (d + rest)[1..] == d[1..] + rest;
      LeadingDigitsOfJoin(d[1..], rest);
    } else {
      assert d + rest == rest;
    }
  }

  /** The sequence number a renamed file carries: the number its leading
      digits spell. */
  function SequenceNumber(name: string): nat {
    ValueOf(LeadingDigits(name))
  }

  /** The number written into a new name is read back from it. */
  lemma NumberRoundTrip(k: nat, name: string, date: Date)
    ensures SequenceNumber(NewName(k, name, date)) == k
  {
    var p := ZeroPad4(k);
    var rest := "_" + TimeString(name, date) + Ext(name);
    assert NewName(k, name, date) == p + rest;
    LeadingDigitsOfJoin(p, rest);
    PadToRoundTrip(k, 4);
  }

  /** Different sequence numbers give different names, whatever the files. */
  lemma NewNamesDistinct(k: nat, m: nat, a: string, da: Date, b: string, db: Date)
    requires k != m
    ensures NewName(k, a, da) != NewName(m, b, db)
  {
    NumberRoundTrip(k, a, da);
    NumberRoundTrip(m, b, db);
  }

  /** Renaming keeps the extension `os.path.splitext` sees, letter case
      included. */
  lemma ExtensionPreserved(k: nat, name: string, date: Date)
    ensures Ext(NewName(k, name, date)) == Ext(name)
  {
    var p := ZeroPad4(k);
    var ts := TimeString(name, date);
    var head := p + "_" + ts;
    var x := Ext(name);
    var full := NewName(k, name, date);
    assert full == head + x;
    assert NoDot(head) by {
      forall i | 0 <= i < |head| ensures head[i] != '.' {
        if i < |p| { assert IsDigit(p[i]); }
        else if i > |p| {
          assert head[i] == ts[i - |p| - 1];
          if i - |p| - 1 < 8 { assert IsDigit(ts[0..8][i - |p| - 1]); }
          else if i - |p| - 1 > 8 { assert IsDigit(ts[9..15][i - |p| - 10]); }
        }
      }
    }
    assert !OnlyDots(head) by { assert head[|p|] == '_'; }
    if x == [] {
      assert full == head;
      assert LastIndexOf(full, '.') == -1;
    } else {
      LastDotOfJoin(head, x);
      assert full[..|head|] == head;
      assert full[|head|..] == x;
    }
  }

  /** A time string never holds a dot or stands at a digit after `_`:
      the window `\d{8}_\d{6}` cannot start at any of the first five
      characters of `dddd_` + stamp, because it would cover the `_`. */
  lemma NoStampAcrossNumber(s: string, j: nat)
    requires |s| >= 5 && s[4] == '_' && j <= 4
    ensures !StampAt(s, j)
  {
    if j + 15 <= |s| {
      var w := s[j..j + 15];
      assert w[4 - j] == s[4];
      if 4 - j < 8 {
        assert w[0..8][4 - j] == '_';
      }
    }
  }

  /** Renaming a renamed file again (a second run over the same folder)
      keeps its time string: the stamp it was given is the leftmost one in
      its new name. Holds while the sequence number fits in four digits. */
  lemma TimeStringStable(k: nat, name: string, date: Date, later: Date)
    requires 1 <= k <= 9999
    ensures TimeString(NewName(k, name, date), later) == TimeString(name, date)
  {
    var p := ZeroPad4(k);
    PadToWidth(k, 4);
    var ts := TimeString(name, date);
    var s := NewName(k, name, date);
    assert s == p + "_" + ts + Ext(name);
    assert s[4] == '_';
    assert s[5..20] == ts;
    assert StampAt(s, 5);
    forall j | 0 <= j <= 4 ensures !StampAt(s, j) {
      NoStampAcrossNumber(s, j);
    }
    var r := StampFrom(s, 0);
    assert r.Some?;
    assert r.value == 5;
  }

  // ---------------------------------------------------------------- plan

  datatype Rename = Rename(source: string, target: string)

  /** The renames in the order the loop performs them: the i-th sorted file
      gets sequence number i + 1. */
  function Plan(sorted: seq<Dated>): (r: seq<Rename>)
    ensures |r| == |sorted|
    ensures forall i :: 0 <= i < |r| ==> r[i].source == sorted[i].name
  {
    seq(|sorted|, i requires 0 <= i < |sorted| =>
      Rename(sorted[i].name, NewName(i + 1, sorted[i].name, sorted[i].date)))
  }

  /** The plan numbers the files densely from 1 in sorted order, every new
      name keeps its file's extension, and no two new names coincide. */
  lemma PlanProperties(sorted: seq<Dated>)
    ensures forall i :: 0 <= i < |sorted| ==> SequenceNumber(Plan(sorted)[i].target) == i + 1
    ensures forall i :: 0 <= i < |sorted| ==> Ext(Plan(sorted)[i].target) == Ext(sorted[i].name)
    ensures forall i, j :: 0 <= i < j < |sorted| ==> Plan(sorted)[i].target != Plan(sorted)[j].target
  {
    var r := Plan(sorted);
    forall i | 0 <= i < |sorted|
      ensures SequenceNumber(r[i].target) == i + 1 && Ext(r[i].target) == Ext(sorted[i].name)
    {
      assert r[i].target == NewName(i + 1, sorted[i].name, sorted[i].date);
      NumberRoundTrip(i + 1, sorted[i].name, sorted[i].date);
      ExtensionPreserved(i + 1, sorted[i].name, sorted[i].date);
    }
  }

  /** The time string of each planned name is the leftmost `\d{8}_\d{6}` of
      its source name, or the file's date rendered as `%Y%m%d_%H%M%S` when
      the name has none. */
  lemma PlanTimeStrings(sorted: seq<Dated>, i: nat)
    requires i < |sorted|
    ensures StampFrom(sorted[i].name, 0).Some? ==>
      var j := StampFrom(sorted[i].name, 0).value;
      Plan(sorted)[i].target == ZeroPad4(i + 1) + "_" + sorted[i].name[j..j + 15] + Ext(sorted[i].name)
    ensures StampFrom(sorted[i].name, 0).None? ==>
      Plan(sorted)[i].target == ZeroPad4(i + 1) + "_" + Format(sorted[i].date) + Ext(sorted[i].name)
  {
    assert Plan(sorted)[i].target == NewName(i + 1, sorted[i].name, sorted[i].date);
  }

  // ---------------------------------------------------------------- applying

  /** The target directory and what happened to each rename so far; `halted`
      is set when a failed rename ended the run. */
  datatype Applied = Applied(dir: set<string>, done: seq<Rename>, failed: seq<Rename>, halted: bool)

  /** The first `n` renames of the plan, applied in order. `os.rename(old,
      new)` succeeds only when `old` is there and the filesystem does not
      refuse (`ok`); the entry then moves to its new name, replacing any entry
      already under it. */
  function ApplyN(onError: RenameErrorPolicy, dir0: set<string>, plan: seq<Rename>, ok: nat -> bool, n: nat): (a: Applied)
    requires n <= |plan|
    ensures |a.done| + |a.failed| <= n
    ensures a.halted <==> onError == AbortOnRename && |a.failed| > 0
    ensures onError == ContinueOnRename ==> |a.done| + |a.failed| == n
    ensures onError == AbortOnRename ==> |a.failed| <= 1 && a.done == plan[..|a.done|]
    ensures onError == AbortOnRename && a.halted ==> a.failed == [plan[|a.done|]]
    ensures onError == AbortOnRename && !a.halted ==> a.done == plan[..n]
  {
    if n == 0 then Applied(dir0, [], [], false)
    else
      var prev := ApplyN(onError, dir0, plan, ok, n - 1);
      if prev.halted then prev
      else
        var r := plan[n - 1];
        if r.source in prev.dir && ok(n - 1) then
          assert plan[..n] == plan[..n - 1] + [r];
          Applied(prev.dir - {r.source} + {r.target}, prev.done + [r], prev.failed, false)
        else
          Applied(prev.dir, prev.done, prev.failed + [r], onError == AbortOnRename)
  }

  /** The rename loop over the whole plan. With `ImageProcessor`'s policy the
      renames done are a prefix of the plan and the first failure ends the
      run; otherwise every rename is attempted. */
  function Apply(onError: RenameErrorPolicy, dir0: set<string>, plan: seq<Rename>, ok: nat -> bool): (a: Applied)
    ensures |a.done| + |a.failed| <= |plan|
    ensures a.halted <==> onError == AbortOnRename && |a.failed| > 0
    ensures onError == ContinueOnRename ==> |a.done| + |a.failed| == |plan|
    ensures onError == AbortOnRename ==> |a.failed| <= 1 && a.done == plan[..|a.done|]
    ensures onError == AbortOnRename && a.halted ==> a.failed == [plan[|a.done|]]
    ensures onError == AbortOnRename && !a.halted ==> a.done == plan
  {
    assert plan[..|plan|] == plan;
    ApplyN(onError, dir0, plan, ok, |plan|)
  }

  lemma {:induction false} ApplyNAccounts(onError: RenameErrorPolicy, dir0: set<string>, plan: seq<Rename>, ok: nat -> bool, n: nat, i: nat)
    requires onError == ContinueOnRename && i < n <= |plan|
    ensures plan[i] in ApplyN(onError, dir0, plan, ok, n).done || plan[i] in ApplyN(onError, dir0, plan, ok, n).failed
  {
    if i < n - 1 {
      ApplyNAccounts(onError, dir0, plan, ok, n - 1, i);
    }
  }

  /** When failures are printed and skipped, every rename of the plan is
      either done or failed. */
  lemma ApplyAccounts(onError: RenameErrorPolicy, dir0: set<string>, plan: seq<Rename>, ok: nat -> bool, i: nat)
    requires onError == ContinueOnRename && i < |plan|
    ensures plan[i] in Apply(onError, dir0, plan, ok).done || plan[i] in Apply(onError, dir0, plan, ok).failed
  {
    ApplyNAccounts(onError, dir0, plan, ok, |plan|, i);
  }

  /** The names the first `n` renames move from and to. */
  function SourcesUpTo(plan: seq<Rename>, n: nat): set<string>
    requires n <= |plan|
  {
    if n == 0 then {} else SourcesUpTo(plan, n - 1) + {plan[n - 1].source}
  }

  function TargetsUpTo(plan: seq<Rename>, n: nat): set<string>
    requires n <= |plan|
  {
    if n == 0 then {} else TargetsUpTo(plan, n - 1) + {plan[n - 1].target}
  }

  function Sources(plan: seq<Rename>): set<string> {
    SourcesUpTo(plan, |plan|)
  }

  function Targets(plan: seq<Rename>): set<string> {
    TargetsUpTo(plan, |plan|)
  }

  lemma SplitLast<T>(s: seq<T>)
    requires |s| > 0
    ensures s[..|s| - 1] + [s[|s| - 1]] == s
  {
  }

  lemma {:induction false} NotInNames(plan: seq<Rename>, n: nat, x: string)
    requires n <= |plan|
    requires forall i :: 0 <= i < n ==> plan[i].source != x && plan[i].target != x
    ensures x !in SourcesUpTo(plan, n) && x !in TargetsUpTo(plan, n)
  {
    if n > 0 {
      NotInNames(plan, n - 1, x);
    }
  }

  lemma SwapNames(d: set<string>, srcs: set<string>, tgts: set<string>, s: string, t: string)
    requires s !in srcs && s !in tgts
    ensures ((d - srcs) + tgts) - {s} + {t} == (d - (srcs + {s})) + (tgts + {t})
  {
  }

  /** A rename that finds its source and is not refused moves it. */
  lemma ApplyNStep(onError: RenameErrorPolicy, dir0: set<string>, plan: seq<Rename>, ok: nat -> bool, n: nat)
    requires 0 < n <= |plan| && ok(n - 1)
    requires !ApplyN(onError, dir0, plan, ok, n - 1).halted
    requires plan[n - 1].source in ApplyN(onError, dir0, plan, ok, n - 1).dir
    ensures var prev := ApplyN(onError, dir0, plan, ok, n - 1);
      var r := plan[n - 1];
      ApplyN(onError, dir0, plan, ok, n) == Applied(prev.dir - {r.source} + {r.target}, prev.done + [r], prev.failed, false)
  {
  }

  lemma SliceSnoc<T>(s: seq<T>, n: nat)
    requires 0 < n <= |s|
    ensures s[..n] == s[..n - 1] + [s[n - 1]]
  {
  }

  lemma {:induction false} ApplyNAllSucceed(onError: RenameErrorPolicy, dir0: set<string>, plan: seq<Rename>, ok: nat -> bool, n: nat)
    requires n <= |plan|
    requires forall i :: 0 <= i < |plan| ==> ok(i) && plan[i].source in dir0 && plan[i].target !in dir0
    requires forall i, j :: 0 <= i < j < |plan| ==> plan[i].source != plan[j].source
    ensures ApplyN(onError, dir0, plan, ok, n).done == plan[..n]
    ensures ApplyN(onError, dir0, plan, ok, n).dir == (dir0 - SourcesUpTo(plan, n)) + TargetsUpTo(plan, n)
  {
    if n > 0 {
      ApplyNAllSucceed(onError, dir0, plan, ok, n - 1);
      var prev := ApplyN(onError, dir0, plan, ok, n - 1);
      var r := plan[n - 1];
      assert !prev.halted;
      NotInNames(plan, n - 1, r.source);
      ApplyNStep(onError, dir0, plan, ok, n);
      SliceSnoc(plan, n);
      SwapNames(dir0, SourcesUpTo(plan, n - 1), TargetsUpTo(plan, n - 1), r.source, r.target);
    }
  }

  /** The intended outcome: when every rename succeeds, the plan's names do
      not collide with each other and every source is present, the directory
      ends up with the sources replaced by the targets. */
  lemma ApplyAllSucceed(onError: RenameErrorPolicy, dir0: set<string>, plan: seq<Rename>, ok: nat -> bool)
    requires forall i :: 0 <= i < |plan| ==> ok(i) && plan[i].source in dir0 && plan[i].target !in dir0
    requires forall i, j :: 0 <= i < j < |plan| ==> plan[i].source != plan[j].source
    ensures Apply(onError, dir0, plan, ok).done == plan
    ensures Apply(onError, dir0, plan, ok).dir == (dir0 - Sources(plan)) + Targets(plan)
  {
    ApplyNAllSucceed(onError, dir0, plan, ok, |plan|);
    assert plan[..|plan|] == plan;
  }
}
