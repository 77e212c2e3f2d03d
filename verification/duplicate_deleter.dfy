/** The "(n)"-suffix duplicate deleter: in one directory, a regular file
    named like `photo(1).jpg` is removed when `photo.jpg` was listed, still
    exists and has the same size. The directory is a map from entry names to
    whether the entry is a regular file and its size; the listing is the
    `os.listdir` snapshot taken before the loop, in its order. */
module DuplicateDeleter {
  import opened Results
  import opened Text

  // ---------------------------------------------------------------- pattern

  predicate NoNewline(s: string) {
    forall i :: 0 <= i < |s| ==> s[i] != '\n'
  }

  /** `^(.+)\(\d+\)(\.[^.]+)$` matches `s` with the `(` at `g` and the
      extension's dot at `d`: group 1 is `s[..g]` (one or more characters
      other than a newline), the digits run from `g + 1` to the `)` at
      `d - 1`, and group 2 is `s[d..]`, a dot and at least one non-dot. Since
      `[^.]` also takes a newline, `$` is always met at the very end. */
  predicate CopyShape(s: string, g: nat, d: nat) {
    && 1 <= g && g + 2 < d && d + 2 <= |s|
    && NoNewline(s[..g])
    && s[g] == '(' && AllDigits(s[g + 1..d - 1]) && s[d - 1] == ')'
    && s[d] == '.' && NoDot(s[d + 1..])
  }

  /** Where the run of digits that ends just before `j` begins. */
  function DigitRunStart(s: string, j: nat): (c: nat)
    requires j <= |s|
    ensures c <= j && AllDigits(s[c..j])
    ensures c > 0 ==> !IsDigit(s[c - 1])
  {
    if j > 0 && IsDigit(s[j - 1]) then
      var c := DigitRunStart(s, j - 1);
      assert s[c..j] == s[c..j - 1] + [s[j - 1]];
      c
    else j
  }

  lemma {:induction false} DigitRunStartOf(s: string, a: nat, j: nat)
    requires a <= j <= |s| && AllDigits(s[a..j])
    requires a > 0 ==> !IsDigit(s[a - 1])
    ensures DigitRunStart(s, j) == a
    decreases j
  {
    if j > a {
      assert s[a..j][j - 1 - a] == s[j - 1];
      assert s[a..j - 1] == s[a..j][..j - 1 - a];
      DigitRunStartOf(s, a, j - 1);
    }
  }

  /** The checks `MatchCopyName` makes, locating the last dot first and
      the digit run before its `)` next. */
  predicate PassesChecks(s: string) {
    var d := LastIndexOf(s, '.');
    && 4 <= d && d + 2 <= |s| && s[d - 1] == ')'
    && var c := DigitRunStart(s, d - 1);
       c + 1 < d && 2 <= c && s[c - 1] == '(' && NoNewline(s[..c - 1])
  }

  /** A match, if any, is pinned down by the name: the dot is the last one
      and the `(` is the one just before the digits that precede `)`. */
  lemma ShapeDetermined(s: string, g: nat, d: nat)
    requires CopyShape(s, g, d)
    ensures LastIndexOf(s, '.') == d
    ensures DigitRunStart(s, d - 1) == g + 1
    ensures PassesChecks(s)
  {
    forall j | d < j < |s| ensures s[j] != '.' {
      assert s[j] == s[d + 1..][j - d - 1];
    }
    DigitRunStartOf(s, g + 1, d - 1);
  }

  lemma ShapeUnique(s: string, g: nat, d: nat, g': nat, d': nat)
    requires CopyShape(s, g, d) && CopyShape(s, g', d')
    ensures g == g' && d == d'
  {
    ShapeDetermined(s, g, d);
    ShapeDetermined(s, g', d');
  }

  /** A name that passes the checks has the shape at the positions they
      locate, and at no other. */
  lemma ChecksGiveShape(s: string)
    requires PassesChecks(s)
    ensures var d := LastIndexOf(s, '.');
      var g := DigitRunStart(s, d - 1) - 1;
      && CopyShape(s, g, d)
      && forall g': nat, d': nat :: CopyShape(s, g', d') ==> g' == g && d' == d
  {
    var d := LastIndexOf(s, '.');
    var g := DigitRunStart(s, d - 1) - 1;
    var tail := s[d + 1..];
    forall j | 0 <= j < |tail| ensures tail[j] != '.' {
      assert tail[j] == s[d + 1 + j];
    }
    assert CopyShape(s, g, d);
    forall g': nat, d': nat | CopyShape(s, g', d') ensures g' == g && d' == d {
      ShapeUnique(s, g', d', g, d);
    }
  }

  lemma ShapeNeedsChecks(s: string)
    ensures forall g: nat, d: nat :: CopyShape(s, g, d) ==> PassesChecks(s)
  {
    forall g: nat, d: nat | CopyShape(s, g, d) ensures PassesChecks(s) {
      ShapeDetermined(s, g, d);
    }
  }

  /** `pattern.match(file)`, answering `match.group(1) + match.group(2)`:
      the name with its last `(n)` before the extension removed. */
  function MatchCopyName(s: string): (r: Option<string>)
    ensures r.Some? <==> exists g: nat, d: nat :: CopyShape(s, g, d)
    ensures forall g: nat, d: nat :: CopyShape(s, g, d) ==> r == Some(s[..g] + s[d..])
  {
    if PassesChecks(s) then
      var d := LastIndexOf(s, '.');
      var g := DigitRunStart(s, d - 1) - 1;
      ChecksGiveShape(s);
      Some(s[..g] + s[d..])
    else
      ShapeNeedsChecks(s);
      None
  }

  /** The original name is strictly shorter than the copy's, so a file is
      never compared with itself. */
  lemma OriginalShorter(s: string)
    requires MatchCopyName(s).Some?
    ensures |MatchCopyName(s).value| + 3 <= |s|
  {
    var g: nat, d: nat :| CopyShape(s, g, d);
  }

  /** The copy name is the original with `(digits)` put before its
      extension: matching undoes that insertion. */
  lemma MatchUndoesMarker(base: string, digits: string, ext: string)
    requires 1 <= |base| && NoNewline(base)
    requires 1 <= |digits| && AllDigits(digits)
    requires 2 <= |ext| && ext[0] == '.' && NoDot(ext[1..])
    ensures MatchCopyName(base + "(" + digits + ")" + ext) == Some(base + ext)
  {
    var s := base + "(" + digits + ")" + ext;
    var g := |base|;
    var d := g + |digits| + 2;
    assert s[..g] == base;
    assert s[g + 1..d - 1] == digits;
    assert s[d..] == ext;
    assert s[d + 1..] == ext[1..];
    assert CopyShape(s, g, d);
  }

  // ---------------------------------------------------------------- deletion

  /** An entry of the directory: `os.path.isfile` and `os.path.getsize`. */
  datatype Node = Node(isFile: bool, size: nat)

  /** Whether the loop removes `name`, given the directory as it is when
      the loop reaches it: a regular file whose name matches, whose original
      was in the snapshot and still exists (a directory counts) with the same
      size. */
  predicate Deletes(fs: map<string, Node>, listing: seq<string>, name: string) {
    && name in fs && fs[name].isFile
    && MatchCopyName(name).Some?
    && MatchCopyName(name).value in listing
    && MatchCopyName(name).value in fs
    && fs[MatchCopyName(name).value].size == fs[name].size
  }

  /** The directory and the names removed so far, after the loop has looked
      at the first `n` listed names: each name is decided against the
      directory as the earlier iterations left it. */
  datatype Pass = Pass(fs: map<string, Node>, deleted: seq<string>)

  function PassUpTo(fs0: map<string, Node>, listing: seq<string>, n: nat): Pass
    requires n <= |listing|
  {
    if n == 0 then Pass(fs0, [])
    else
      var p := PassUpTo(fs0, listing, n - 1);
      var name := listing[n - 1];
      if Deletes(p.fs, listing, name) then Pass(p.fs - {name}, p.deleted + [name]) else p
  }

  /** What the pass keeps: the directory is the initial one minus the removed
      names, untouched otherwise, and only names already looked at were
      removed, each a listed regular file matching the pattern. */
  lemma {:induction false} PassKeys(fs0: map<string, Node>, listing: seq<string>, n: nat)
    requires n <= |listing|
    ensures var p := PassUpTo(fs0, listing, n);
      && p.fs.Keys == fs0.Keys - Elems(p.deleted)
      && (forall x :: x in p.fs ==> p.fs[x] == fs0[x])
      && (forall k :: 0 <= k < |p.deleted| ==> p.deleted[k] in listing[..n])
      && (forall k :: 0 <= k < |p.deleted| ==>
            p.deleted[k] in fs0 && fs0[p.deleted[k]].isFile &&
            MatchCopyName(p.deleted[k]).Some? && MatchCopyName(p.deleted[k]).value in listing)
  {
    if n > 0 {
      PassKeys(fs0, listing, n - 1);
      var p := PassUpTo(fs0, listing, n - 1);
      assert listing[..n] == listing[..n - 1] + [listing[n - 1]];
      ElemsSnoc(p.deleted, listing[n - 1]);
    }
  }

  /** A name decided at position `i` keeps that decision: later iterations
      remove only later names, which differ from it. */
  lemma {:induction false} DecisionPersists(fs0: map<string, Node>, listing: seq<string>, i: nat, n: nat)
    requires Distinct(listing) && i < n <= |listing|
    ensures listing[i] in PassUpTo(fs0, listing, n).deleted <==> listing[i] in PassUpTo(fs0, listing, i + 1).deleted
  {
    if n > i + 1 {
      DecisionPersists(fs0, listing, i, n - 1);
      assert listing[n - 1] != listing[i];
    }
  }

  /** In a listing without repeats (as `os.listdir` gives), a name is removed
      exactly when the rule holds for it in the directory as the earlier
      iterations left it, not as the snapshot shows it. */
  lemma DecidedAt(fs0: map<string, Node>, listing: seq<string>, i: nat)
    requires Distinct(listing) && i < |listing|
    ensures listing[i] in PassUpTo(fs0, listing, |listing|).deleted <==>
      Deletes(PassUpTo(fs0, listing, i).fs, listing, listing[i])
  {
    PassKeys(fs0, listing, i);
    var p := PassUpTo(fs0, listing, i);
    forall k | 0 <= k < |p.deleted| ensures p.deleted[k] != listing[i] {
      assert forall j :: 0 <= j < i ==> listing[..i][j] != listing[i];
    }
    DecisionPersists(fs0, listing, i, |listing|);
  }

  /** Every deleted copy still has a strictly shorter name in the directory
      with its size: the original it was compared against, or a survivor of
      that original. */
  predicate Survivors(fs0: map<string, Node>, fs: map<string, Node>, deleted: seq<string>)
    requires forall k :: 0 <= k < |deleted| ==> deleted[k] in fs0
  {
    forall k :: 0 <= k < |deleted| ==>
      exists y :: y in fs && fs[y].size == fs0[deleted[k]].size && |y| < |deleted[k]|
  }

  /** Removing a copy whose shorter original stays keeps every survivor
      claim, the new one included. */
  lemma RemoveKeepsSurvivors(fs0: map<string, Node>, fs: map<string, Node>, deleted: seq<string>, name: string, o: string)
    requires forall k :: 0 <= k < |deleted| ==> deleted[k] in fs0
    requires Survivors(fs0, fs, deleted)
    requires name in fs0 && name in fs && fs[name] == fs0[name]
    requires o in fs && o != name && fs[o].size == fs[name].size && |o| < |name|
    ensures Survivors(fs0, fs - {name}, deleted + [name])
  {
    var fs' := fs - {name};
    var d := deleted + [name];
    forall k | 0 <= k < |d|
      ensures exists y :: y in fs' && fs'[y].size == fs0[d[k]].size && |y| < |d[k]|
    {
      if k == |deleted| {
        assert o in fs' && fs'[o].size == fs0[d[k]].size;
      } else {
        assert d[k] == deleted[k];
        var y :| y in fs && fs[y].size == fs0[deleted[k]].size && |y| < |deleted[k]|;
        if y == name {
          assert o in fs' && fs'[o].size == fs0[d[k]].size && |o| < |d[k]|;
        } else {
          assert y in fs';
        }
      }
    }
  }

  /** Once the i-th name is removed, none of the names up to it is deletable:
      removal only ever disables deletions. */
  lemma NoneDeletableAfter(fs: map<string, Node>, listing: seq<string>, i: nat)
    requires i < |listing|
    requires forall k :: 0 <= k < i ==> !Deletes(fs, listing, listing[k])
    ensures forall k :: 0 <= k <= i ==> !Deletes(fs - {listing[i]}, listing, listing[k])
  {
    var fs' := fs - {listing[i]};
    forall k | 0 <= k <= i ensures !Deletes(fs', listing, listing[k]) {
      if k < i {
        DeletesShrinks(fs, fs', listing, listing[k]);
      }
    }
  }

  /** `delete_duplicate_images`: one pass over the snapshot. Only listed
      regular files whose original was listed are removed, each leaves a
      shorter same-size name behind, and once the pass is over no listed name
      is one the rule would still remove. The result is the fold `PassUpTo`
      over the whole listing, so each name is decided against the directory
      as the earlier iterations left it. */
  method DeleteDuplicates(fs0: map<string, Node>, listing: seq<string>) returns (fs: map<string, Node>, deleted: seq<string>)
    ensures fs.Keys == fs0.Keys - Elems(deleted)
    ensures forall n :: n in fs ==> fs[n] == fs0[n]
    ensures forall k :: 0 <= k < |deleted| ==>
      deleted[k] in listing && deleted[k] in fs0 && fs0[deleted[k]].isFile &&
      MatchCopyName(deleted[k]).Some? && MatchCopyName(deleted[k]).value in listing
    ensures Survivors(fs0, fs, deleted)
    ensures forall k :: 0 <= k < |listing| ==> !Deletes(fs, listing, listing[k])
    ensures Pass(fs, deleted) == PassUpTo(fs0, listing, |listing|)
  {
    fs := fs0;
    deleted := [];
    var i := 0;
    while i < |listing|
      invariant i <= |listing|
      invariant Pass(fs, deleted) == PassUpTo(fs0, listing, i)
    {
      var name := listing[i];
      PassStep(fs0, listing, i);
      if Deletes(fs, listing, name) {
        fs := fs - {name};
        deleted := deleted + [name];
      }
      i := i + 1;
    }
    assert fs == PassUpTo(fs0, listing, |listing|).fs && deleted == PassUpTo(fs0, listing, |listing|).deleted;
    PassKeys(fs0, listing, |listing|);
    PassSurvivors(fs0, listing, |listing|);
    PassComplete(fs0, listing, |listing|);
    assert listing[..|listing|] == listing;
  }

  /** Every copy the pass removed leaves a shorter same-size name behind. */
  lemma {:induction false} PassSurvivors(fs0: map<string, Node>, listing: seq<string>, n: nat)
    requires n <= |listing|
    ensures var p := PassUpTo(fs0, listing, n);
      && (forall k :: 0 <= k < |p.deleted| ==> p.deleted[k] in fs0)
      && Survivors(fs0, p.fs, p.deleted)
  {
    if n > 0 {
      PassSurvivors(fs0, listing, n - 1);
      PassKeys(fs0, listing, n - 1);
      PassStep(fs0, listing, n - 1);
      var p := PassUpTo(fs0, listing, n - 1);
      var name := listing[n - 1];
      if Deletes(p.fs, listing, name) {
        OriginalShorter(name);
        RemoveKeepsSurvivors(fs0, p.fs, p.deleted, name, MatchCopyName(name).value);
      }
    }
  }

  /** No name the pass has looked at is one the rule would still remove. */
  lemma {:induction false} PassComplete(fs0: map<string, Node>, listing: seq<string>, n: nat)
    requires n <= |listing|
    ensures forall k :: 0 <= k < n ==> !Deletes(PassUpTo(fs0, listing, n).fs, listing, listing[k])
  {
    if n > 0 {
      PassComplete(fs0, listing, n - 1);
      PassStep(fs0, listing, n - 1);
      var p := PassUpTo(fs0, listing, n - 1);
      if Deletes(p.fs, listing, listing[n - 1]) {
        NoneDeletableAfter(p.fs, listing, n - 1);
      }
    }
  }

  /** Removing entries never makes a name deletable that was not: the rule
      only asks for entries to be present. */
  lemma DeletesShrinks(fs: map<string, Node>, fs': map<string, Node>, listing: seq<string>, name: string)
    requires fs'.Keys <= fs.Keys && forall n :: n in fs' ==> fs'[n] == fs[n]
    ensures Deletes(fs', listing, name) ==> Deletes(fs, listing, name)
  {
  }

  /** Existence is checked against the directory as it is, not against the
      snapshot: once the original has been removed earlier in the pass, a
      copy of it is kept even though the snapshot still lists the original. */
  lemma RemovedOriginalProtects(fs0: map<string, Node>, listing: seq<string>, i: nat)
    requires Distinct(listing) && i < |listing|
    requires MatchCopyName(listing[i]).Some?
    requires MatchCopyName(listing[i]).value in PassUpTo(fs0, listing, i).deleted
    ensures listing[i] !in PassUpTo(fs0, listing, |listing|).deleted
  {
    PassKeys(fs0, listing, i);
    DecidedAt(fs0, listing, i);
  }

  /** Names that do not match the pattern, whose original was not listed, or
      that are not regular files are never removed. */
  lemma OnlyMatchingFilesDeleted(fs0: map<string, Node>, listing: seq<string>, name: string)
    requires || name !in fs0 || !fs0[name].isFile || MatchCopyName(name).None?
             || MatchCopyName(name).value !in listing
    ensures name !in PassUpTo(fs0, listing, |listing|).deleted
  {
    PassKeys(fs0, listing, |listing|);
  }

  /** A copy of a copy: with `c1` a copy of `o` and `c2` a copy of `c1`, all
      three regular files of one size and listed in that order, `c1` goes
      because `o` is there, and `c2` then stays because its original `c1` is
      gone, although the snapshot lists it. */
  lemma CopyOfRemovedCopyKept(o: string, c1: string, c2: string, size: nat)
    requires MatchCopyName(c1) == Some(o) && MatchCopyName(c2) == Some(c1)
    ensures var fs0 := map[c1 := Node(true, size), c2 := Node(true, size), o := Node(true, size)];
      PassUpTo(fs0, [c1, c2, o], 3).deleted == [c1]
  {
    var fs0 := map[c1 := Node(true, size), c2 := Node(true, size), o := Node(true, size)];
    var listing := [c1, c2, o];
    var p1 := PassUpTo(fs0, listing, 1);
    assert p1.deleted == [c1] && c1 !in p1.fs by {
      PassStep(fs0, listing, 0);
      assert Deletes(fs0, listing, c1);
    }
    assert PassUpTo(fs0, listing, 2) == p1 by {
      PassStep(fs0, listing, 1);
      assert !Deletes(p1.fs, listing, c2);
    }
    assert PassUpTo(fs0, listing, 3) == p1 by {
      PassStep(fs0, listing, 2);
      assert !Deletes(p1.fs, listing, o) by {
        OriginalShorter(c1);
        OriginalShorter(c2);
        if MatchCopyName(o).Some? {
          OriginalShorter(o);
        }
      }
    }
  }

  /** One more iteration of the pass. */
  lemma PassStep(fs0: map<string, Node>, listing: seq<string>, n: nat)
    requires n < |listing|
    ensures var p := PassUpTo(fs0, listing, n);
      PassUpTo(fs0, listing, n + 1) ==
        if Deletes(p.fs, listing, listing[n]) then Pass(p.fs - {listing[n]}, p.deleted + [listing[n]]) else p
  {
  }

  /** `a(1).jpg` is a copy of `a.jpg`. */
  lemma FirstCopyNamed()
    ensures MatchCopyName("a(1).jpg") == Some("a.jpg")
  {
    assert "a" + "(" + "1" + ")" + ".jpg" == "a(1).jpg";
    assert "a" + ".jpg" == "a.jpg";
    MatchUndoesMarker("a", "1", ".jpg");
  }

  /** The example on concrete names. */
  lemma CopyOfRemovedCopyListing()
    ensures var fs0 := map["a(1).jpg" := Node(true, 5), "a(1)(2).jpg" := Node(true, 5), "a.jpg" := Node(true, 5)];
      PassUpTo(fs0, ["a(1).jpg", "a(1)(2).jpg", "a.jpg"], 3).deleted == ["a(1).jpg"]
  {
    FirstCopyNamed();
    assert MatchCopyName("a(1)(2).jpg") == Some("a(1).jpg") by {
      assert "a(1)" + "(" + "2" + ")" + ".jpg" == "a(1)(2).jpg";
      assert "a(1)" + ".jpg" == "a(1).jpg";
      MatchUndoesMarker("a(1)", "2", ".jpg");
    }
    CopyOfRemovedCopyKept("a.jpg", "a(1).jpg", "a(1)(2).jpg", 5);
  }
}
