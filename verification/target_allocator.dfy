/** Collision-free naming in the target directory (`_get_unique_target_path`
    and the inline loops of the other variants): keep the desired name when
    it is free, otherwise try `stem_1.ext`, `stem_2.ext`, ... and take the
    first one the directory does not hold. The directory is a set of entry
    names; `os.path.exists` is membership. */
module TargetAllocator {
  import opened Text

  /** `f"{name}_{counter}{ext}"` with `name, ext = os.path.splitext(file)`:
      always built from the original stem, so suffixes never accumulate. */
  function Suffixed(file: string, k: nat): string {
    Stem(file) + "_" + Decimal(k) + Ext(file)
  }

  /** The k-th name the allocation loop looks at: the file itself, then the
      suffixed names with counter 1, 2, ... */
  function Candidate(file: string, k: nat): string {
    if k == 0 then file else Suffixed(file, k)
  }

  /** The loop never looks at the same name twice. */
  lemma CandidatesDistinct(file: string, a: nat, b: nat)
    requires Candidate(file, a) == Candidate(file, b)
    ensures a == b
  {
    var st, x := Stem(file), Ext(file);
    assert file == st + x;
    assert a != 0 ==> |Candidate(file, a)| > |file|;
    assert b != 0 ==> |Candidate(file, b)| > |file|;
    if a != 0 && b != 0 {
      var ca, cb := Candidate(file, a), Candidate(file, b);
      var u := |st| + 1;
      assert |Decimal(a)| == |Decimal(b)|;
      assert Decimal(a) == ca[u..u + |Decimal(a)|];
      assert Decimal(b) == cb[u..u + |Decimal(b)|];
      DecimalInjective(a, b);
    }
  }

  /** The names the loop has looked at before reaching counter `n`. */
  function Tried(file: string, n: nat): set<string> {
    if n == 0 then {} else Tried(file, n - 1) + {Candidate(file, n - 1)}
  }

  /** A later candidate is none of the earlier ones. */
  lemma {:induction false} NotTriedYet(file: string, n: nat, k: nat)
    requires n <= k
    ensures Candidate(file, k) !in Tried(file, n)
  {
    if n > 0 {
      NotTriedYet(file, n - 1, k);
      if Candidate(file, n - 1) == Candidate(file, k) {
        CandidatesDistinct(file, n - 1, k);
        assert false;
      }
    }
  }

  lemma {:induction false} TriedSize(file: string, n: nat)
    ensures |Tried(file, n)| == n
  {
    if n > 0 {
      TriedSize(file, n - 1);
      NotTriedYet(file, n - 1, n - 1);
    }
  }

  lemma {:induction false} TriedTaken(existing: set<string>, file: string, n: nat)
    requires forall j :: 0 <= j < n ==> Candidate(file, j) in existing
    ensures Tried(file, n) <= existing
  {
    if n > 0 {
      TriedTaken(existing, file, n - 1);
    }
  }

  /** Pigeonhole: if the first `n` names are all taken, the directory has at
      least `n` entries, so the loop stops within `|existing| + 1` tries. */
  lemma TriedBound(existing: set<string>, file: string, n: nat)
    requires forall j :: 0 <= j < n ==> Candidate(file, j) in existing
    ensures n <= |existing|
  {
    TriedSize(file, n);
    TriedTaken(existing, file, n);
    SubsetSize(Tried(file, n), existing);
  }

  lemma SubsetSize<T>(a: set<T>, b: set<T>)
    requires a <= b
    ensures |a| <= |b|
  {
    if a != {} {
      var x :| x in a;
      SubsetSize(a - {x}, b - {x});
    }
  }

  function FirstFreeFrom(existing: set<string>, file: string, k: nat): (r: nat)
    requires forall j :: 0 <= j < k ==> Candidate(file, j) in existing
    requires k <= |existing|
    ensures k <= r <= |existing|
    ensures Candidate(file, r) !in existing
    ensures forall j :: 0 <= j < r ==> Candidate(file, j) in existing
    decreases |existing| - k
  {
    if Candidate(file, k) !in existing then k
    else
      TriedBound(existing, file, k + 1);
      FirstFreeFrom(existing, file, k + 1)
  }

  /** The counter at which the loop stops: 0 when the file's own name is free,
      otherwise the smallest k >= 1 whose suffixed name is free. */
  function FreeCounter(existing: set<string>, file: string): (k: nat)
    ensures Candidate(file, k) !in existing
    ensures forall j :: 0 <= j < k ==> Candidate(file, j) in existing
    ensures k <= |existing|
  {
    FirstFreeFrom(existing, file, 0)
  }

  /** The allocated name: never one the directory already holds. */
  function UniqueName(existing: set<string>, file: string): (r: string)
    ensures r !in existing
    ensures file !in existing ==> r == file
    ensures file in existing ==>
      exists k :: 1 <= k <= |existing| && r == Suffixed(file, k) &&
        forall j :: 1 <= j < k ==> Suffixed(file, j) in existing
  {
    var k := FreeCounter(existing, file);
    if k == 0 then file
    else
      assert forall j :: 1 <= j < k ==> Candidate(file, j) == Suffixed(file, j);
      Suffixed(file, k)
  }

  /** The allocation loop as the source writes it: probe, and on a hit build
      the next suffixed name from the original stem and bump the counter. */
  method AllocateTarget(existing: set<string>, file: string) returns (target: string)
    ensures target !in existing
    ensures target == Candidate(file, FreeCounter(existing, file))
  {
    target := file;
    var counter: nat := 1;
    while target in existing
      invariant target == Candidate(file, counter - 1)
      invariant forall j :: 0 <= j < counter - 1 ==> Candidate(file, j) in existing
      invariant counter - 1 <= |existing|
      decreases |existing| - (counter - 1)
    {
      TriedBound(existing, file, counter);
      target := Suffixed(file, counter);
      counter := counter + 1;
    }
    StopCounterUnique(existing, file, counter - 1, FreeCounter(existing, file));
  }

  /** The stopping counter is determined: two counters that are both free with
      every earlier candidate taken are the same counter. */
  lemma StopCounterUnique(existing: set<string>, file: string, a: nat, b: nat)
    requires Candidate(file, a) !in existing
    requires forall j :: 0 <= j < a ==> Candidate(file, j) in existing
    requires Candidate(file, b) !in existing
    requires forall j :: 0 <= j < b ==> Candidate(file, j) in existing
    ensures a == b
  {
  }
}
