/** Collection and first-wins deduplication: every source folder is walked,
    each image is hashed, and a file is copied into the target directory only
    when its hash has not been seen; the hash is then recorded against the
    copy's name. The walk (in `os.walk` order, folder after folder) is a given
    sequence; hashing and copying are outcomes carried by each entry. The
    target directory is the set of its entry names. */
module Collection {
  import opened Results
  import opened Text
  import opened ImageNames
  import opened TargetAllocator

  /** An MD5 hex digest; only its equality matters. */
  type Hash = string

  /** What `shutil.copy2` into the target directory does with one file: it
      copies it, it raises before creating the target, or it raises after
      creating it (a write error part-way leaves a partial file, a failing
      `copystat` a complete one). */
  datatype CopyOutcome = Copied | Refused | FailedLeavingTarget

  /** One file of the walk: its base name, the digest of its contents (None
      when reading the file raised), what copying it does, and whether
      `os.rename` of the source to the prefixed path succeeds (asked only of
      opaque names under a prefixing policy). */
  datatype SourceFile = SourceFile(name: string, hash: Option<Hash>, copy: CopyOutcome, moveOk: bool)

  /** How a variant reacts to the two I/O failures, and whether it routes
      opaque names to the marker-prefixed path. */
  datatype Policy = Policy(hashErrorSkips: bool, copyErrorSkips: bool, prefixOpaque: bool)

  /** `ImageProcessor` in images_processor.py: a hash error is printed and
      the file skipped; a copy error propagates (the handler only catches
      `ImageCopyError`, which `copy2` never raises); an opaque name is first
      moved to the prefixed path, after which the copy cannot find its
      source and the run ends. */
  const ProcessorPolicy: Policy := Policy(true, false, true)

  /** `ImageProcessorGUI` in reconstruct_process/images_merge_and_rename.py:
      both errors propagate and end the run. */
  const MergeGuiPolicy: Policy := Policy(false, false, false)

  /** reconstruct_process/images_processor.py: both errors are printed and
      the file skipped; a failed copy records nothing. */
  const TolerantPolicy: Policy := Policy(true, true, false)

  /** `collect_and_duplicate_images` in
      reconstruct_process/image_merge_and_rename.py: both errors propagate. */
  const ScriptPolicy: Policy := Policy(false, false, false)

  /** The loop's state: the collected target names in copy order, the
      hash-to-target dictionary, the names the target directory holds, and
      the targets that failed copies left behind. */
  datatype State = State(collected: seq<string>, index: map<Hash, string>, dir: set<string>, leftovers: seq<string>)

  /** Why a run stopped early. `SourceMoved`: `os.rename` put the source
      file at the prefixed target (replacing any entry of that name), so the
      following `copy2` raised `FileNotFoundError`; `MoveFailed`: that
      `os.rename` itself raised. */
  datatype Halt =
    | HashFailed(name: string)
    | CopyFailed(name: string, target: string)
    | SourceMoved(name: string, target: string)
    | MoveFailed(name: string, target: string)

  /** Where a new file goes: the collision-free name, or, for an opaque name
      under a prefixing policy, the prefixed name without any existence
      check. */
  function TargetFor(p: Policy, dir: set<string>, name: string): (t: string)
    ensures p.prefixOpaque && IsOpaqueName(name) ==> t == PrefixedName(DefaultPrefix, name)
    ensures !(p.prefixOpaque && IsOpaqueName(name)) ==> t == UniqueName(dir, name) && t !in dir
  {
    if p.prefixOpaque && IsOpaqueName(name) then PrefixedName(DefaultPrefix, name)
    else UniqueName(dir, name)
  }

  /** The walk reaches a file whose hash is new to the dictionary and which is
      an image: the only situation in which anything is copied. */
  predicate Fresh(st: State, f: SourceFile) {
    IsImageFile(f.name) && f.hash.Some? && f.hash.value !in st.index
  }

  /** A fresh opaque image under a prefixing policy: it is moved, not
      copied. */
  predicate MovedAway(p: Policy, st: State, f: SourceFile) {
    Fresh(st, f) && p.prefixOpaque && IsOpaqueName(f.name)
  }

  /** One iteration of the inner loop. */
  function Step(p: Policy, st: State, f: SourceFile): (r: Result<State, Halt>)
    ensures !IsImageFile(f.name) ==> r == Ok(st)
    ensures f.hash.Some? && f.hash.value in st.index ==> r == Ok(st)
    ensures r.Ok? && r.value != st ==> Fresh(st, f) && !MovedAway(p, st, f) && f.copy != Refused
  {
    if !IsImageFile(f.name) then Ok(st)
    else
      match f.hash
      case None => if p.hashErrorSkips then Ok(st) else Err(HashFailed(f.name))
      case Some(h) =>
        if h in st.index then Ok(st)
        else
          var t := TargetFor(p, st.dir, f.name);
          if p.prefixOpaque && IsOpaqueName(f.name) then
            if f.moveOk then Err(SourceMoved(f.name, t)) else Err(MoveFailed(f.name, t))
          else
            match f.copy
            case Copied => Ok(State(st.collected + [t], st.index[h := t], st.dir + {t}, st.leftovers))
            case Refused => if p.copyErrorSkips then Ok(st) else Err(CopyFailed(f.name, t))
            case FailedLeavingTarget =>
              if p.copyErrorSkips then Ok(st.(dir := st.dir + {t}, leftovers := st.leftovers + [t]))
              else Err(CopyFailed(f.name, t))
  }

  /** A step ends the run exactly on a hash failure the policy does not
      skip, on the move of an opaque name, or on a copy failure the policy
      does not skip. */
  lemma StepHalts(p: Policy, st: State, f: SourceFile)
    ensures Step(p, st, f).Err? <==> (
      && IsImageFile(f.name)
      && ((f.hash.None? && !p.hashErrorSkips) || MovedAway(p, st, f) ||
          (Fresh(st, f) && f.copy != Copied && !p.copyErrorSkips)))
  {
  }

  /** A fresh image that is copied is appended under its collision-free
      name, and its digest is recorded against that name. */
  lemma StepCopies(p: Policy, st: State, f: SourceFile)
    requires Fresh(st, f) && !MovedAway(p, st, f) && f.copy == Copied
    ensures var t := UniqueName(st.dir, f.name);
      && t !in st.dir
      && Step(p, st, f) == Ok(State(st.collected + [t], st.index[f.hash.value := t], st.dir + {t}, st.leftovers))
  {
  }

  /** The collection loop over the first `n` files of the walk, starting
      from an empty dictionary and the target directory's current entries. */
  function RunUpTo(p: Policy, dir0: set<string>, walk: seq<SourceFile>, n: nat): Result<State, Halt>
    requires n <= |walk|
  {
    if n == 0 then Ok(State([], map[], dir0, []))
    else
      match RunUpTo(p, dir0, walk, n - 1)
      case Err(e) => Err(e)
      case Ok(st) => Step(p, st, walk[n - 1])
  }

  /** The whole collection loop over a walk. */
  function Run(p: Policy, dir0: set<string>, walk: seq<SourceFile>): Result<State, Halt> {
    RunUpTo(p, dir0, walk, |walk|)
  }

  // ---------------------------------------------------------------- invariant

  /** What the loop keeps true: the directory is the initial entries plus
      the copies plus what failed copies left behind; recorded hashes and
      copies correspond one to one through the index; the
      copies are pairwise distinct, so are the leftovers, the two never share
      a name, and none of them replaces an entry that was already there. */
  predicate Inv(dir0: set<string>, st: State) {
    && st.dir == dir0 + Elems(st.collected) + Elems(st.leftovers)
    && OnePerDigest(st.collected, st.index)
    && Distinct(st.collected) && (forall i :: 0 <= i < |st.collected| ==> st.collected[i] !in dir0)
    && Distinct(st.leftovers) && (forall i :: 0 <= i < |st.leftovers| ==> st.leftovers[i] !in dir0)
    && Elems(st.collected) !! Elems(st.leftovers)
  }

  /** Recording a new digest against a name new to the directory keeps the
      invariant. */
  lemma AppendKeepsInv(dir0: set<string>, st: State, h: Hash, t: string)
    requires Inv(dir0, st) && h !in st.index && t !in st.dir
    ensures Inv(dir0, State(st.collected + [t], st.index[h := t], st.dir + {t}, st.leftovers))
  {
    var c := st.collected + [t];
    ElemsSnoc(st.collected, t);
    assert st.dir + {t} == dir0 + Elems(c) + Elems(st.leftovers);
    assert t !in Elems(st.collected);
    RecordKeepsIndex(st.collected, st.index, h, t);
    AppendDistinctNew(dir0, st.collected, t);
    assert Elems(c) !! Elems(st.leftovers);
  }

  /** The index pairs recorded digests with copies one to one: every entry
      points at a copy, distinct digests point at distinct copies, and every
      copy stands for some digest. */
  predicate OnePerDigest(c: seq<string>, index: map<Hash, string>) {
    |c| == |index.Keys| && PointsInto(index, c) && Injective(index) && Covers(c, index)
  }

  predicate PointsInto(index: map<Hash, string>, c: seq<string>) {
    forall h :: h in index ==> index[h] in c
  }

  predicate Injective(index: map<Hash, string>) {
    forall h, h' :: h in index && h' in index && index[h] == index[h'] ==> h == h'
  }

  /** Some recorded digest points at `x`. */
  predicate Named(index: map<Hash, string>, x: string) {
    exists h :: h in index && index[h] == x
  }

  predicate Covers(c: seq<string>, index: map<Hash, string>) {
    forall i :: 0 <= i < |c| ==> Named(index, c[i])
  }

  /** Recording a new digest against an appended copy of a new name keeps the
      index one to one. */
  lemma RecordKeepsIndex(c: seq<string>, index: map<Hash, string>, h: Hash, t: string)
    requires OnePerDigest(c, index) && h !in index && t !in c
    ensures OnePerDigest(c + [t], index[h := t])
  {
    assert index[h := t].Keys == index.Keys + {h};
    RecordKeepsInjective(c, index, h, t);
    RecordKeepsCovers(c, index, h, t);
  }

  lemma RecordKeepsInjective(c: seq<string>, index: map<Hash, string>, h: Hash, t: string)
    requires PointsInto(index, c) && Injective(index) && h !in index && t !in c
    ensures PointsInto(index[h := t], c + [t]) && Injective(index[h := t])
  {
  }

  lemma RecordKeepsCovers(c: seq<string>, index: map<Hash, string>, h: Hash, t: string)
    requires Covers(c, index) && h !in index
    ensures Covers(c + [t], index[h := t])
  {
    forall i | 0 <= i < |c + [t]|
      ensures Named(index[h := t], (c + [t])[i])
    {
      if i == |c| {
        assert index[h := t][h] == (c + [t])[i];
      } else {
        assert Named(index, c[i]);
        var g :| g in index && index[g] == c[i];
        assert index[h := t][g] == (c + [t])[i];
      }
    }
  }

  /** A failed copy leaving a name new to the directory behind keeps the
      invariant. */
  lemma LeaveKeepsInv(dir0: set<string>, st: State, t: string)
    requires Inv(dir0, st) && t !in st.dir
    ensures Inv(dir0, st.(dir := st.dir + {t}, leftovers := st.leftovers + [t]))
  {
    ElemsSnoc(st.leftovers, t);
    AppendDistinctNew(dir0, st.leftovers, t);
  }

  /** A name new to the directory keeps a list of new names distinct and
      new. */
  lemma AppendDistinctNew(dir0: set<string>, c: seq<string>, t: string)
    requires Distinct(c) && forall i :: 0 <= i < |c| ==> c[i] !in dir0
    requires t !in dir0 + Elems(c)
    ensures Distinct(c + [t]) && forall i :: 0 <= i < |c + [t]| ==> (c + [t])[i] !in dir0
  {
    var c' := c + [t];
    forall i, j | 0 <= i < j < |c'| ensures c'[i] != c'[j] {
      assert c'[i] == c[i];
      if j == |c| {
        assert c[i] in Elems(c);
      } else {
        assert c'[j] == c[j];
      }
    }
    forall i | 0 <= i < |c'| ensures c'[i] !in dir0 {
      if i < |c| {
        assert c'[i] == c[i];
      }
    }
  }

  lemma StepPreservesInv(p: Policy, dir0: set<string>, st: State, f: SourceFile)
    requires Inv(dir0, st)
    requires Step(p, st, f).Ok?
    ensures Inv(dir0, Step(p, st, f).value)
  {
    if Fresh(st, f) && !MovedAway(p, st, f) {
      var t := UniqueName(st.dir, f.name);
      if f.copy == Copied {
        AppendKeepsInv(dir0, st, f.hash.value, t);
      } else if f.copy == FailedLeavingTarget {
        LeaveKeepsInv(dir0, st, t);
      }
    }
  }

  /** After one step the dictionary holds a digest exactly when it held it
      before or the step copied a file carrying it. */
  lemma StepRecords(p: Policy, st: State, f: SourceFile, h: Hash)
    requires Step(p, st, f).Ok?
    ensures h in Step(p, st, f).value.index <==> h in st.index || Copyable(f, h)
  {
  }

  /** The walk starts with nothing copied, nothing recorded and nothing left
      behind. */
  lemma StartInv(dir0: set<string>)
    ensures Inv(dir0, State([], map[], dir0, []))
  {
  }

  lemma {:induction false} RunUpToInv(p: Policy, dir0: set<string>, walk: seq<SourceFile>, n: nat)
    requires n <= |walk| && RunUpTo(p, dir0, walk, n).Ok?
    ensures Inv(dir0, RunUpTo(p, dir0, walk, n).value)
  {
    if n == 0 {
      StartInv(dir0);
    } else {
      RunUpToInv(p, dir0, walk, n - 1);
      StepPreservesInv(p, dir0, RunUpTo(p, dir0, walk, n - 1).value, walk[n - 1]);
    }
  }

  /** Every successful run keeps the invariant, whichever policy it follows. */
  lemma RunInv(p: Policy, dir0: set<string>, walk: seq<SourceFile>)
    requires Run(p, dir0, walk).Ok?
    ensures Inv(dir0, Run(p, dir0, walk).value)
  {
    RunUpToInv(p, dir0, walk, |walk|);
  }

  /** The loop only ever stops, it never resumes: if it gets past `m` files
      it got past every `n <= m`. */
  lemma {:induction false} RunUpToPrefixOk(p: Policy, dir0: set<string>, walk: seq<SourceFile>, m: nat, n: nat)
    requires n <= m <= |walk| && RunUpTo(p, dir0, walk, m).Ok?
    ensures RunUpTo(p, dir0, walk, n).Ok?
    decreases m
  {
    if n < m {
      RunUpToPrefixOk(p, dir0, walk, m - 1, n);
    }
  }

  /** A run over a prefix of the walk succeeds whenever the whole run does. */
  lemma RunPrefixOk(p: Policy, dir0: set<string>, walk: seq<SourceFile>, n: nat)
    requires n <= |walk| && Run(p, dir0, walk).Ok?
    ensures RunUpTo(p, dir0, walk, n).Ok?
  {
    RunUpToPrefixOk(p, dir0, walk, |walk|, n);
  }

  // ---------------------------------------------------------------- first wins

  /** The walk holds an image with digest `h` whose copy succeeds. */
  predicate Copyable(f: SourceFile, h: Hash) {
    IsImageFile(f.name) && f.hash == Some(h) && f.copy == Copied
  }

  lemma {:induction false} RecordedUpTo(p: Policy, dir0: set<string>, walk: seq<SourceFile>, n: nat, h: Hash)
    requires n <= |walk| && RunUpTo(p, dir0, walk, n).Ok?
    ensures h in RunUpTo(p, dir0, walk, n).value.index <==> exists i :: 0 <= i < n && Copyable(walk[i], h)
  {
    if n > 0 {
      RecordedUpTo(p, dir0, walk, n - 1, h);
      StepRecords(p, RunUpTo(p, dir0, walk, n - 1).value, walk[n - 1], h);
    }
  }

  /** A digest ends up in the dictionary exactly when some image carrying it
      was copied successfully. */
  lemma RecordedIff(p: Policy, dir0: set<string>, walk: seq<SourceFile>, h: Hash)
    requires Run(p, dir0, walk).Ok?
    ensures h in Run(p, dir0, walk).value.index <==> exists i :: 0 <= i < |walk| && Copyable(walk[i], h)
  {
    RecordedUpTo(p, dir0, walk, |walk|, h);
  }

  /** The first copyable file with a digest records it against its target. */
  lemma FirstCopy(p: Policy, st: State, f: SourceFile, h: Hash)
    requires Copyable(f, h) && h !in st.index && Step(p, st, f).Ok?
    ensures h in Step(p, st, f).value.index
    ensures Step(p, st, f).value.index[h] == TargetFor(p, st.dir, f.name)
  {
  }

  /** A recorded digest keeps its entry. */
  lemma KeepsRecorded(p: Policy, st: State, f: SourceFile, h: Hash)
    requires h in st.index && Step(p, st, f).Ok?
    ensures h in Step(p, st, f).value.index
    ensures Step(p, st, f).value.index[h] == st.index[h]
  {
  }

  /** The step that reaches the first copyable file with digest `h` (at `i`)
      records `h` against that file's target. */
  lemma FirstWinsAt(p: Policy, dir0: set<string>, walk: seq<SourceFile>, h: Hash, i: nat)
    requires i < |walk| && RunUpTo(p, dir0, walk, i + 1).Ok?
    requires Copyable(walk[i], h)
    requires forall j :: 0 <= j < i ==> !Copyable(walk[j], h)
    ensures RunUpTo(p, dir0, walk, i).Ok?
    ensures h !in RunUpTo(p, dir0, walk, i).value.index
    ensures h in RunUpTo(p, dir0, walk, i + 1).value.index
    ensures RunUpTo(p, dir0, walk, i + 1).value.index[h] ==
      TargetFor(p, RunUpTo(p, dir0, walk, i).value.dir, walk[i].name)
  {
    RunUpToStep(p, dir0, walk, i + 1);
    RecordedUpTo(p, dir0, walk, i, h);
    FirstCopy(p, RunUpTo(p, dir0, walk, i).value, walk[i], h);
  }

  /** A digest recorded after `m` files keeps its entry through every later
      step. */
  lemma {:induction false} RecordedStays(p: Policy, dir0: set<string>, walk: seq<SourceFile>, h: Hash, m: nat, n: nat)
    requires m <= n <= |walk| && RunUpTo(p, dir0, walk, n).Ok?
    requires RunUpTo(p, dir0, walk, m).Ok? && h in RunUpTo(p, dir0, walk, m).value.index
    ensures h in RunUpTo(p, dir0, walk, n).value.index
    ensures RunUpTo(p, dir0, walk, n).value.index[h] == RunUpTo(p, dir0, walk, m).value.index[h]
    decreases n
  {
    if m < n {
      RunUpToStep(p, dir0, walk, n);
      RecordedStays(p, dir0, walk, h, m, n - 1);
      KeepsRecorded(p, RunUpTo(p, dir0, walk, n - 1).value, walk[n - 1], h);
    }
  }

  lemma RunUpToStep(p: Policy, dir0: set<string>, walk: seq<SourceFile>, n: nat)
    requires 0 < n <= |walk| && RunUpTo(p, dir0, walk, n).Ok?
    ensures RunUpTo(p, dir0, walk, n - 1).Ok?
    ensures Step(p, RunUpTo(p, dir0, walk, n - 1).value, walk[n - 1]) == RunUpTo(p, dir0, walk, n)
  {
  }

  /** The first copyable file with a given digest is the one that survives:
      the dictionary maps the digest to the name that file was copied to, and
      every later file with the same digest is skipped. */
  lemma FirstWins(p: Policy, dir0: set<string>, walk: seq<SourceFile>, h: Hash, i: nat)
    requires Run(p, dir0, walk).Ok?
    requires i < |walk| && Copyable(walk[i], h)
    requires forall j :: 0 <= j < i ==> !Copyable(walk[j], h)
    ensures RunUpTo(p, dir0, walk, i).Ok?
    ensures h !in RunUpTo(p, dir0, walk, i).value.index
    ensures h in Run(p, dir0, walk).value.index
    ensures Run(p, dir0, walk).value.index[h] ==
      TargetFor(p, RunUpTo(p, dir0, walk, i).value.dir, walk[i].name)
  {
    assert RunUpTo(p, dir0, walk, i).Ok? && h !in RunUpTo(p, dir0, walk, i).value.index &&
      RunUpTo(p, dir0, walk, i + 1).Ok? && h in RunUpTo(p, dir0, walk, i + 1).value.index &&
      RunUpTo(p, dir0, walk, i + 1).value.index[h] == TargetFor(p, RunUpTo(p, dir0, walk, i).value.dir, walk[i].name) by {
      RunPrefixOk(p, dir0, walk, i + 1);
      FirstWinsAt(p, dir0, walk, h, i);
    }
    RecordedStays(p, dir0, walk, h, i + 1, |walk|);
  }

  /** A later file whose digest is already recorded is neither copied nor
      recorded again: the state is untouched. */
  lemma DuplicateSkipped(p: Policy, st: State, f: SourceFile)
    requires f.hash.Some? && f.hash.value in st.index
    ensures Step(p, st, f) == Ok(st)
  {
  }

  /** The collected copies are all different, all new to the target
      directory, and one per recorded digest, in every variant. */
  lemma NoOverwrite(p: Policy, dir0: set<string>, walk: seq<SourceFile>)
    requires Run(p, dir0, walk).Ok?
    ensures var st := Run(p, dir0, walk).value;
      Distinct(st.collected) && (forall i :: 0 <= i < |st.collected| ==> st.collected[i] !in dir0)
      && |st.collected| == |st.index.Keys|
      && (forall h, h' :: h in st.index && h' in st.index && st.index[h] == st.index[h'] ==> h == h')
      && (forall i :: 0 <= i < |st.collected| ==> exists h :: h in st.index && st.index[h] == st.collected[i])
  {
    RunInv(p, dir0, walk);
  }

  /** A failed copy under the tolerant policy leaves the digest unrecorded,
      so a later identical file can still be copied. */
  lemma FailedCopyLeavesHashFree(st: State, f: SourceFile, g: SourceFile)
    requires Fresh(st, f) && f.copy != Copied
    requires IsImageFile(g.name) && g.hash == f.hash && g.copy == Copied
    ensures var r := Step(TolerantPolicy, st, f);
      r.Ok? && r.value.collected == st.collected && r.value.index == st.index
    ensures var r := Step(TolerantPolicy, Step(TolerantPolicy, st, f).value, g);
      r.Ok? && |r.value.collected| == |st.collected| + 1 && f.hash.value in r.value.index
  {
  }

  /** A failed copy that left its target behind under the tolerant policy
      occupies that name: the next file with the same name is sent to a
      different one. */
  lemma LeftoverTakesName(st: State, f: SourceFile)
    requires Fresh(st, f) && f.copy == FailedLeavingTarget
    ensures var r := Step(TolerantPolicy, st, f);
      && r.Ok?
      && UniqueName(st.dir, f.name) in r.value.dir
      && UniqueName(r.value.dir, f.name) != UniqueName(st.dir, f.name)
  {
  }

  /** A run that got past `n` files takes its next step from there. */
  lemma RunUpToNext(p: Policy, dir0: set<string>, walk: seq<SourceFile>, n: nat)
    requires n < |walk| && RunUpTo(p, dir0, walk, n).Ok?
    ensures RunUpTo(p, dir0, walk, n + 1) == Step(p, RunUpTo(p, dir0, walk, n).value, walk[n])
  {
  }

  /** Once a run has stopped it stays stopped with the same halt. */
  lemma {:induction false} HaltStays(p: Policy, dir0: set<string>, walk: seq<SourceFile>, m: nat, n: nat)
    requires m <= n <= |walk| && RunUpTo(p, dir0, walk, m).Err?
    ensures RunUpTo(p, dir0, walk, n) == RunUpTo(p, dir0, walk, m)
    decreases n
  {
    if m < n {
      HaltStays(p, dir0, walk, m, n - 1);
    }
  }

  /** A fresh opaque image under a prefixing policy ends the run, with or
      without a successful move. */
  lemma StepMoves(p: Policy, st: State, f: SourceFile)
    requires MovedAway(p, st, f)
    ensures var t := PrefixedName(DefaultPrefix, f.name);
      Step(p, st, f) == if f.moveOk then Err(SourceMoved(f.name, t)) else Err(MoveFailed(f.name, t))
  {
  }

  /** Under `ImageProcessor`'s policy the first fresh opaque image ends the
      run: its source is moved to the prefixed name, whatever the target
      directory holds there, and the copy that follows finds no source. */
  lemma PrefixedMoveEndsRun(dir0: set<string>, walk: seq<SourceFile>, i: nat)
    requires i < |walk| && RunUpTo(ProcessorPolicy, dir0, walk, i).Ok?
    requires Fresh(RunUpTo(ProcessorPolicy, dir0, walk, i).value, walk[i]) && IsOpaqueName(walk[i].name)
    ensures var t := PrefixedName(DefaultPrefix, walk[i].name);
      Run(ProcessorPolicy, dir0, walk) ==
        if walk[i].moveOk then Err(SourceMoved(walk[i].name, t)) else Err(MoveFailed(walk[i].name, t))
  {
    var st := RunUpTo(ProcessorPolicy, dir0, walk, i).value;
    RunUpToNext(ProcessorPolicy, dir0, walk, i);
    StepMoves(ProcessorPolicy, st, walk[i]);
    HaltStays(ProcessorPolicy, dir0, walk, i + 1, |walk|);
  }

  /** The move to the prefixed name makes no existence check: the step's
      outcome is the same whether or not the directory already holds that
      name. */
  lemma PrefixedMoveIgnoresDirectory(st: State, f: SourceFile)
    requires Fresh(st, f) && IsOpaqueName(f.name)
    ensures var t := PrefixedName(DefaultPrefix, f.name);
      Step(ProcessorPolicy, st, f) == Step(ProcessorPolicy, st.(dir := st.dir + {t}), f)
  {
    var t := PrefixedName(DefaultPrefix, f.name);
    StepMoves(ProcessorPolicy, st, f);
    StepMoves(ProcessorPolicy, st.(dir := st.dir + {t}), f);
  }
}
