/** The four variants end to end: the configuration checks, collection with
    deduplication, dating, the stable sort, the rename plan and its
    application. What the variants share is modelled once; each variant is a
    choice of policies. */
module Pipeline {
  import opened Results
  import opened Text
  import opened DateTimes
  import opened DateResolution
  import opened Collection
  import opened RenamePlanner
  import opened SourceFolders

  datatype Variant =
    | Processor   // images_processor.py, class ImageProcessor
    | MergeGui    // reconstruct_process/images_merge_and_rename.py
    | Tolerant    // reconstruct_process/images_processor.py
    | Script      // reconstruct_process/image_merge_and_rename.py

  function PolicyOf(v: Variant): Policy {
    match v
    case Processor => ProcessorPolicy
    case MergeGui => MergeGuiPolicy
    case Tolerant => TolerantPolicy
    case Script => ScriptPolicy
  }

  /** Only the script tries the file name before EXIF. */
  function ChainOf(v: Variant): ChainOrder {
    if v == Script then NameFirst else ExifFirst
  }

  /** A raising `getmtime` is caught per file by the merge GUI and the
      script; the other two let it end the run. */
  function DateErrorOf(v: Variant): DateErrorPolicy {
    if v == MergeGui || v == Script then DropFile else AbortOnDate
  }

  /** Only `ImageProcessor` turns a failed rename into a raised
      `ImageRenameError`. */
  function RenameErrorOf(v: Variant): RenameErrorPolicy {
    if v == Processor then AbortOnRename else ContinueOnRename
  }

  /** The script's `main` has its folders hard-coded and checks nothing. */
  predicate Guarded(v: Variant) {
    v != Script
  }

  /** EXIF and modification time of a file in the target directory. */
  datatype FileMeta = FileMeta(exif: Option<Date>, mtime: Option<Date>)

  /** Everything the pipeline learns from outside: the files `os.walk`
      yields for each source folder, the target directory's entries before
      the run, what dating reads from each collected file, and whether the
      i-th `os.rename` is refused. */
  datatype World = World(
    walkOf: string -> seq<SourceFile>,
    dir0: set<string>,
    meta: string -> FileMeta,
    renameOk: nat -> bool)

  /** The files of all source folders, folder after folder. */
  function Walk(folders: seq<string>, walkOf: string -> seq<SourceFile>): seq<SourceFile> {
    if |folders| == 0 then [] else Walk(folders[..|folders| - 1], walkOf) + walkOf(folders[|folders| - 1])
  }

  /** Each collected file with the outcome of dating it. */
  function Entries(order: ChainOrder, collected: seq<string>, meta: string -> FileMeta): (r: seq<Entry>)
    ensures |r| == |collected|
    ensures forall i :: 0 <= i < |r| ==>
      r[i].name == collected[i] &&
      r[i].date == Resolve(order, collected[i], meta(collected[i]).exif, meta(collected[i]).mtime)
  {
    seq(|collected|, i requires 0 <= i < |collected| =>
      Entry(collected[i], Resolve(order, collected[i], meta(collected[i]).exif, meta(collected[i]).mtime)))
  }

  datatype Outcome =
    | Rejected(reason: ConfigError)
    | CollectionHalted(halt: Halt)
    | DatingHalted(name: string)
    | Finished(collected: seq<string>, plan: seq<Rename>, applied: Applied)

  /** Dating, sorting and planning for a collected list. */
  function PlanFor(v: Variant, collected: seq<string>, meta: string -> FileMeta): Result<seq<Rename>, string> {
    match DateAll(DateErrorOf(v), Entries(ChainOf(v), collected, meta))
    case Err(name) => Err(name)
    case Ok(dated) => Ok(Plan(SortByDate(dated)))
  }

  /** `process_images` of a variant (the script's `main`). */
  function ProcessImages(v: Variant, c: Config, w: World): (o: Outcome)
    ensures Guarded(v) && CheckConfig(c).Some? ==> o == Rejected(CheckConfig(c).value)
    ensures o.Rejected? ==> Guarded(v)
  {
    if Guarded(v) && CheckConfig(c).Some? then Rejected(CheckConfig(c).value)
    else
      match Run(PolicyOf(v), w.dir0, Walk(c.sourceFolders, w.walkOf))
      case Err(h) => CollectionHalted(h)
      case Ok(st) =>
        match PlanFor(v, st.collected, w.meta)
        case Err(name) => DatingHalted(name)
        case Ok(plan) => Finished(st.collected, plan, Apply(RenameErrorOf(v), st.dir, plan, w.renameOk))
  }

  // ---------------------------------------------------------------- lemmas

  /** A rejected configuration is rejected before any folder is walked: the
      outcome does not depend on the world at all. */
  lemma GuardsBeforeCollection(v: Variant, c: Config, w1: World, w2: World)
    requires Guarded(v) && CheckConfig(c).Some?
    ensures ProcessImages(v, c, w1) == ProcessImages(v, c, w2)
  {
  }

  /** A plan renames only the files it was given, numbers them densely from
      1, and never plans one name twice. */
  lemma PlanForShape(v: Variant, collected: seq<string>, meta: string -> FileMeta)
    requires PlanFor(v, collected, meta).Ok?
    ensures var plan := PlanFor(v, collected, meta).value;
      && |plan| <= |collected|
      && (forall i :: 0 <= i < |plan| ==> plan[i].source in collected)
      && (forall i :: 0 <= i < |plan| ==> SequenceNumber(plan[i].target) == i + 1)
      && (forall i, j :: 0 <= i < j < |plan| ==> plan[i].target != plan[j].target)
  {
    var entries := Entries(ChainOf(v), collected, meta);
    var dated := DateAll(DateErrorOf(v), entries).value;
    var sorted := SortByDate(dated);
    PlanProperties(sorted);
    DatedBound(dated, |entries|);
    SortByDateElements(dated);
    DatedNamesCollected(v, collected, meta);
  }

  /** Every dated file is one of the collected files. */
  lemma DatedNamesCollected(v: Variant, collected: seq<string>, meta: string -> FileMeta)
    requires DateAll(DateErrorOf(v), Entries(ChainOf(v), collected, meta)).Ok?
    ensures var dated := DateAll(DateErrorOf(v), Entries(ChainOf(v), collected, meta)).value;
      forall k :: 0 <= k < |dated| ==> dated[k].name in collected
  {
    var entries := Entries(ChainOf(v), collected, meta);
    var dated := DateAll(DateErrorOf(v), entries).value;
    forall k | 0 <= k < |dated| ensures dated[k].name in collected {
      assert collected[dated[k].pos] == dated[k].name;
    }
  }

  /** A finished run renames only collected files, numbers them densely
      from 1, never plans one name twice. */
  lemma FinishedPlanShape(v: Variant, c: Config, w: World)
    requires ProcessImages(v, c, w).Finished?
    ensures var o := ProcessImages(v, c, w);
      && |o.plan| <= |o.collected|
      && (forall i :: 0 <= i < |o.plan| ==> o.plan[i].source in o.collected)
      && (forall i :: 0 <= i < |o.plan| ==> SequenceNumber(o.plan[i].target) == i + 1)
      && (forall i, j :: 0 <= i < j < |o.plan| ==> o.plan[i].target != o.plan[j].target)
  {
    var o := ProcessImages(v, c, w);
    assert o.plan == PlanFor(v, o.collected, w.meta).value;
    PlanForShape(v, o.collected, w.meta);
  }

  /** Strictly increasing positions below `n` number at most `n`. */
  lemma {:induction false} DatedBound(dated: seq<Dated>, n: nat)
    requires forall k :: 0 <= k < |dated| ==> dated[k].pos < n
    requires forall k, m :: 0 <= k < m < |dated| ==> dated[k].pos < dated[m].pos
    ensures |dated| <= n
  {
    if |dated| > 0 {
      var last := dated[|dated| - 1];
      DatedBound(dated[..|dated| - 1], last.pos);
    }
  }

  /** The variants that end the run on a dating failure plan every collected
      file when they finish. */
  lemma AbortingVariantsPlanAll(v: Variant, c: Config, w: World)
    requires DateErrorOf(v) == AbortOnDate
    requires ProcessImages(v, c, w).Finished?
    ensures |ProcessImages(v, c, w).plan| == |ProcessImages(v, c, w).collected|
  {
    var o := ProcessImages(v, c, w);
    assert o.plan == PlanFor(v, o.collected, w.meta).value;
    var entries := Entries(ChainOf(v), o.collected, w.meta);
    DateAllComplete(AbortOnDate, entries);
    var dated := DateAll(AbortOnDate, entries).value;
    assert |SortByDate(dated)| == |multiset(SortByDate(dated))| == |multiset(dated)| == |dated|;
  }

  /** A collected file is dated whenever its modification time can be read,
      whatever the chain; so the dropping variants drop only files whose
      `getmtime` raised and which had no other date. */
  lemma DatedWithMtime(order: ChainOrder, name: string, m: FileMeta)
    requires m.mtime.Some?
    ensures Resolve(order, name, m.exif, m.mtime).Some?
  {
  }

  /** The variants that print rename failures attempt every planned rename;
      `ImageProcessor` stops at the first failure. */
  lemma RenameFailuresByVariant(v: Variant, c: Config, w: World)
    requires ProcessImages(v, c, w).Finished?
    ensures var o := ProcessImages(v, c, w);
      v != Processor ==> |o.applied.done| + |o.applied.failed| == |o.plan|
    ensures var o := ProcessImages(v, c, w);
      v == Processor ==> |o.applied.failed| <= 1 && o.applied.done == o.plan[..|o.applied.done|]
  {
  }

  /** Collection in every variant makes pairwise distinct copies and never
      replaces an entry the target directory had. */
  lemma CollectedDistinctAndNew(v: Variant, c: Config, w: World)
    requires ProcessImages(v, c, w).Finished?
    ensures var o := ProcessImages(v, c, w);
      Distinct(o.collected) && forall i :: 0 <= i < |o.collected| ==> o.collected[i] !in w.dir0
  {
    NoOverwrite(PolicyOf(v), w.dir0, Walk(c.sourceFolders, w.walkOf));
  }
}
