# Photo merge and rename: a Dafny model

A model of the core of `image_batch_process`, a small set of Python tools. They
gather photos from several source folders into one target folder and give the
gathered photos chronological names. A second tool removes `name(1).jpg`
copies that sit next to their `name.jpg` original.

The merge pipeline appears in four variants that share one algorithm and
differ in how they react to failures:

- `ImageProcessor` (images_processor.py);
- the merge GUI (reconstruct_process/images_merge_and_rename.py);
- the tolerant GUI (reconstruct_process/images_processor.py);
- the plain script (reconstruct_process/image_merge_and_rename.py).

Each variant runs these stages:

1. It checks that source folders and a target folder were chosen.
2. It walks every source folder and keeps the files whose lower-cased name
   ends in `.jpg`, `.jpeg`, `.png`, `.gif` or `.bmp`.
3. It copies each file whose MD5 digest has not been seen into the target
   folder. A file whose name is taken gets a name with an `_n` counter.
4. It dates every copy. The class variants try EXIF, then the leftmost
   date-like run in the name, then the modification time. The script tries the
   name first.
5. It sorts the copies stably by date.
6. It renames the k-th copy to `kkkk_<yyyymmdd_HHMMSS><ext>`. The time string
   is the leftmost `\d{8}_\d{6}` in the old name, or else the formatted date.

`ImageProcessor` also routes names whose stem is only ASCII letters and digits
to a marker-prefixed name. It does this by moving the source file there with
`os.rename`, so the `copy2` that follows finds no source and the run ends.

The modules follow the program's pieces:

| module | file | what it holds |
|---|---|---|
| `Results` | results.dfy | `Option` and `Result` |
| `Text` | text.dfy | digits, `str(n)`, `%0Nd`, ASCII lower-casing, `os.path.splitext` |
| `ImageNames` | image_names.dfy | extension filter, opaque-name test, prefixed name |
| `TargetAllocator` | target_allocator.dfy | the `_n` counter loop |
| `DateTimes` | date_times.dfy | `datetime` validity, order, `%Y%m%d_%H%M%S` |
| `FilenameDates` | filename_dates.dfy | the date regex and `re.search`, the time-string regex |
| `DateResolution` | date_resolution.dfy | the two fallback chains |
| `Collection` | collection.dfy | the collection loop with first-wins deduplication, per failure policy |
| `RenamePlanner` | rename_planner.dfy | dating, stable sort, new names, applying the renames |
| `SourceFolders` | source_folders.dfy | the folder list and the configuration checks |
| `Pipeline` | pipeline.dfy | the four variants end to end |
| `DuplicateDeleter` | duplicate_deleter.dfy | the `(n)` pattern and the deletion pass |

Everything the program learns from outside becomes an input:

- what `os.walk` yields;
- each file's digest (absent when hashing raised);
- what its copy does: succeed, fail before creating the target, or fail after
  creating it;
- whether the move of an opaque name to its prefixed path succeeds;
- the target folder's entries;
- EXIF and modification dates (absent when reading them raised);
- which renames the operating system refuses.

The variants' differences are data:

| variant | hash error | copy error | date error | rename error | guards | chain | prefixing |
|---|---|---|---|---|---|---|---|
| `ImageProcessor` | skip file | end run | end run | end run | yes | EXIF first | moves, then ends run |
| merge GUI | end run | end run | drop file | continue | yes | EXIF first | no |
| tolerant GUI | skip file | skip file | end run | continue | yes | EXIF first | no |
| script | end run | end run | drop file | continue | no | name first | no |

## Model

| member | source | states |
|---|---|---|
| `Text.SplitExt` | images_processor.py:257 | the two parts concatenate to the name; a non-empty extension is the last dot plus dot-free text with something other than dots before it; an empty extension means every dot is in a leading run of dots |
| `Text.DecimalInjective` | images_processor.py:258 | distinct counters give distinct `str(counter)` renderings |
| `Text.PadToRoundTrip` | images_processor.py:276 | reading a `%04d` field back yields the number written, also past four digits |
| `Text.PadToWidth` | reconstruct_process/images_merge_and_rename.py:172 | a number up to 9999 fills its four-character field exactly |
| `ImageNames.ImageFileExtension` | images_processor.py:210-211 | an accepted name has a dot; its `splitext` extension lower-cases to one of the five suffixes unless only dots precede that dot |
| `ImageNames.PrefixedNameKeepsImage` | images_processor.py:342-343 | prefixing a name with `marker_` keeps it an image exactly when it was one |
| `ImageNames.PrefixedNameNotOpaque` | images_processor.py:348-357 | a prefixed name never passes the opaque-name test again |
| `ImageNames.PrefixedNameSplit` | images_processor.py:342-344 | for an opaque name the prefixed name keeps the extension verbatim, and its stem is `marker_` plus the old stem |
| `TargetAllocator.CandidatesDistinct` | images_processor.py:256-259 | the loop never probes one name twice, since suffixes are built from the original stem each time |
| `TargetAllocator.TriedBound` | reconstruct_process/images_processor.py:134-139 | if the first n probes all hit, the folder has at least n entries, so the loop ends |
| `TargetAllocator.FreeCounter` | reconstruct_process/image_merge_and_rename.py:128-134 | the stopping counter's name is free and every earlier probe was taken |
| `TargetAllocator.UniqueName` | images_processor.py:254-260 | the allocated name is not in the folder; it is the file's own name when that is free, otherwise the free `stem_k.ext` with the smallest k |
| `TargetAllocator.AllocateTarget` | reconstruct_process/images_merge_and_rename.py:139-146 | the loop as written returns a free name, namely the candidate at the first free counter |
| `TargetAllocator.StopCounterUnique` | reconstruct_process/image_merge_and_rename.py:125-134 | two counters that are both free with all earlier probes taken are equal |
| `DateTimes.BeforeStrictTotal` | images_processor.py:271 | comparing datetimes is irreflexive, transitive, asymmetric and total on distinct values |
| `DateTimes.FormatRoundTrip` | images_processor.py:299 | `strftime("%Y%m%d_%H%M%S")` has the `\d{8}_\d{6}` shape and each field reads back as the date's field |
| `FilenameDates.MatchIsGreedy` | images_processor.py:139-141 | every way the date pattern can match at a position is the greedy one, so a match's groups are unique |
| `FilenameDates.MatchAt` | reconstruct_process/images_processor.py:88-92 | the pattern matches at a position exactly when some separator layout fits there, and the groups are read from that layout |
| `FilenameDates.LeftmostDate` | images_processor.py:142 | `re.search` reports a matching position with no match before it, or none when no position matches |
| `FilenameDates.FilenameDate` | images_processor.py:142-148 | a name yields a date exactly when the leftmost match is a valid calendar date, and then it is that date |
| `FilenameDates.FilenameDateAtFirstMatch` | images_processor.py:139-148 | when the pattern first matches at a position with some separator layout, a date comes out exactly when that match's six groups form a valid calendar date, and it is that date |
| `FilenameDates.NoMatchNoDate` | images_processor.py:142-143 | a name on which the pattern matches at no position gives no date |
| `FilenameDates.RangeCheckRedundant` | reconstruct_process/image_merge_and_rename.py:41-51 | the script's month/day range check rejects nothing `datetime` would accept, so both readings agree on every name |
| `FilenameDates.TimeString` | images_processor.py:298-299 | the result has the time-string shape; it is the leftmost `\d{8}_\d{6}` run when there is one, otherwise the formatted date |
| `FilenameDates.FormattedNameParses` | reconstruct_process/images_merge_and_rename.py:107-113 | a name that starts with a formatted date reads back as that date |
| `DateResolution.ResolveExifFirst` | images_processor.py:126-151 | the result is the first present date in the list EXIF, filename date, modification time; the list-based reference `FirstPresent` is absent exactly when every source is, and otherwise returns a source with only absent ones before it |
| `DateResolution.ResolveNameFirst` | reconstruct_process/image_merge_and_rename.py:36-65 | the range-checked reading taken first agrees with the first present date in the list filename date, EXIF, modification time |
| `DateResolution.Resolve` | reconstruct_process/images_merge_and_rename.py:95-117 | a date is found exactly when one of the three sources gives one; with a readable modification time one always is; the result comes from one of the sources |
| `DateResolution.ChainsAgreeWithoutExif` | reconstruct_process/images_processor.py:76-97 | without EXIF data both chain orders give the same date |
| `DateResolution.ChainsDisagree` | reconstruct_process/image_merge_and_rename.py:36-60 | with EXIF and a different valid filename date, the class variants and the script pick different dates |
| `DateResolution.LeftmostMatchDecides` | reconstruct_process/images_merge_and_rename.py:108-117 | a name whose first date-like run is invalid falls through to the modification time, though a later run is a valid date |
| `Collection.TargetFor` | images_processor.py:318-320 | under prefixing an opaque name goes to the prefixed name; otherwise the target is the allocated free name |
| `Collection.Step` | reconstruct_process/images_processor.py:122-146 | non-images and known digests change nothing; a changed state comes from a fresh image that was not moved and whose copy was not refused |
| `Collection.StepHalts` | reconstruct_process/images_merge_and_rename.py:134-150 | a step ends the run exactly on a hash failure the policy does not skip, on the move of an opaque name under prefixing, or on a copy failure the policy does not skip |
| `Collection.StepCopies` | images_processor.py:318-325 | a fresh, not moved image whose copy succeeds goes to the allocated name, which was free; it is appended and its digest recorded against that name |
| `Collection.StepRecords` | images_processor.py:323-325 | after a step a digest is recorded exactly when it was before or the step copied a file with it |
| `Collection.RunInv` | reconstruct_process/images_merge_and_rename.py:126-152 | every finished collection keeps its invariant: folder = initial entries + copies + targets left by failed copies; recorded digests and copies correspond one to one (each digest names a copy, distinct digests name distinct copies, every copy stands for a digest); copies and leftovers are each distinct, new, and never share a name |
| `Collection.RunPrefixOk` | reconstruct_process/image_merge_and_rename.py:117-138 | when a whole walk finishes, so does each prefix of it |
| `Collection.RecordedIff` | images_processor.py:238-241 | a digest is recorded exactly when some image with that digest was copied successfully |
| `Collection.FirstWins` | reconstruct_process/image_merge_and_rename.py:124-138 | the digest's entry names the target of the first copyable file with that digest, allocated against the folder as it was when that file was reached |
| `Collection.RecordedStays` | images_processor.py:238-241 | once a digest is recorded, every later step keeps its entry unchanged |
| `Collection.DuplicateSkipped` | reconstruct_process/image_merge_and_rename.py:140-141 | a file whose digest is recorded leaves the state untouched |
| `Collection.NoOverwrite` | reconstruct_process/images_merge_and_rename.py:138-150 | in every variant no copy replaces an existing entry or another copy, as many copies as recorded digests, distinct digests never share a copy and every copy is the dictionary entry of some digest |
| `Collection.FailedCopyLeavesHashFree` | reconstruct_process/images_processor.py:141-146 | a failed copy in the tolerant variant collects and records nothing, so a later identical file is still copied |
| `Collection.LeftoverTakesName` | reconstruct_process/images_processor.py:132-146 | a failed copy that left its target behind puts that name in the folder, so the next file with the same name is sent elsewhere |
| `Collection.PrefixedMoveEndsRun` | images_processor.py:318-346 | the first fresh opaque image ends an `ImageProcessor` run: its source was moved to the prefixed name, or the move failed |
| `Collection.PrefixedMoveIgnoresDirectory` | images_processor.py:342-345 | the move to the prefixed name checks nothing: the outcome is the same whether or not the folder holds that name |
| `RenamePlanner.DateAll` | reconstruct_process/images_merge_and_rename.py:155-161 | dating fails exactly when the policy ends the run and some file has no date; otherwise each surviving file keeps its position and date, positions increase, and no datable file is lost |
| `RenamePlanner.DateAllComplete` | reconstruct_process/images_processor.py:156-159 | when every file is datable, the dated list is the collected list position for position |
| `RenamePlanner.SortByDate` | images_processor.py:271 | the result is a permutation of the input, ordered by date and by collected position among equal dates |
| `RenamePlanner.SortedUnique` | reconstruct_process/images_processor.py:161 | two lists sorted under that stable order with the same elements are equal, so any stable sort gives this plan |
| `RenamePlanner.NumberRoundTrip` | images_processor.py:276 | the sequence number written into a new name is the one its leading digits spell |
| `RenamePlanner.NewNamesDistinct` | reconstruct_process/images_merge_and_rename.py:172 | different sequence numbers give different names, whatever the files |
| `RenamePlanner.ExtensionPreserved` | reconstruct_process/images_merge_and_rename.py:171-172 | the new name's `splitext` extension is the old one, letter case included |
| `RenamePlanner.TimeStringStable` | reconstruct_process/image_merge_and_rename.py:88-95 | renaming an already renamed file keeps its time string |
| `RenamePlanner.Plan` | images_processor.py:273-277 | one rename per sorted file, in sorted order, from that file's name |
| `RenamePlanner.PlanProperties` | reconstruct_process/images_processor.py:163-171 | the plan numbers files densely from 1, keeps every extension and never plans one target twice |
| `RenamePlanner.PlanTimeStrings` | reconstruct_process/images_processor.py:164-167 | each planned name carries the old name's leftmost time string, or the formatted date when there is none |
| `RenamePlanner.Apply` | images_processor.py:279-282 | with `ImageProcessor` the renames done are a prefix of the plan and the first failure ends the run; with the other variants every rename is attempted and counted as done or failed |
| `RenamePlanner.ApplyAccounts` | reconstruct_process/images_processor.py:173-176 | when failures are printed and skipped, every planned rename is either done or failed |
| `RenamePlanner.ApplyAllSucceed` | reconstruct_process/images_merge_and_rename.py:175-178 | when every rename succeeds on fresh targets, the folder is the old one with the sources replaced by the targets |
| `SourceFolders.AddFolder` | images_processor.py:75-76 | a non-empty new folder is appended and nothing else changes; an empty or known folder leaves the list as it was |
| `SourceFolders.RemoveFolder` | images_processor.py:85-86 | an in-range index drops exactly that entry, keeping the order; any other index changes nothing |
| `SourceFolders.AddKeepsDistinct` | reconstruct_process/images_merge_and_rename.py:63-64 | adding never makes the list hold a folder twice |
| `SourceFolders.RemoveKeepsDistinct` | reconstruct_process/images_merge_and_rename.py:67-72 | removing never makes the list hold a folder twice |
| `SourceFolders.RemoveUndoesAdd` | images_processor.py:69-87 | removing the entry just added restores the list |
| `SourceFolders.AddIdempotent` | reconstruct_process/images_processor.py:26-27 | adding the same folder twice is the same as adding it once |
| `SourceFolders.CheckConfig` | images_processor.py:106-109 | an empty source list is reported first, then a missing target, and a configuration passes exactly when both are set |
| `DuplicateDeleter.ShapeUnique` | batch_delete_duplicate_image.py:27 | the pattern can match a name in at most one way: the last dot, and the `(` before the digits ahead of `)` |
| `DuplicateDeleter.MatchCopyName` | batch_delete_duplicate_image.py:37-39 | the name matches exactly when it has the `base(digits).ext` shape, and the original is `base` + `.ext` |
| `DuplicateDeleter.OriginalShorter` | batch_delete_duplicate_image.py:39 | the original's name is at least three characters shorter than the copy's, so a file is never compared with itself |
| `DuplicateDeleter.MatchUndoesMarker` | delete_process/batch_delete_duplicate_image.py:26-39 | inserting `(digits)` before an extension is undone by the match |
| `DuplicateDeleter.DeleteDuplicates` | batch_delete_duplicate_image.py:16-50 | the result is the pass `PassUpTo` over the whole listing; only listed regular files whose original was listed are removed; other entries keep their sizes; each removed copy leaves a shorter same-size name behind; at the end no listed name still meets the rule |
| `DuplicateDeleter.DecidedAt` | batch_delete_duplicate_image.py:29-50 | in a listing without repeats a name is removed exactly when the rule holds for it in the folder as the earlier iterations left it |
| `DuplicateDeleter.RemovedOriginalProtects` | delete_process/batch_delete_duplicate_image.py:42-50 | a copy whose original was removed earlier in the pass is kept at the end, though the snapshot lists the original |
| `DuplicateDeleter.OnlyMatchingFilesDeleted` | delete_process/batch_delete_duplicate_image.py:32-38 | names that are not regular files, do not match, or whose original was not listed are never removed |
| `DuplicateDeleter.CopyOfRemovedCopyListing` | batch_delete_duplicate_image.py:37-50 | in the folder `a(1).jpg`, `a(1)(2).jpg`, `a.jpg` of one size, listed in that order, only `a(1).jpg` is removed |
| `Pipeline.ProcessImages` | images_processor.py:98-113 | a guarded variant with a bad configuration is rejected with the first failing check, and only guarded variants reject |
| `Pipeline.GuardsBeforeCollection` | reconstruct_process/images_processor.py:56-61 | a rejected configuration is rejected whatever the folders hold |
| `Pipeline.FinishedPlanShape` | reconstruct_process/images_merge_and_rename.py:88-90 | a finished run renames only collected files, numbers them densely from 1 and never plans one name twice |
| `Pipeline.AbortingVariantsPlanAll` | images_processor.py:268-270 | the variants that end the run on a dating failure plan every collected file when they finish |
| `Pipeline.DatedWithMtime` | reconstruct_process/image_merge_and_rename.py:64-65 | a file with a readable modification time is always dated, whatever the chain |
| `Pipeline.RenameFailuresByVariant` | reconstruct_process/image_merge_and_rename.py:98-103 | the printing variants attempt every planned rename; `ImageProcessor` stops at its first failure |
| `Pipeline.CollectedDistinctAndNew` | reconstruct_process/image_merge_and_rename.py:155-173 | every variant that finishes has collected distinct copies, none of which replaces an entry the target folder had |

## Left out

- User interfaces: the tkinter windows, dialogs and list boxes, the observer notifications, message boxes and `print` output are not modelled. A dialog's answer is a plain argument; a message box ending a run is an outcome.
- `select_target_folder` only stores its argument, so it is not modelled as an operation; the target folder is a field of `SourceFolders.Config`.
- The GUI `remove_folder` removes the list-box selection's index. The model takes that index as a parameter, as `ImageProcessor.remove_folder` does.
- MD5 (RFC 1321) is not modelled: a digest is an opaque string compared for equality, or absent when reading the file raised.
- EXIF extraction (PIL, piexif, `strptime` of the `DateTime` tag) is not modelled: its outcome is an optional date per file. Any exception there falls through to the next source, as in every variant.
- `os.path.getmtime` and `datetime.fromtimestamp` are not modelled: the modification time is an optional, already valid date. Time zones and the float-to-microsecond conversion are out of scope.
- `os.walk` traversal order and path joining are not modelled: each source folder's files are a given sequence of base names, and target paths are names in the target folder.
- `shutil.copy2`, `os.rename`, `os.remove`, `os.path.exists`, `isfile` and `getsize` become updates and lookups on a set of names, or on a map from names to (is-file, size). Whether a copy or a rename fails is an input. A failing `os.remove` or `getsize` in the deleter, which would end the pass with an exception, is not modelled.
- Names are compared exactly and case-sensitively: `os.path.exists`, `os.rename` and `shutil.copy2` act on a set of names under string equality. On a case-insensitive file system (the Windows and macOS defaults) `IMG.JPG` would find `img.jpg` already there and take the next numbered slot, where the model lets it keep its own name.
- The move in `add_prefix_to_image` ends the run with a halt that names the prefixed target. The target folder's contents after that halt (the moved file at that name) are not carried by the model, since nothing runs afterwards. Whether the move succeeds (on Windows it fails when the name exists) is an input.
- Unicode: `\d` in Python also matches non-ASCII decimal digits, and `int` reads them. The model recognises ASCII digits only.
- Unicode: `str.lower` is modelled on ASCII letters. No non-ASCII character lower-cases to a single one of the suffix letters, so the extension test is exact. Other characters of a name keep their identity.
- DateTimes.Format: `%Y` is written as four zero-padded digits, which is what glibc does for years from 1000 up. Smaller years print with fewer digits on some platforms.
- RenamePlanner.TimeStringStable: proved for sequence numbers from 1 to 9999 only. With eight or more digits, the number and the following time string can together form the leftmost `\d{8}_\d{6}` run, so a second rename would pick up a different time string.
- `exception_handler.py` and the custom exception classes are reduced to the outcomes they cause (skip the file, end the run), not their messages.
- The script's `main` hard-codes its folders and creates the target folder; the model starts from a given target folder and checks nothing for that variant.
