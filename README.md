# safe-clean, modelled in Dafny

safe-clean is a disk-cleanup tool. Its engine works in three stages:

- It discovers what takes space:
  - an inventory of a directory's immediate children;
  - regular files above a size threshold;
  - development-artifact directories such as `node_modules` and `target`.
- It vets every candidate against the live file system immediately before deleting it.
- It deletes only what passes. A dry-run flag or a declined confirmation stops it earlier.

A small terminal front end lets the user browse the three inventories. Two helpers convert sizes to text (`format_size`) and back (`parse_size`).

The model covers:

- **Walk model.** The file system a walk sees is a tree: a directory with children, a regular file with its length, some other kind of entry, or an entry the walk cannot read. A `WalkDir` traversal of the tree is its preorder sequence of `(path, depth, node)` entries, with the root at depth 0. `max_depth(k)` keeps the entries at depth `k` or less (`fs_tree.dfy`, `paths.dfy`).
- **Live file system.** The disk that removal acts on is a separate object: a map from every existing path to its kind (`storage.dfy`). It is separate because the disk may have changed since the walk took its snapshot, and re-checking is what the safety gate is for. Which removals the operating system refuses is an input set, `failing`.
- **Discovery** (`discovery.dfy`):
  - `calculate_dir_size` and `count_items`;
  - the top-level listing `analyze_directory`;
  - the large-file filter `find_large_files`;
  - the allowlisted artifact search `find_artifacts`.

  Each finder ends with the stable descending size sort, in `file_items.dfy`. Each collecting loop is a method proved against a reference function of the walk.
- **Development cleanup** (`dev_cleanup.dfy`):
  - the four ordered guards of `remove_dir_all_safe`;
  - the batch executor `remove_artifacts`;
  - the totals and the dry-run and confirmation gating of `cleanup`.

  The executor's invariants relate every outcome and every deleted path back to the file system as it was before the batch.
- **Temp cleanup** (`temp_cleanup.dfy`):
  - the case-sensitive basename classifier;
  - the depth-2 analysis and removal loops;
  - the totals and gating of `cleanup` over a given list of temp directories.
- **Size text** (`utils.rs`):
  - `format_size`, with its unit-selection loop stated exactly in integers, and its one-decimal rendering as exact round-half-to-even on rationals;
  - `parse_size`: trimming and upper-casing (the source upper-cases full Unicode, the model only ASCII letters), `u64::from_str`, the longest-suffix split and the 1024-power multipliers. The number itself is parsed with Rust's `f64` grammar into an exact rational, then floored and saturated into `u64`.
- **Terminal front end** (`tui.dfy`):
  - the `App` object, with its wrap-around menu and list selections, view switches, help toggle and status messages;
  - the menu actions, which fill the list views from the discovery engine;
  - the key dispatch of the event loop.

Some behaviours of the source, each proved as a lemma:

- An artifact that vanished before its turn counts as removed, and its snapshot size is added to the freed bytes.
- An artifact nested inside another is reported twice and counted twice in the totals.
- Temp files that match but are all empty make the run stop with "nothing to clean".
- A temp directory listed twice is counted twice.
- The temp classifier takes `template.html` for a temporary file.
- The gate's "filesystem root" guard can never fire: an allowlisted base name implies a parent.
- No `format_size` output is accepted by `parse_size`, because the space before the unit makes the number part invalid.

## Model

| member | source | states |
|---|---|---|
| Paths.Join | src/discovery.rs:31-34 | the path of a walk entry one level down: one component longer than its parent path, which it extends |
| Paths.FileName | src/cleanup/dev.rs:108 | `Path::file_name` exists exactly when the last component is a normal name |
| Paths.Parent | src/cleanup/dev.rs:122 | `Path::parent`, when present, is the path one component shorter, a proper prefix of it; by definition none for the empty path and a path ending at the root |
| Paths.ToStr | src/cleanup/dev.rs:109 | `OsStr::to_str` succeeds exactly on a UTF-8 name |
| Paths.BaseNameOrEmpty | src/cleanup/dev.rs:108-110 | a non-empty result is exactly the path's UTF-8 file name; a missing or non-UTF-8 name gives "" |
| Paths.NamedPathHasParent | src/cleanup/dev.rs:121-124 | a path that has a file name has a parent, and joining the name back onto it gives the path again |
| Paths.JoinRoundTrip | src/discovery.rs:140 | the file name and the parent of `p.join(name)` are `name` and `p` |
| Storage.FileSystem.RemoveDirAll | src/cleanup/dev.rs:126 | succeeds exactly on an existing directory the OS lets go; then everything at or below it is gone and nothing else changes; on failure nothing changes |
| Storage.FileSystem.RemoveFile | src/cleanup/temp.rs:158 | succeeds exactly on an existing non-directory the OS lets go; then only that path is gone; on failure nothing changes |
| FsTree.Walk | src/discovery.rs:75 | definition of a `WalkDir` traversal: the entry itself at depth `d`, then the walk of each child in turn at depth `d + 1`; its length, file bytes and paths are stated by `WalkLength`, `WalkBytes` and `WalkPaths` |
| FsTree.MaxDepth | src/cleanup/temp.rs:104-105 | definition of `max_depth(k)`: the walk entries of depth at most `k`, in walk order; `MaxDepthMembers` states which entries it keeps |
| FsTree.WalkLength | src/discovery.rs:87 | a walk yields one entry per node of the tree |
| FsTree.WalkBytes | src/discovery.rs:75-81 | summing regular-file lengths along the walk gives the tree's recursive file size; other entries add 0 |
| FsTree.WalkPaths | src/discovery.rs:31-35 | every walk entry lies at or below the root, one path component per level of depth |
| FsTree.ShallowWalk | src/discovery.rs:31-33 | `max_depth(0)` yields the root alone; `max_depth(1)` yields the root and then one entry per child |
| FsTree.MaxDepthMembers | src/cleanup/temp.rs:104-107 | the entries `max_depth(k)` keeps are exactly the walk entries of depth at most `k` |
| FileItems.SortBySize | src/discovery.rs:66 | the result is non-increasing in size and a permutation of the input |
| FileItems.SortIsStable | src/discovery.rs:66 | items of equal size keep their relative order, as `sort_by` is stable |
| FileItems.Insert | src/discovery.rs:66 | inserting into a sorted list keeps it sorted and adds exactly the item |
| Discovery.SaturatingSub | src/discovery.rs:87 | `usize::saturating_sub`: the difference when it is not negative, otherwise 0 |
| Discovery.CalculateDirSize | src/discovery.rs:72-84 | the accumulator loop over the walk returns the tree's total regular-file size; unreadable entries add 0 and cause no error |
| Discovery.CountItems | src/discovery.rs:86-88 | the count plus one for the root is the number of walk entries, so the saturating subtraction never saturates |
| Discovery.ItemFor | src/discovery.rs:45-62 | `item_count` is present iff the item is a directory; a file's size is its length; a directory's size is `calculate_dir_size` and its count `count_items` |
| Discovery.Listed | src/discovery.rs:31-63 | definition of what the listing loop collects from walk entries, in walk order: an item for every readable entry other than the root |
| Discovery.ChildItems | src/discovery.rs:36-62 | definition of one item per readable child of the root, in child order; `ChildItemsExact` states its members |
| Discovery.Listing | src/discovery.rs:27-38 | reference inventory (a definition): the items of the root's readable children when subdirectories are included and the root is a directory, nothing otherwise; `AnalyzeDirectory` is proved against it |
| Discovery.AnalyzeDirectory | src/discovery.rs:21-69 | the result is the size-sorted listing of the reference function: empty for a missing root, the depth-1 children with subdirectories, empty without |
| Discovery.ListingFromWalk | src/discovery.rs:31-63 | what the loop collects over the depth-limited walk, root skipped and unreadable entries dropped, is the reference listing |
| Discovery.ListingRootOnly | src/discovery.rs:32-38 | without subdirectories the walk yields only the root, which is skipped, so nothing is listed |
| Discovery.ListingOneLevel | src/discovery.rs:31-38 | with subdirectories the listing is one item per readable child of a directory root, and nothing for any other root |
| Discovery.ChildItemsExact | src/discovery.rs:36-62 | the listed items are exactly the items of the readable children; none is the root and each has the root as parent |
| Discovery.IsLarge | src/discovery.rs:105 | definition of the large-file test: a regular file whose length is at least the threshold |
| Discovery.LargeItem | src/discovery.rs:106-111 | a large-file item carries the file's length, no item count, and is not a directory |
| Discovery.LargeFilesIn | src/discovery.rs:103-113 | reference collection (a definition): the large-file items of the walk entries in walk order, before sorting; `LargeFilesInExact` states its members and `FindLargeFiles` is proved against it |
| Discovery.LargeItemOf | src/discovery.rs:105-111 | definition: the item is the large-file item of some regular file among the entries whose length reaches the threshold |
| Discovery.LargeFilesInExact | src/discovery.rs:103-113 | the collected items are exactly those of the regular files whose length is at least the threshold (inclusive) |
| Discovery.FindLargeFiles | src/discovery.rs:97-120 | the loop's result, sorted, is the reference collection sorted; it is sorted, a permutation of it, and has exactly its members |
| Discovery.IsArtifact | src/discovery.rs:139-142 | definition of the artifact test: a directory whose file name is UTF-8 text on the allowlist |
| Discovery.ArtifactItem | src/discovery.rs:143-151 | an artifact item is a directory with `count_items` as its count and `calculate_dir_size` as its size |
| Discovery.ArtifactsIn | src/discovery.rs:137-157 | reference collection (a definition): the artifact items of the walk entries in walk order, before sorting; `ArtifactsInExact` states its members and `FindArtifacts` is proved against it |
| Discovery.ArtifactItemOf | src/discovery.rs:139-151 | definition: the item is the artifact item of some allowlisted directory among the entries |
| Discovery.ArtifactsInExact | src/discovery.rs:137-157 | the collected items are exactly those of the directories whose UTF-8 base name is allowlisted, at any depth, the root included |
| Discovery.FindArtifacts | src/discovery.rs:130-163 | the loop's result, sorted, is the reference collection sorted; it is sorted, a permutation of it, and has exactly its members |
| Discovery.ArtifactTestMatchesGate | src/discovery.rs:139-142 | discovery's artifact test agrees with the removal gate's is-directory and name checks |
| Discovery.ExactNamesOnly | src/discovery.rs:135 | names must match the allowlist exactly: `node_modules_backup` and `Target` are not artifacts |
| Discovery.NestedArtifactsBothReported | src/discovery.rs:137-157 | descent is not pruned: a `node_modules` inside a `node_modules` is reported as well, both with the inner file's size |
| DevCleanup.Cleared | src/cleanup/dev.rs:99-124 | definition: all four guards hold (the path exists, is a directory, has an allowlisted name and has a parent) |
| DevCleanup.RemoveDirAllSafe | src/cleanup/dev.rs:97-128 | the four guards in order (exists, is a directory, allowlisted name, has a parent), each with its error and no change; the removal is reached only when all hold, and its verdict is the result |
| DevCleanup.GateVerdict | src/cleanup/dev.rs:97-128 | the gate passes exactly a vanished path or a cleared path the OS lets go; every other path gets the error of its first failing guard |
| DevCleanup.GateAfter | src/cleanup/dev.rs:97-128 | the file system after one gate turn only loses entries; exactly the entries at or below an existing path that the gate passes go |
| DevCleanup.RootGuardSubsumed | src/cleanup/dev.rs:117-124 | every path that passes the name guard has a parent, so the root guard cannot refuse anything |
| DevCleanup.Batch | src/cleanup/dev.rs:74-85 | one outcome per artifact; by definition each outcome is the gate's verdict on the file system the earlier turns left, in list order |
| DevCleanup.Passed | src/cleanup/dev.rs:76-77 | definition of the removed count: the number of successful outcomes |
| DevCleanup.FreedBytes | src/cleanup/dev.rs:78 | definition of the freed size: the snapshot sizes of the artifacts whose outcome is a success |
| DevCleanup.RemoveArtifacts | src/cleanup/dev.rs:67-95 | the outcomes and the final file system are exactly the gate's verdicts turn by turn in list order, each turn on the disk the earlier turns left, a failure going on to the next; the count is the number of successes and the freed size the snapshot sizes of exactly those |
| DevCleanup.FileNamedLikeArtifactRefused | src/cleanup/dev.rs:74-84 | a regular file named `build` is refused as no directory, stays, and counts for nothing |
| DevCleanup.RefusedThenRemoved | src/cleanup/dev.rs:74-85 | after a refused file the batch goes on: the `node_modules` holding it is removed, and the count and freed size are those of that one success |
| DevCleanup.StepKeepsAll | src/cleanup/dev.rs:74-85 | one gate turn keeps the batch's account: vanished paths passed, cleared and removable paths are gone, a failure was refused by a guard or the OS, every deleted path lies below a passed artifact, and the outcomes so far followed by the rest of the batch are the whole batch |
| DevCleanup.FreedWithinTotal | src/cleanup/dev.rs:71-78 | the count and freed size never exceed the batch and its total size, and equal them when every attempt succeeds |
| DevCleanup.TotalSize | src/cleanup/dev.rs:24 | definition: the sum of the artifacts' sizes; `TotalsConcat` and `TotalsIgnoreOrder` state its properties |
| DevCleanup.TotalItems | src/cleanup/dev.rs:25 | definition: the sum of the artifacts' item counts, an absent count adding 0 |
| DevCleanup.TotalsConcat | src/cleanup/dev.rs:24-25 | the two totals add up over concatenation |
| DevCleanup.TotalsIgnoreOrder | src/cleanup/dev.rs:24-25 | the totals of a permutation are the same, so the sorted list has the walk's totals |
| DevCleanup.Found | src/cleanup/dev.rs:16-17 | definition: the artifacts a walk of the target reports, in walk order, before sorting |
| DevCleanup.Cleanup | src/cleanup/dev.rs:8-65 | nothing found, dry run, declined prompt: nothing removed; a failed prompt is an error; otherwise the reported totals are the found artifacts'; a confirmed run's removals, count and freed size are exactly those of the batch over the size-sorted artifacts, and only cleared paths below them go |
| DevCleanup.NestedArtifactCountedTwice | src/cleanup/dev.rs:24-25 | a nested artifact pair holding one file adds that file's length twice to the total size |
| DevCleanup.VanishedArtifactCountsAsRemoved | src/cleanup/dev.rs:75-78 | with one of three artifacts already gone, all three count as removed and the freed size includes the vanished one |
| TempCleanup.IsSafeTempName | src/cleanup/temp.rs:132-138 | definition: the seven case-sensitive prefix and suffix tests, any one sufficing; `SafeTempNameByPattern` restates it as name patterns |
| TempCleanup.IsSafeTempFile | src/cleanup/temp.rs:128-142 | definition: the file name exists, is UTF-8, and passes the name tests; every other path is refused |
| TempCleanup.SafeTempNameByPattern | src/cleanup/temp.rs:132-138 | a name is temporary iff it is `tmp`, `temp` or `.#` followed by text, or text followed by `.tmp`, `.temp`, `.cache` or `~` |
| TempCleanup.SafeTempFileByPattern | src/cleanup/temp.rs:128-142 | a path is temporary iff its file name exists, is UTF-8, and is built by one of the patterns |
| TempCleanup.ClassifierAcceptsLoosely | src/cleanup/temp.rs:132-138 | one accepted name per kind of pattern, including `template.html` |
| TempCleanup.ClassifierIsCaseSensitive | src/cleanup/temp.rs:132-138 | upper-case `TMP1234` and `report.TMP` are not temporary |
| TempCleanup.TempScan | src/cleanup/temp.rs:104-107 | definition: the walk of one temp directory limited to depth 2, as both loops make it |
| TempCleanup.IsTempMatch | src/cleanup/temp.rs:110-112 | definition: a regular file with a temporary name |
| TempCleanup.Matches | src/cleanup/temp.rs:109-116 | definition: the entries both loops act on, in walk order |
| TempCleanup.MatchesExact | src/cleanup/temp.rs:109-116 | an entry is a match exactly when it is among the entries and is a regular file with a temporary name |
| TempCleanup.TempMatchesExact | src/cleanup/temp.rs:104-117 | the files both loops act on are exactly the regular files with a temporary name at walk depth at most 2, at most two levels below the directory |
| TempCleanup.AnalyzeTempDir | src/cleanup/temp.rs:93-126 | none for a non-directory and when nothing matches; otherwise the matches' total length and their number, which is then positive |
| TempCleanup.CleanupTempDir | src/cleanup/temp.rs:144-178 | removes only distinct removable matches, exactly their paths go, and every removable match goes; the counters count exactly the removed files and their walk lengths |
| TempCleanup.DirBytes | src/cleanup/temp.rs:97-124 | definition: the bytes one directory's analysis adds to the total, the matches' total length or 0 for a non-directory |
| TempCleanup.DirFiles | src/cleanup/temp.rs:97-124 | definition: the files one directory's analysis adds to the total, the number of matches or 0 for a non-directory |
| TempCleanup.TotalBytes | src/cleanup/temp.rs:16-23 | definition: the sum of the directories' bytes in list order, a repeated directory counted each time |
| TempCleanup.TotalFiles | src/cleanup/temp.rs:16-23 | definition: the sum of the directories' file counts in list order |
| TempCleanup.Cleanup | src/cleanup/temp.rs:8-51 | zero total size, dry run or declined prompt: nothing removed; a failed prompt is an error; every other report carries the analysis totals; a confirmed run only removes removable matches of the listed directories, and all of them |
| TempCleanup.TempStep | src/cleanup/temp.rs:44-46 | one directory's removal loop keeps the run's account of what went and what had to go |
| TempCleanup.EmptyMatchesAreNothingToClean | src/cleanup/temp.rs:26-29 | a directory whose only match is a 0-byte `tmp1` has one matched file but total size 0, which stops the run |
| TempCleanup.RepeatedDirCountedTwice | src/cleanup/temp.rs:16-24 | a directory listed twice adds its bytes and files twice |
| Utils.Rendered | src/utils.rs:14-18 | the text ends in a space and the unit and starts with a digit; above bytes a point stands three characters before the unit, and bytes have no point |
| Utils.UnitIndex | src/utils.rs:9-12 | the unit is at most TB and is the largest `k` with `1024^k <= bytes` |
| Utils.UnitIndexUnique | src/utils.rs:9-12 | any `k` meeting the unit bounds is the unit index, so the index is what the division loop stops at |
| Utils.RoundHalfEven | src/utils.rs:17 | the nearest integer to `a / b`, ties to the even one, as `{:.1}` rounds the exact value |
| Utils.FormatSize | src/utils.rs:4-19 | the loop's output is the rendering at the unit index: an integer and " B" below 1 KB, otherwise one decimal and the unit |
| Utils.DisplayedRange | src/utils.rs:9-17 | in KB, MB and GB the shown value is at least 1.0 and at most 1024.0 |
| Utils.DecimalReadsBack | src/utils.rs:15 | the decimal rendering of a count reads back as the count |
| Utils.FormatByteExample | src/utils.rs:63 | 512 renders as "512 B" |
| Utils.FormatKiloExamples | src/utils.rs:64-65 | 1024 renders as "1.0 KB" and 1536 as "1.5 KB" |
| Utils.FormatMegaExample | src/utils.rs:66 | 1048576 renders as "1.0 MB" |
| Utils.FormatRoundsUpExample | src/utils.rs:9-17 | 1048575 stays in KB and rounds up to "1024.0 KB" |
| Utils.FormatTieExamples | src/utils.rs:14-17 | 1280 (1.25 KB) rounds to even as "1.2 KB"; 1 renders as "1 B" |
| Utils.IsWhiteSpace | src/utils.rs:22 | definition: the Unicode `White_Space` characters that `str::trim` removes |
| Utils.Trim | src/utils.rs:22 | the trimmed text, if not empty, starts and ends with a character other than white space |
| Utils.TrimStart | src/utils.rs:22 | the result starts with no white space and is a suffix of the input |
| Utils.TrimEnd | src/utils.rs:22 | the result ends with no white space and is a prefix of the input |
| Utils.AsciiUpper | src/utils.rs:22 | same length, each ASCII letter upper-cased and every other character kept (weaker than `to_uppercase`, see "Left out") |
| Utils.U64FromStr | src/utils.rs:24 | accepts only non-empty digit text, optionally after one `+`, and its value is at most `u64::MAX` |
| Utils.UnitSuffix | src/utils.rs:28-37 | definition: the suffix that names each unit |
| Utils.SplitUnit | src/utils.rs:28-40 | a split gives back the text as number part plus unit suffix |
| Utils.SplitUnitTakesLongestSuffix | src/utils.rs:28-40 | a split exists iff the text ends in `B`, and a bare `B` split leaves no `T`, `G`, `M` or `K` before it |
| Utils.Multiplier | src/utils.rs:45-52 | B, KB, MB, GB and TB multiply by 1024 to the power 0 to 4 |
| Utils.ParseExponent | src/utils.rs:42 | definition of an `f64` exponent: an optional sign and at least one digit |
| Utils.ParseMantissa | src/utils.rs:42 | definition of an `f64` mantissa: digits around an optional point, at least one in all |
| Utils.ParseDecimal | src/utils.rs:42 | definition of an unsigned `f64` decimal literal: a mantissa, then an optional exponent after `e` or `E` |
| Utils.ParseFloat | src/utils.rs:42-43 | definition of `str::parse::<f64>`: an optional sign, then `inf`, `infinity` or `nan` in any case or a decimal literal; no white space |
| Utils.ParseScaled | src/utils.rs:42-54 | an accepted number part, scaled by the unit, fits in `u64` |
| Utils.ParseNormalized | src/utils.rs:24-54 | on trimmed, upper-cased text: a plain `u64` first, then the unit split and the scaling; every accepted size fits in `u64` |
| Utils.ScaledToU64 | src/utils.rs:54 | the cast saturates into `u64` |
| Utils.ParseSize | src/utils.rs:21-55 | every accepted size fits in `u64` |
| Utils.ParseSizeIgnoresCase | src/utils.rs:22 | upper- or lower-casing the input does not change the result |
| Utils.ParseSizeIgnoresSurroundingSpace | src/utils.rs:22 | leading and trailing white space do not change the result |
| Utils.FormatErrorExactly | src/utils.rs:24-39 | the invalid-format error arises exactly when the normalised text is no `u64` and does not end in `B` |
| Utils.ParsePlainCount | src/utils.rs:24-26 | the decimal text of any `u64` parses to exactly that count |
| Utils.ParseCountWithUnit | src/utils.rs:42-54 | a count followed by a unit parses to the count times the multiplier, saturated at `u64::MAX` |
| Utils.SuffixedNumberScales | src/utils.rs:28-54 | for a number text followed by a unit, parsing is the scaling of the number part by that unit |
| Utils.ParseTenthsWithUnit | src/utils.rs:42-54 | `n.f` followed by a unit parses to the floor of `(10n + f)` tenths times the multiplier, saturated |
| Utils.TenthsCutOff | src/utils.rs:54 | the cast of a tenths value is the floor of its product with the multiplier over 10, saturated |
| Utils.ParsePlainExample | src/utils.rs:71 | "1024" parses to 1024 |
| Utils.ParseKiloExample | src/utils.rs:72 | "1KB" parses to 1024 |
| Utils.ParseFractionExample | src/utils.rs:73 | "1.5MB" parses to 1572864 |
| Utils.ParseGigaExample | src/utils.rs:74 | "2GB" parses to 2147483648 |
| Utils.OverflowingCount | src/utils.rs:24-54 | a plain count above `u64::MAX` is an invalid format, and the same count with "B" saturates to `u64::MAX` |
| Utils.UnitWithoutNumber | src/utils.rs:42-43 | a bare unit such as "KB" is an invalid number with an empty number part |
| Utils.SpaceBeforeUnit | src/utils.rs:22-43 | a space between number and unit makes the number part, space included, invalid |
| Utils.NegativeIsZero | src/utils.rs:42-54 | a negative number with a unit parses to 0, as the cast saturates at 0 |
| Utils.ParseEdgeExamples | src/utils.rs:28-54 | "KB" and "1 KB" are invalid numbers, and "-5MB" parses to 0 |
| Utils.FormattedSizeNeverParses | src/utils.rs:4-55 | for every byte count the text `format_size` produces is refused by `parse_size` as an invalid number |
| Tui.Next | src/tui.rs:82-94 | the selection after Down is within the list |
| Tui.Prev | src/tui.rs:96-108 | the selection after Up is within the list whenever the old one was at most its length |
| Tui.NextIsSuccessor | src/tui.rs:82-94 | Down from an entry is the next one modulo the length, wrapping from the last to the first |
| Tui.PrevIsPredecessor | src/tui.rs:96-108 | Up from an entry is the previous one modulo the length, wrapping from the first to the last |
| Tui.NextPrevInverse | src/tui.rs:82-108 | Up undoes Down and Down undoes Up |
| Tui.StepsAreModular | src/tui.rs:82-94 | `k` presses of Down move `k` entries on, modulo the length |
| Tui.FullRoundReturns | src/tui.rs:82-94 | as many Down presses as entries come back to the start |
| Tui.AfterBack | src/tui.rs:197-202 | going back yields the menu with no items, no item selection and no message, keeping menu selection and help |
| Tui.ListView | src/tui.rs:150-162 | definition: the view each list option opens |
| Tui.LoadedList | src/tui.rs:179-195 | definition: what each list option loads from the working directory, sorted largest first with ties in discovery order |
| Tui.Loaded | src/tui.rs:179-195 | definition: the option loads a list and the items are exactly what it loads |
| Tui.MenuActionDone | src/tui.rs:144-177 | definition of the Enter-in-menu outcome: quit exactly on Exit; the list options load their list and open its view with the first entry selected; Docker and Temp only set their message; no selection changes nothing |
| Tui.App.constructor | src/tui.rs:61-80 | start in the menu with the first option selected, no items, no selection, no message, help hidden |
| Tui.App.NextMenuItem | src/tui.rs:82-94 | only the menu selection changes, to the wrap-around successor over six options |
| Tui.App.PreviousMenuItem | src/tui.rs:96-108 | only the menu selection changes, to the wrap-around predecessor over six options |
| Tui.App.NextItem | src/tui.rs:110-125 | nothing changes for an empty list; otherwise only the item selection moves to its wrap-around successor |
| Tui.App.PreviousItem | src/tui.rs:127-142 | nothing changes for an empty list; otherwise only the item selection moves to its wrap-around predecessor |
| Tui.App.ExecuteMenuAction | src/tui.rs:144-177 | Exit asks to quit and changes nothing; Docker and Temp only set their message; the list options load their list and open its view with the first entry selected |
| Tui.App.LoadDirectories | src/tui.rs:179-183 | only the items change, to the sorted listing of the working directory's children |
| Tui.App.LoadLargeFiles | src/tui.rs:185-189 | only the items change, to the sorted files of at least 100 MiB |
| Tui.App.LoadDevArtifacts | src/tui.rs:191-195 | only the items change, to the sorted artifacts |
| Tui.App.BackToMenu | src/tui.rs:197-202 | the state after going back, with menu selection and help unchanged |
| Tui.App.ToggleHelp | src/tui.rs:204-206 | only the help flag flips, so two toggles restore it |
| Tui.App.HandleEvent | src/tui.rs:238-275 | `q` quits, `h` toggles help, and Esc quits in the menu or goes back; Enter acts only in the menu; Up and Down go to the menu or the list by view; other events change nothing |
| Tui.IsPress | src/tui.rs:238-239 | definition: a key event whose kind is a press |
| Tui.RunApp | src/tui.rs:232-279 | the loop stops only at a press of `q`, Esc or Enter, always at the first `q`, and at once on an opening Esc |
| Tui.UpThenEnterQuits | src/tui.rs:96-108 | from start-up, Up wraps to Exit and Enter then quits |
| Tui.ListThenBack | src/tui.rs:147-202 | from start-up, Enter opens the directory list and Esc returns to the menu with the first option still selected and no items |

## Left out

- src/cleanup/docker.rs, src/main.rs and src/cli/ are not part of this model. They run `docker` subprocesses, parse the command line and print columns.
- `get_temp_directories` (src/cleanup/temp.rs:53-91) reads the environment and the platform. The list of existing temp directories is an input of `TempCleanup.Cleanup`.
- All printing, `tokio::task::spawn_blocking` and its join errors, and the `dialoguer` prompt are left out. The prompt's reply is an input: yes, no, or a failure.
- Terminal setup, `ui`, the `render_*` functions and `centered_rect` in src/tui.rs are rendering only.
- The walk is a given tree:
  - real `WalkDir` order, symlinks and permissions are not modelled;
  - an unreadable entry is a node the walk skips;
  - a missing root is an unreadable node;
  - paths are component sequences, and no path text is parsed.
- Each finder's in-place `sort_by` is modelled as a stable insertion sort on a sequence (`FileItems.SortBySize`), not as an update of an array.
- Sizes and counts are unbounded naturals, so the `u64` and `usize` sums in the loops and totals never wrap.
- `fs::remove_dir_all` either succeeds completely or changes nothing. A removal that fails part-way is not modelled.
- The temp removal loop walks the same snapshot that the analysis saw. A disk that changes between the two walks is represented only through the live file-system map.
- `format_size` renders the exact value `bytes / 1024^k`. For byte counts of 2^53 and more, `bytes as f64` rounds first, and that rounding is not modelled.
- `parse_size` scales an exact rational and takes the floor. It can differ from the `f64` multiply-and-truncate when the decimal has no exact binary value or the product reaches 2^53.
- The "Invalid size unit" branch (src/utils.rs:51) cannot be reached: the suffix split only produces the five units. The model has no constructor for it.
- Tui.RunApp: states which events can end the loop and that the first `q` always does. It does not state the final `App` state after a whole event sequence, nor that the loop stops at the first event on which the handler quits; the per-event state changes are stated by `Tui.App.HandleEvent`.
- Utils.AsciiUpper / Utils.ParseSize: Rust's `to_uppercase` maps all of Unicode, and some mappings change the text (`ı` and `ſ` become `I` and `S`, `ß` becomes `SS`, ligatures expand). The model upper-cases only `a` to `z`, so for input holding such characters its result can differ: "ınfKB" saturates to `u64::MAX` in the source but is an invalid number here.
- The per-directory counts that `cleanup_temp_dir` prints (src/cleanup/temp.rs:172-174) are not part of `TempCleanup.Cleanup`'s report, since the source only prints them. `TempCleanup.CleanupTempDir` returns and states them.
- Tui.App.ExecuteMenuAction: the three loads are assumed to succeed, since their only error is a failed join of the blocking task.
