# npm package scanner: a verified model of the matching engine

`PackageScanner` (package_scanner.py) searches a computer for a fixed list of
npm packages. It has two kinds of evidence:

- installed copies, found in `node_modules` package stores, including
  `@scope/name` packages one level inside a scope directory;
- dependency declarations, found in the four dependency sections of project
  `package.json` files.

It walks each search root top-down with `os.walk`. It prunes hidden and
deny-listed directories, package stores and paths deeper than 10 parts, and
it shares one set of visited directories between all walks. The results of
the walks are merged key by key into two maps, and a summary of counts is
computed.

This project models that engine in Dafny. The file system is a tree of
`Node` values. Each node has:

- a readability flag;
- the names of its plain files;
- its sub-directories, in listing order;
- what reading its `package.json` yields: `None` when the file is missing,
  unreadable or rejected by the JSON parser, otherwise the parsed `name`, `version` and
  dependency sections.

Paths are sequences of parts whose first part is the anchor, as in
`pathlib.PurePath.parts`.

Modules:

- `Text` (text.dfy): `str.strip`, `str.split` with one separator character,
  `str.startswith`, and a `Split`/`Join` round trip.
- `FsTree` (tree.dfy): the tree, manifests, paths, and the four dependency
  sections in the order they are read.
- `PackageList` (package_list.dfy): `parse_package_list`, as a loop proved
  against the specification function `PackageNames`.
- `Classifier` (classifier.dfy): `should_skip_directory`.
- `ManifestReaders` (manifest_readers.dfy): `get_package_version`,
  `find_parent_project`, and the specification of `scan_package_json`.
- `StoreScanner` (store_scan.dfy): the specification of `scan_node_modules`.
- `Walker` (walker.dfy): the specification of `scan_directory_worker`, a
  recursive function that follows `os.walk` with the worker's pruning
  rules. Lemmas cover pruning, the visited set, where records come from,
  and depth bounds.
- `Coordinator` (coordinator.dfy): the merge, the summary and the
  specification of the merge part of `scan_computer`.
- `Scanner` (scanner.dfy): the `PackageScanner` class. It has the target set
  and the shared `scannedDirs` set, and its imperative methods are proved
  equal to the specification functions above. The bodies of the loops of
  `scan_node_modules` and `scan_package_json` are methods of their own
  (`ScanEntry`, `ScanScope`, `ScanSection`), and the loop of
  `parse_package_list` is `PackageList.ReadLines`.
- `Scenarios` (scenarios.dfy): concrete walks over small trees.

## Model

| member | source | states |
|---|---|---|
| Scanner.PackageScanner.constructor | package_scanner.py:17-21 | The scanner keeps the target set it is given and starts with no scanned directories. |
| PackageList.Lines | package_scanner.py:26 | The stripped text split at newlines: at least one line, none holding a newline. |
| PackageList.LineName | package_scanner.py:30 | The stripped first field of a line holds no tab. |
| PackageList.PackageNames | package_scanner.py:23-34 | The target set a catalogue text yields never holds the empty name. `NamesFromLinesMembers` and `PackageNamesShape` characterise it. |
| PackageList.ParsePackageList | package_scanner.py:23-34 | Returns exactly `PackageNames(text)`. Every element is non-empty, holds no tab and no newline, and is already stripped. |
| PackageList.ReadLines | package_scanner.py:28-32 | The loop over the lines after the header returns exactly `NamesFromLines(lines)`. |
| PackageList.GatherMembers | package_scanner.py:28-32 | A value is gathered from a list of lines iff some line after the first yields it. |
| PackageList.GatherSkipsHeader | package_scanner.py:28 | The first line is never read: replacing it leaves the gathered set unchanged. |
| PackageList.NamesFromLinesMembers | package_scanner.py:28-32 | A name is parsed iff some line after the header holds a tab and has that name as its non-empty stripped first field. |
| PackageList.ReadOneMoreLine | package_scanner.py:28-32 | A further line adds its stripped first field when it holds a tab and that field is non-empty, and otherwise adds nothing. |
| PackageList.HeaderIgnored | package_scanner.py:28 | Replacing the header line by any other line leaves the parsed set unchanged. |
| PackageList.PackageNamesShape | package_scanner.py:26-32 | Every parsed name is non-empty and contains no tab and no newline. Stripping it again changes nothing. |
| PackageList.FirstField | package_scanner.py:30 | The text before the first tab is a tab-free prefix of the line. |
| PackageList.FirstFieldIsFirstPiece | package_scanner.py:30 | The text before the first tab is the first piece `line.split('\t')` gives. |
| PackageList.CatalogueOfLines | package_scanner.py:26 | A catalogue made by joining tab-separated lines with newlines, with no white space at either end, is split back into exactly those lines. |
| PackageList.RowRoundTrip | package_scanner.py:29-31 | A row of the form `name` + tab + other fields contributes exactly `name`, when `name` is non-empty, stripped and tab-free. |
| Text.IsSpace | package_scanner.py:26-30 | A character `strip()` removes lies between tab and U+3000; no ASCII letter or digit, nor `@`, `/`, `-`, `_` or `.`, is white space. |
| Text.SpaceRunEnd | package_scanner.py:26 | The white-space run starting at a position ends at the first non-space after it, or at the end of the string. |
| Text.SpaceRunStart | package_scanner.py:26 | The white-space run ending at a position starts just after the last non-space before it, or at the start of the string. |
| Text.Strip | package_scanner.py:26 | `strip()` keeps no more than what follows the leading white space, and what it keeps has no white space at either end. `Text.StripShape` pins it down. |
| Text.StripShape | package_scanner.py:26 | `strip()` returns the slice of the input after its leading white space. Only white space lies on both sides of it, and it has no white space at either end. |
| Text.StripKeepsCharacters | package_scanner.py:30 | A character absent from the input is absent from its `strip()`. |
| Text.StripIdempotent | package_scanner.py:30 | Stripping twice is the same as stripping once. |
| Text.IndexOf | package_scanner.py:26 | The result is the first position of the character, or the length of the string when the character does not occur. |
| Text.Split | package_scanner.py:26 | `split(sep)` gives at least one piece. No piece holds `sep`, the first piece is a prefix of the input, and joining the pieces with `sep` gives the input back. |
| Text.Join | package_scanner.py:26 | `sep.join(parts)` starts with the first piece, followed by `sep` when there is a second piece. `Text.SplitJoin` makes it the inverse of `Split`. |
| Text.SplitJoin | package_scanner.py:26 | Splitting what `Join` built returns the original pieces, when no piece holds the separator. |
| Text.StripUnchanged | package_scanner.py:26 | A string with no white space at either end is its own `strip()`. |
| FsTree.Name | package_scanner.py:174 | `Path.name` is the last part: the parent followed by the name gives the path back. |
| FsTree.Parent | package_scanner.py:114 | `Path.parent` is a prefix of the path, one part shorter unless the path is the bare anchor. |
| FsTree.SectionKeyInjective | package_scanner.py:135 | Each dependency section has its own JSON key, so a reference's `dependency_type` names the section it came from. |
| FsTree.Rank | package_scanner.py:135 | Every dependency section has a position in the fixed reading order. |
| Classifier.ShouldSkipDirectory | package_scanner.py:40-55 | A directory is skipped exactly when it is unreadable, or its name is on the deny-list, or its name starts with `.` and is neither `.npm` nor `.node_modules`. |
| Classifier.PlainDirectoriesEntered | package_scanner.py:51-55 | A readable directory whose name is neither dotted nor deny-listed is never skipped. This includes `node_modules` and `.npm`. |
| Classifier.HiddenDirectoriesSkipped | package_scanner.py:51-52 | Any dotted name outside the allow-list, and `.git` in particular, is skipped whether readable or not. |
| ManifestReaders.ProjectName | package_scanner.py:144 | The `project` of a reference is the manifest's `name`, or `"unknown"` when it has none. |
| ManifestReaders.GetPackageVersion | package_scanner.py:99-109 | The result is the manifest's `version`. It is `"unknown"` when the file is missing or unparsable, or when it has no `version` field. |
| ManifestReaders.FindParentProject | package_scanner.py:111-124 | The result is the parent manifest's `name`. It is the parent directory's own name when the file is missing or unparsable, or when it has no `name` field. |
| ManifestReaders.SectionRefs | package_scanner.py:138-145 | One section contributes exactly the targets it lists. Each record carries the manifest's path. |
| ManifestReaders.SectionsRead | package_scanner.py:137-145 | Reading the first sections in order yields only target keys, each with the manifest's path. |
| ManifestReaders.DependencyRefs | package_scanner.py:126-151 | Every key is a target and every record carries the manifest's path. A manifest that cannot be read or parsed yields an empty map. |
| ManifestReaders.SectionsReadLastWins | package_scanner.py:137-145 | After `n` sections, a key is present iff some section among them lists it as a target. Its record comes from the last such section, with that section's declared version, the project name and the path. |
| ManifestReaders.DependencyRefsSpec | package_scanner.py:126-151 | A package is referenced iff it is a target listed in some section. The record holds the declared version of the LAST section that lists it, in the order dependencies, devDependencies, peerDependencies, optionalDependencies. It also holds the manifest's `name` or `"unknown"` and the manifest's path. |
| StoreScanner.ScopeEntries | package_scanner.py:70-81 | Inside a scope, every key is a target of the form `@scope/name`. Each record lies one level below the scope and carries the store's owner. |
| StoreScanner.EntryMatches | package_scanner.py:64-92 | One store entry contributes only target keys. Each record is one or two levels below the store and carries the store's owner. |
| StoreScanner.StoreEntries | package_scanner.py:64-92 | The entries of a store, read in order, contribute only target keys. Each record is one or two levels below the store and carries the store's owner. |
| StoreScanner.StoreOwner | package_scanner.py:80-91 | The owner of a store is the `name` in its parent directory's `package.json`, or that directory's own name when the file is missing, unparsable or has no `name`. |
| StoreScanner.StoreScan | package_scanner.py:57-97 | Every key is a target. Every `parent_project` is `find_parent_project` of the store directory. Every path lies in the store, at most one level inside a scope. An unreadable store yields nothing. |
| StoreScanner.ScopeEntriesSnoc | package_scanner.py:71-81 | One more package in a scope adds its `@scope/name` record exactly when that key is a target. |
| StoreScanner.StoreEntriesSnoc | package_scanner.py:64-92 | One more store entry adds what that entry matches on top of the earlier entries. |
| StoreScanner.ScopeEntriesKeys | package_scanner.py:70-74 | A scope yields exactly the targets among its `@scope/name` keys. |
| StoreScanner.StoreEntriesKeys | package_scanner.py:64-92 | The entries yield exactly the targets among the plain names and the `@scope/name` keys of listable scopes. |
| StoreScanner.StoreScanKeys | package_scanner.py:57-97 | The matched keys are exactly the targets among the unscoped entry names and the `@scope/name` keys of the listable scopes. A scope name itself is never tested, an unlistable scope is skipped alone, and an unreadable store yields nothing. |
| StoreScanner.ScopedKey | package_scanner.py:74 | The key of a scoped package is the scope, a `/` and the package's name; when the scope starts with `@`, so does the key. |
| StoreScanner.ScopedKeyInjective | package_scanner.py:73 | A scoped key `scope/name` determines the scope and the name, when scope names hold no `/`. |
| StoreScanner.ScopeKeysScoped | package_scanner.py:70-74 | Every key a scope yields starts with `@` and is the key of one of its packages. |
| StoreScanner.ScopeRecord | package_scanner.py:73-81 | Inside a scope, a target package's record holds its `get_package_version`, its directory and the owner. |
| StoreScanner.PlainRecord | package_scanner.py:86-92 | An unscoped target package's record holds its `get_package_version`, its directory and the store's owner. |
| StoreScanner.ScopedRecord | package_scanner.py:70-81 | A scoped target package's record in the whole store holds its version, its directory two levels below the store, and the owner. |
| Walker.WalkNode | package_scanner.py:159-188 | The walk of one directory only adds to the visited set, and every directory it does not skip is in the visited set afterwards. It keeps every key a target. |
| Walker.WalkChildren | package_scanner.py:159-188 | The walks of the remaining sub-directories only add to the visited set. They keep every key a target. |
| Walker.WalkSkipped | package_scanner.py:163-165 | A skipped directory changes nothing: it is not processed, not recorded as visited, and not entered. |
| Walker.WalkRevisit | package_scanner.py:168-170 | A directory already visited is not processed again, but its sub-directories are still walked. |
| Walker.WalkStore | package_scanner.py:174-178 | A new `node_modules` directory is recorded, scanned and not entered. |
| Walker.WalkDeep | package_scanner.py:180-188 | A new directory with more than 10 path parts is still processed, but none of its sub-directories is entered. |
| Walker.ExtendsTrans | package_scanner.py:159-188 | "Extends" is transitive: visited sets only grow, new directories are below the root, and new records come from newly visited directories. |
| Walker.StoreStepExtends | package_scanner.py:171-176 | Scanning a new store records it. Every record it adds comes from that store. |
| Walker.ManifestStepExtends | package_scanner.py:171-184 | Reading a new directory's `package.json` records the directory. Every reference it adds comes from that manifest. |
| Walker.WalkNodeExtends | package_scanner.py:159-188 | A walk only grows the visited set and only adds directories below its root. Every record it adds or replaces comes from a store or a `package.json` of a directory it newly visited. |
| Walker.WalkChildrenExtends | package_scanner.py:159-188 | The same for the walks of the remaining sub-directories. |
| Walker.WalkNodeKeysGrow | package_scanner.py:159-188 | A walk never loses a key: every package installed or referenced before it stays so. |
| Walker.WalkChildrenKeysGrow | package_scanner.py:159-188 | The same for the walks of the remaining sub-directories. |
| Walker.SiblingsStayUnvisited | package_scanner.py:159-188 | Walking one sub-directory visits nothing below its later siblings. |
| Walker.FreshStoreScanned | package_scanner.py:168-178 | A readable `node_modules` whose path is not in the visited set is scanned, and every target it holds is reported. |
| Walker.EnteredFresh | package_scanner.py:171-188 | A new directory that is neither skipped nor a store, with at most 10 parts, is recorded and, when `package.json` is among its files, its references are added. Its sub-directories are then walked from that state, with nothing below any of them visited. |
| Walker.ReachChild | package_scanner.py:159-188 | The walks of the sub-directories reach any given child with nothing below it visited yet, and keep every installed and every referenced key that child's walk reports. |
| Walker.FreshManifestFound | package_scanner.py:180-188 | On a fresh walk, every target listed in the `package.json` of an entered root is referenced afterwards. |
| Walker.FreshStoreFound | package_scanner.py:174-188 | On a fresh walk of a tree with distinct sibling names, every target in a readable `node_modules` directly inside the walk's root is reported, when the root is entered. |
| Walker.StoreFoundBelow | package_scanner.py:159-188 | The converse of the depth bound: on a fresh walk of a tree with distinct sibling names, every target in a readable `node_modules` at any depth is reported, when every directory from the root down to the store's parent is entered, that is, has at most 10 parts and is neither skipped nor a store. |
| Walker.ManifestFoundBelow | package_scanner.py:159-188 | The same for references: on a fresh walk of a tree with distinct sibling names, every target listed in the `package.json` of a directory at any depth is referenced, when every directory from the root down to it is entered. |
| Walker.BelowOneChild | package_scanner.py:159 | A path lies below at most one sub-directory of a directory. |
| Walker.WalkNodeDepth | package_scanner.py:186-188 | Take a tree with distinct sibling names, with nothing at or below its root visited before. Then the walk visits no path with more parts than any bound of at least 11 that is also at least the root's length. |
| Walker.WalkChildrenDepth | package_scanner.py:186-188 | The same for the walks of the remaining sub-directories. |
| Walker.FreshWalkDepth | package_scanner.py:174-188 | Take a fresh walk of a tree with distinct sibling names. Every installed package it reports lies below the root and at most `bound + 2` parts deep. Every reference comes from a manifest at most `bound + 1` parts deep. |
| Walker.RecordsWithinDepth | package_scanner.py:174-184 | Records added from empty maps, only by newly visited directories below the root of at most `bound` parts, lie below the root: packages at most `bound + 2` parts deep, references at most `bound + 1`. |
| Coordinator.Merge | package_scanner.py:217-222 | A key is in the merged map iff it is in one of the worker results. |
| Coordinator.MergeLastWins | package_scanner.py:221-222 | A key takes the record of the last worker result that holds it. |
| Coordinator.MergeDisjointKeeps | package_scanner.py:221-222 | When the results share no key, every record survives the merge unchanged. |
| Coordinator.MergeDisjointOrderFree | package_scanner.py:217-222 | Results that share no key merge to the same maps in any completion order. |
| Coordinator.MergeSnoc | package_scanner.py:221-222 | Merging one more result is `dict.update` of the merge so far. |
| Coordinator.RunWorker | package_scanner.py:153-193 | One worker starts from empty maps and reports only targets. It leaves the shared visited set grown. |
| Coordinator.Workers | package_scanner.py:207-222 | There is one worker result per root. Each reports only targets, and the shared visited set only grows. |
| Coordinator.WorkersSnoc | package_scanner.py:217-222 | One more root runs one more worker, starting from the visited set the earlier workers left. |
| Coordinator.InstalledOf | package_scanner.py:221 | The installed maps of the workers, in order. |
| Coordinator.DepsOf | package_scanner.py:222 | The dependency maps of the workers, in order. |
| Coordinator.ProjectionsSnoc | package_scanner.py:220-222 | One more worker adds its two maps to the sequences that are merged. |
| Coordinator.Summarize | package_scanner.py:231-237 | The counts are the target count and the two map sizes. The unique count is the size of the union of the two key sets; it is at least each map size and at most their sum, and at most the target count when every key is a target. |
| Coordinator.UnionCard | package_scanner.py:235-236 | A union of two key sets is at least as large as each and at most their sum. It is no larger than a set containing both. |
| Coordinator.ScanOutcome | package_scanner.py:195-239 | A package is reported installed (referenced) iff some worker found it installed (referenced). The summary is computed from the merged maps. |
| Coordinator.ScanOutcomeTargets | package_scanner.py:217-237 | Every package the whole scan reports is a target, so the unique count never exceeds the number of targets. |
| Scanner.PackageScanner.ScanNodeModules | package_scanner.py:57-97 | The loop over the entries of a store, with the inner loop over each listable scope, returns exactly `StoreScan`. |
| Scanner.PackageScanner.ScanEntry | package_scanner.py:64-92 | One store entry, handled as the loop body does, writes exactly what `EntryMatches` gives for it over the map found so far. |
| Scanner.PackageScanner.ScanScope | package_scanner.py:70-81 | The loop over one scope writes exactly that scope's target records over the map found so far. |
| Scanner.PackageScanner.ScanPackageJson | package_scanner.py:126-151 | The loops over the sections and their entries return exactly `DependencyRefs`. |
| Scanner.PackageScanner.ScanSection | package_scanner.py:137-145 | The loop over one section's entries writes exactly that section's target references over the map found so far. |
| Scanner.PackageScanner.WalkDirectory | package_scanner.py:159-188 | Walking one directory gives the maps and the `scannedDirs` that `WalkNode` describes. |
| Scanner.PackageScanner.WalkChildDirectories | package_scanner.py:159-188 | Walking the sub-directories in listing order gives the maps and the `scannedDirs` that `WalkChildren` describes. |
| Scanner.PackageScanner.ScanDirectoryWorker | package_scanner.py:153-193 | The two maps one worker returns and the updated `scannedDirs` are those of `RunWorker`. |
| Scanner.PackageScanner.ScanComputer | package_scanner.py:195-239 | Merging each worker's maps in completion order, then summarising, gives `ScanOutcome`. `scannedDirs` ends as the last worker left it. |
| Scanner.UpdateOverUnion | package_scanner.py:76-81 | Writing one key over a union writes it into the later map. |
| Scanner.UpdateAsUnion | package_scanner.py:88-92 | Writing one key is a union with a one-key map. |
| Scenarios.LeftPadScenario | package_scanner.py:153-188 | Take a project whose manifest declares `left-pad` `^1.0.0` and whose store holds `left-pad` 1.3.0. It yields exactly one installed record (version 1.3.0, owner `app`) and one `dependencies` reference (`^1.0.0`), and visits two directories. |
| Scenarios.LeftPadRoot | package_scanner.py:171-188 | The sample project directory is processed: its manifest's reference is recorded, then its one sub-directory is walked. |
| Scenarios.LeftPadStore | package_scanner.py:174-178 | The sample store, met for the first time, is recorded, scanned and not entered. |
| Scenarios.LeftPadReferences | package_scanner.py:126-151 | The sample manifest yields its one `dependencies` reference. |
| Scenarios.LeftPadInstalled | package_scanner.py:57-97 | The sample store yields its one installed record. |
| Scenarios.FourSectionsOneReference | package_scanner.py:137-145 | A target listed in all four sections yields ONE reference, tagged optionalDependencies, with that section's version. |
| Scenarios.ScopedMatchedOnlyByFullKey | package_scanner.py:70-92 | With targets `@acme`, `core` and `@acme/core`, a store holding `@acme/core` matches only `@acme/core`. |
| Scenarios.RevisitedStoreIsEntered | package_scanner.py:168-170 | A `node_modules` already visited is entered on a later walk. A package's `package.json` inside it is then read as a project manifest. |

## Notes on the code's behaviour

The model follows the code in each of these points.

- Revisited directories. A path already in the visited set is not
  processed again, but the code (package_scanner.py:169-170) only
  `continue`s without clearing `dirs`. `os.walk` therefore still enters the
  sub-directories of a revisited directory, and they are checked one by
  one. A revisited `node_modules` is entered, and the `package.json` files
  of the packages inside it are read as project manifests
  (`Scenarios.RevisitedStoreIsEntered`). The depth cut-off does not apply
  to a revisited directory either.
- Depth. The cut-off counts the parts of the absolute path, anchor
  included (`len(current_path.parts) > 10`, package_scanner.py:187), not the
  depth below the search root.
- Scoped keys. The key of a scoped package is built from the scope
  directory's own name (package_scanner.py:74), so it keeps the `@`
  (`@angular/core`).
- One reference per package. References are keyed by package name
  (package_scanner.py:141-145), so a target listed in all four sections
  yields one reference, from the last section read
  (`Scenarios.FourSectionsOneReference`).
- Failed workers. Each worker catches every exception itself
  (package_scanner.py:190-193) and returns what it had gathered so far; its
  partial maps are merged like any other.

## Left out

- `get_search_paths`, `print_results`, `main`, the command-line arguments, the
  JSON output and the embedded package list: they are environment lookups and
  reporting. `ScanComputer` takes its search roots, with the manifest of each
  root's parent directory, as a parameter.
- Concurrency: `ThreadPoolExecutor`, `as_completed`, and the lock (created but
  never used). Workers run one after another in the order they complete, and
  the roots are given in that order. Interleaved walks sharing `scannedDirs`
  are not modelled.
- File reading and JSON decoding: a `package.json` is an already-parsed
  optional record. Only the `name` and `version` fields and the four
  dependency sections are kept. Non-string values and manifests whose JSON is
  not an object are not modelled.
- Exceptions escaping a helper: for example, a `TypeError` or `AttributeError`
  from a manifest that is not a JSON object, or a `UnicodeDecodeError` from a
  `package.json` that is not valid UTF-8 (package_scanner.py:104-105, 118-119,
  131-132; none of the `except` clauses at 107, 123 and 148 catches it), ends
  the whole worker with partial results (package_scanner.py:190-193). This is
  not modelled; every walk runs to completion.
- Partial listings: a store or scope directory that fails in the middle of
  being listed is modelled as either fully listable or not listable at all.
  `StoreScan` therefore yields nothing for an unreadable store, where the code
  keeps what it found before the error. The walk never scans an unreadable
  store anyway, because `should_skip_directory` skips it first.
- `os.access`, `exists` and `is_dir`: readability is a flag on each node, every
  node is a directory and plain files are just names. Symbolic links, and the
  fact that `os.walk` does not follow them, are not modelled.
  Whether `package.json` exists is read from `files` before a manifest is
  read (package_scanner.py:181), and from `manifest` when a store's owner is
  found (package_scanner.py:117). A tree is meaningful only when `manifest`
  is `None` wherever `files` lacks `package.json`; this is not enforced.
- Warnings and diagnostics printed to the console.
- `is_node_modules_dir` (package_scanner.py:36-38): the scanner never calls
  it; the walk tests the directory name against `node_modules` itself.
- `found_packages` (package_scanner.py:19) is never used and is not a field of
  the class.
- Paths are compared part by part, in place of the path strings the code stores
  in `scanned_dirs`. Two paths are the same directory exactly when their parts
  are equal.
- `parse_package_list` is a method of the class in the code. It reads no
  field, so it is modelled as `PackageList.ParsePackageList`, outside the
  class.
- Scanner.PackageScanner.WalkDirectory and its two companions replace the
  single loop over the `os.walk` generator with recursion, one call per
  directory in the same top-down order. The pruning by `dirs.clear()` is
  modelled as not making the calls.
