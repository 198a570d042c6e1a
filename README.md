# NetMsg ID conflict checker — registry model

`tools/netmsg_conflict_checker.py` scans Lua sources for `NetMsg` id tables.
It records every `name = id` declaration it finds in an in-memory registry
held by `NetMsgConflictChecker`, and reports two kinds of problem:

- ids defined by more than one distinct (name, file) pair (conflicts);
- ids inside a reserved range (by default `UniX SDK`, 200000..250000, both bounds
  included) that are used by files outside the SDK.

This project models that registry and the pure readers of it, and proves what
they guarantee:

- **Registry** is the registry as values. The three Python dicts are each a
  `map` plus the insertion order of their keys, because the report depends on
  dict order. `Register`, `CheckReserved` and `Feed` state what
  `register_netmsg_id`, `check_reserved_violation` and the scan loop of `run`
  do to it. `Inv` is the invariant every registration keeps.
- **Checker** is the class `NetMsgConflictChecker` with the registry fields.
  Its methods update them in place, with the source's loops and early return.
  Each method is proved to produce the state that the Registry functions
  describe.
- **ConflictReport**, **Listings** and **Stats** model sections 1, 3 and 4 of
  the text report and the statistics of the JSON report. ConflictReport groups
  a conflict's observations by file with a loop, proved against a fold.
- **RootPath** is the shell-metacharacter test that `main` applies to the project root.
- **ScanCount** is the header's "files scanned" total; see Findings.
- **Text**, **Seqs** and **Sorting** hold the Python semantics the rest relies on:
  - `sub in s`;
  - ASCII `str.lower()`;
  - string `<=`;
  - `set(...)`;
  - dict key order;
  - `sorted`, which returns an ordered permutation and is stable under a key.
- **Scenarios** works through concrete runs with the shipped configuration.

Details taken from the code:

- A file counts as the SDK's own when the text `UniX-SDK` occurs anywhere in
  its path (line 286). It is not required to be a directory segment.
- A violation is recorded once per range that flags it, and is never recorded
  twice in one list. That second fact needs the range names to be distinct,
  which the shipped single-range configuration satisfies
  (`RegisterKeepsViolationsUnique`, `FeedKeepsViolationsUnique`).
- `conflicts[id]` is the same list object as `discovered_ids[id]` (line 269).
  Later appends to that id therefore show in `conflicts` too. The model keeps
  the two equal as values (`ConflictsExact`).

## Model

| member | source | states |
|---|---|---|
| Registry.Record | tools/netmsg_conflict_checker.py:258-269 | the append and the `conflicts` update of one new observation; specified by `RecordPreserves` and `RegisterNew` |
| Registry.CheckReserved | tools/netmsg_conflict_checker.py:283-293 | the loop over the configured ranges; specified by `CheckReservedEffect`, `CheckReservedPerRange` and `CheckReservedSdkFile` |
| Registry.Register | tools/netmsg_conflict_checker.py:239-272 | one call of `register_netmsg_id`; specified by `RegisterRepeat`, `RegisterNew`, `RegisterRecords`, `RegisterPreservesInv` and `RegisterGrows` |
| Registry.Feed | tools/netmsg_conflict_checker.py:306-317 | the declarations registered one after another in discovery order; specified by `FeedRecords`, `FeedObservations`, `FeedViolations` and `FeedConcat` |
| Registry.RegisterRepeat | tools/netmsg_conflict_checker.py:248-255 | registering a (name, id, file) already recorded under that id returns the state unchanged, violations included |
| Registry.RegisterNew | tools/netmsg_conflict_checker.py:248-261 | a new pair goes at the end of its id's list; no other id's list changes; a new id goes at the end of the key order |
| Registry.RegisterRecords | tools/netmsg_conflict_checker.py:239-261 | after registration the recorded (id, name, file) observations are the old ones plus the new one |
| Registry.RecordPreserves | tools/netmsg_conflict_checker.py:258-269 | appending keeps each id's list nonempty and repeat-free. `conflicts` still holds exactly the ids with at least two entries, and each of them with the same list as `discovered_ids` |
| Registry.RegisterPreservesInv | tools/netmsg_conflict_checker.py:239-293 | one registration preserves the whole invariant. The dicts and their key orders stay consistent. Every violation is a recorded observation that its range flags, and every flagged recorded observation is in its range's list |
| Registry.RegisterGrows | tools/netmsg_conflict_checker.py:258-269 | lists only grow at the end, no id ever leaves `conflicts`, and no violation list shrinks |
| Registry.RegisterKeepsViolationsUnique | tools/netmsg_conflict_checker.py:252-255 | with distinct range names, no range's violation list ever holds the same (name, id, file) twice |
| Registry.CheckReservedEffect | tools/netmsg_conflict_checker.py:283-293 | the range check leaves the id dicts untouched. Each range's list gains the violation once per range of that name that flags it. A list is created on its first violation |
| Registry.CheckReservedPerRange | tools/netmsg_conflict_checker.py:283-293 | with distinct range names, range i's list gains [violation] exactly when min <= id <= max (both inclusive) and the path does not contain `UniX-SDK`; otherwise it is unchanged |
| Registry.CheckReservedSdkFile | tools/netmsg_conflict_checker.py:286-288 | a path containing `UniX-SDK` never changes the state, whatever the id |
| Registry.EmptyInv | tools/netmsg_conflict_checker.py:301-303 | the freshly reset registry satisfies the invariant and has no repeated violation |
| Registry.FeedPreservesInv | tools/netmsg_conflict_checker.py:306-317 | feeding any sequence of declarations preserves the invariant |
| Registry.FeedRecords | tools/netmsg_conflict_checker.py:306-317 | after feeding, the recorded observations are the earlier ones plus exactly the declared ones |
| Registry.FeedGrows | tools/netmsg_conflict_checker.py:306-317 | feeding only extends lists, keeps every conflict, and keeps every violation |
| Registry.FeedConcat | tools/netmsg_conflict_checker.py:306-317 | feeding a ++ b is feeding a, then b |
| Registry.FeedRecorded | tools/netmsg_conflict_checker.py:252-255 | declarations that are all already recorded change nothing |
| Registry.FeedSkipsRecorded | tools/netmsg_conflict_checker.py:252-255 | once every declaration of `a` is recorded, feeding any `b` equals feeding `b` without the declarations of `a`: a repeat is skipped wherever it falls |
| Registry.Without | tools/netmsg_conflict_checker.py:306-317 | the declarations kept are exactly those of `b` that are not in `a` |
| Registry.OverlapFeed | tools/netmsg_conflict_checker.py:306-317 | feeding the walk of `src/Public` and then the walk of `src` equals feeding the first walk, then only those declarations of the second that the first did not make |
| Registry.OverlapRecords | tools/netmsg_conflict_checker.py:306-317 | when every declaration of the first walk is also in the second, the overlapping scan records the same observations and the same violations as scanning the second alone |
| Registry.FeedTwoPairs | tools/netmsg_conflict_checker.py:258-261 | two declarations of one id with different (name, file) pairs leave that id's list holding both, in declaration order |
| Registry.OverlapReordersDiscovery | tools/netmsg_conflict_checker.py:306-317 | the overlap changes discovery order: feeding `[y]` then `[x, y]` lists y before x, while feeding `[x, y]` alone lists x first |
| Registry.FeedObservations | tools/netmsg_conflict_checker.py:248-269 | after a run an id's list holds exactly the distinct (name, file) pairs declared for it, one entry each. The id is a conflict iff at least two such pairs exist |
| Registry.FeedViolations | tools/netmsg_conflict_checker.py:283-293 | after a run, (name, id, file) is in range n's list iff it was declared and some range named n flags it |
| Registry.FeedKeepsViolationsUnique | tools/netmsg_conflict_checker.py:283-293 | with distinct range names, a run never records the same violation twice in one list |
| Registry.FeedSdkOnly | tools/netmsg_conflict_checker.py:286-288 | if every declaration comes from an SDK path, no violation is ever recorded |
| Checker.NetMsgConflictChecker.constructor | tools/netmsg_conflict_checker.py:101-108 | the three dicts start empty, the ranges come from the configuration, and the invariant holds |
| Checker.NetMsgConflictChecker.CheckReservedViolation | tools/netmsg_conflict_checker.py:274-293 | the loop over the ranges leaves the object in the state `CheckReserved` describes |
| Checker.NetMsgConflictChecker.RegisterNetMsgId | tools/netmsg_conflict_checker.py:239-272 | the in-place update, including the early return on a duplicate and the shared conflict list, leaves the state `Register` describes. The invariant is kept |
| Checker.NetMsgConflictChecker.Run | tools/netmsg_conflict_checker.py:301-317 | after the reset and the feed loop, the object holds `Feed(Empty, ranges, decls)` and the invariant holds |
| ConflictReport.Group | tools/netmsg_conflict_checker.py:376-381 | the `files_dict` grouping as a fold; specified by `GroupFiles`, `GroupNamesInOrder`, `GroupNames` and `GroupCount` |
| ConflictReport.Block | tools/netmsg_conflict_checker.py:372-390 | one conflict's block; specified by `BlockCount`, `BlockFilesAscending`, `BlockCoversFiles` and `BlockLineNames` |
| ConflictReport.ConflictSection | tools/netmsg_conflict_checker.py:368-390 | section 1 over `sorted(conflicts.items())`; specified by `ConflictSectionIds`, `ConflictSectionCovers`, `ConflictSectionBlocks` and `ConflictSectionCounts` |
| ConflictReport.GroupByFile | tools/netmsg_conflict_checker.py:376-381 | the `files_dict` loop computes the grouping fold `Group` |
| ConflictReport.GroupFiles | tools/netmsg_conflict_checker.py:376-379 | `files_dict` lists each observed file once, in order of first appearance, and has no other key |
| ConflictReport.GroupNamesInOrder | tools/netmsg_conflict_checker.py:380-381 | each file's list is the names observed in that file, each once, in first-seen order |
| ConflictReport.GroupNames | tools/netmsg_conflict_checker.py:376-381 | a name is listed under a file iff that (name, file) was observed, and no name is listed twice |
| ConflictReport.GroupCount | tools/netmsg_conflict_checker.py:372-381 | the number of (file, name) entries equals `len(names_files)`, the number of distinct (name, file) pairs |
| ConflictReport.BlockCount | tools/netmsg_conflict_checker.py:372-390 | a block shows as many entries as its header's count of distinct definitions |
| ConflictReport.BlockFilesAscending | tools/netmsg_conflict_checker.py:384 | a block's file lines are in strictly ascending path order |
| ConflictReport.BlockCoversFiles | tools/netmsg_conflict_checker.py:384-390 | every file observed under the id gets a line |
| ConflictReport.BlockLineNames | tools/netmsg_conflict_checker.py:385-390 | a file's line shows exactly the names observed in that file, sorted and each once |
| ConflictReport.ConflictSectionIds | tools/netmsg_conflict_checker.py:368-370 | one block per conflicting id, with ids strictly ascending |
| ConflictReport.ConflictSectionCovers | tools/netmsg_conflict_checker.py:368-370 | a block exists for an id iff that id is in `conflicts`; so the section is empty iff there is no conflict |
| ConflictReport.ConflictSectionBlocks | tools/netmsg_conflict_checker.py:370-373 | each block is built from the list `conflicts` holds for its id |
| ConflictReport.ConflictSectionCounts | tools/netmsg_conflict_checker.py:372-373 | after any registrations, each block reports at least two distinct definitions |
| Listings.ById | tools/netmsg_conflict_checker.py:411-413 | section 3; specified by `ByIdAscending` and `ByIdLines` |
| Listings.ByName | tools/netmsg_conflict_checker.py:421-428 | section 4; specified by `ByNameSameLines` and `ByNameOrder` |
| Listings.ByIdAscending | tools/netmsg_conflict_checker.py:411-413 | the ID listing has one line per discovered id, ids strictly ascending |
| Listings.ByIdLines | tools/netmsg_conflict_checker.py:411-413 | the ID listing holds, for every discovered id and no other, the line from that id's first observation |
| Listings.ByNameSameLines | tools/netmsg_conflict_checker.py:421-428 | the name index shows the same lines as the ID listing, the same number of them |
| Listings.ByNameOrder | tools/netmsg_conflict_checker.py:421-425 | the name index is ordered by lower-cased name. Lines with equal keys keep the insertion order of `discovered_ids`, because the sort is stable |
| Stats.StatsOf | tools/netmsg_conflict_checker.py:476-480 | the three counts of `statistics`; specified by `StatsBounds`, `RegisterStats` and `RunStats` |
| Stats.StatsBounds | tools/netmsg_conflict_checker.py:476-480 | conflict_count <= total_ids; both equal the lengths of their key orders |
| Stats.CheckReservedCount | tools/netmsg_conflict_checker.py:283-293 | the range check raises `violation_count` by the number of ranges that flag the use |
| Stats.RegisterStats | tools/netmsg_conflict_checker.py:239-293 | a repeat leaves all three counts unchanged. Otherwise total_ids grows by one for a new id, and conflict_count grows by one when the id had exactly one observation. violation_count grows by the number of flagging ranges |
| Stats.RegisterStatsDefault | tools/netmsg_conflict_checker.py:82-83 | with the shipped range, a new use adds one violation iff 200000 <= id <= 250000 and the path lacks `UniX-SDK` |
| Stats.RunStats | tools/netmsg_conflict_checker.py:476-478 | after a run, total_ids is the number of distinct extracted ids. conflict_count is the number of ids declared with at least two distinct (name, file) pairs |
| RootPath.HasSuspiciousChar | tools/netmsg_conflict_checker.py:554-556 | the root is refused iff one of its characters is in `SuspiciousChars`: pipe, semicolon, ampersand, backtick, dollar, either parenthesis, less-than or greater-than |
| RootPath.AnyIn | tools/netmsg_conflict_checker.py:554 | `any(char in root for char in chars)` holds iff some character of the root is in `chars` |
| RootPath.PlainPathAccepted | tools/netmsg_conflict_checker.py:554-556 | a path of letters, digits, separators, dots, `_`, `-`, `:` and spaces is accepted |
| ScanCount.TotalFilesAsWritten | tools/netmsg_conflict_checker.py:350 | the header's total as written, the walk lengths added up; `OverlapDoubleCounts` shows it counts a file of both walks twice |
| ScanCount.TotalFiles | tools/netmsg_conflict_checker.py:350 | the number of distinct files scanned; `TotalFilesBound` and `TotalFilesDisjoint` relate it to the total as written |
| ScanCount.OverlapDoubleCounts | tools/netmsg_conflict_checker.py:69-72 | with walks of `src/Public` and `src`, one file under `src/Public` and one elsewhere give a header total of 3 for 2 files |
| ScanCount.ScannedFiles | tools/netmsg_conflict_checker.py:350 | a file is scanned iff some walk returned it |
| ScanCount.TotalFilesBound | tools/netmsg_conflict_checker.py:350 | the added-up total never undercounts the distinct files |
| ScanCount.TotalFilesDisjoint | tools/netmsg_conflict_checker.py:350 | when no file is returned twice, the added-up total is the distinct count |
| Scenarios.OverlapShowsPublicFirst | tools/netmsg_conflict_checker.py:306-317 | `X = 100` in `src/b.lua` and `Y = 100` in `src/Public/a.lua`: the run lists Y first under id 100; a scan of `src` alone lists X first |
| Scenarios.SameIdTwoPairs | tools/netmsg_conflict_checker.py:258-269 | two different (name, file) pairs for one id below the shipped range make that id a conflict listing both in order, and record no violation |
| Scenarios.TwoFilesConflict | tools/netmsg_conflict_checker.py:264-269 | `Login = 100` in one file and `Logout = 100` in another make 100 a conflict with both observations, and record no violation |
| Scenarios.FirstReservedUse | tools/netmsg_conflict_checker.py:283-293 | a first declaration inside 200000..250000 from a non-SDK path is discovered and is the only violation under `UniX SDK` |
| Scenarios.ReservedUse | tools/netmsg_conflict_checker.py:283-293 | `Test = 210000` in `src/game/net.lua` gives exactly one violation, and the id is still discovered |
| Scenarios.SdkUse | tools/netmsg_conflict_checker.py:286-288 | `SdkMsg = 220000` in `src/UniX-SDK/net.lua` is discovered and gives no violation |
| Text.ContainsIff | tools/netmsg_conflict_checker.py:286 | `Contains(s, sub)` (Python's `sub in s`) holds iff `sub` occurs in `s` at some index |
| Text.ContainsFirstChar | tools/netmsg_conflict_checker.py:286 | a string lacking the first character of `sub` does not contain `sub` |
| Text.Lower | tools/netmsg_conflict_checker.py:424 | `lower()` keeps the length and maps each character on its own: ASCII capitals to small letters, everything else unchanged |
| Text.LexLeTotal | tools/netmsg_conflict_checker.py:384-389 | Python string `<=` compares any two strings |
| Text.LexLeTransitive | tools/netmsg_conflict_checker.py:384-389 | Python string `<=` is transitive |
| Text.LexLeAntisymmetric | tools/netmsg_conflict_checker.py:384-389 | strings that are `<=` each other are equal |
| Sorting.SortInts | tools/netmsg_conflict_checker.py:411 | `sorted` on ids returns an ascending permutation of its input |
| Sorting.SortIntsStrict | tools/netmsg_conflict_checker.py:411 | sorting distinct ids gives a strictly ascending sequence |
| Sorting.SortBy | tools/netmsg_conflict_checker.py:421-425 | `sorted(..., key=...)` returns a permutation of its input |
| Sorting.SortBySorted | tools/netmsg_conflict_checker.py:421-425 | the result of `sorted(..., key=...)` is ordered by the key |
| Sorting.SortByStable | tools/netmsg_conflict_checker.py:421-425 | for every key value, the records with that key keep their input order |

## Left out

- Directory walking (`scan_directory`, lines 121-152) is left out because it is filesystem access. Its results are parameters: declaration sequences for `Feed` and `Run`, and directory walks for `ScanCount`.
- File reading in `parse_file` (lines 154-220) is left out because it is I/O and library decoding. This covers the existence checks, the 10 MB size cap, the 5 MB read cap and the encoding fallback.
- Regex extraction (`self.patterns`, `key_value_pattern`, `process_netmsg_block`, lines 110-119 and 207-237) is left out because Python's `re` semantics live in a library the model cannot see. The model starts from the already extracted (name, id, file) triples in discovery order. The `int(value)` guard is part of that extraction.
- Report file writing, JSON serialisation, timestamps, console printing and the write-failure fallback are left out because they are I/O. The Registry state is exactly what the JSON report serialises.
- The text layout is left out as formatting: headings, separators and the Chinese messages. Each section is modelled as a sequence of line records.
- The reserved-violation section of the text report (lines 394-404) has no function of its own. It prints each range's list in dict order, which is `rangeOrder` and `violations`, covered by `ViolationsSound` and `FeedViolations`.
- The exception handler of `run` (lines 337-339) is left out. A failure mid-scan would leave a partially fed registry, and exceptions are not modelled.
- Root-directory detection in `__init__` and `--auto-detect` (lines 61-64, 95-99, 516-529) is left out because it depends on `os.path` and filesystem state.
- The rest of `main` is left out because it is driver plumbing. This covers argparse, the existence and `isabs` checks, the interactive `input()` prompt, stdout reconfiguration and exit codes. Only the character test of line 554 is modelled.
- Text.Lower: maps only the ASCII capitals to small letters and keeps the length. Python's `str.lower()` also folds non-ASCII letters and can change the length (`'İ'` becomes `"i̇"`, two code points); no Unicode case table is available to the model.
- Sorting of `conflicts.items()` and `files_dict.items()` (lines 370, 384) compares whole tuples in Python. Keys are unique, so the model sorts by key alone, which gives the same order.

## Findings

| source | as written | input that shows it | evidently intended | confidence | as-written member | corrected member |
|---|---|---|---|---|---|---|
| tools/netmsg_conflict_checker.py:350 | "files scanned" adds up the lengths of the walks of every scan directory. The shipped directories `src/Public` and `src` overlap | `src/Public/a.lua` and `src/b.lua`: the walks are `[a]` and `[b, a]`, and the header says 3 | the number of distinct files scanned: 2 | medium, not executed | ScanCount.TotalFilesAsWritten, ScanCount.OverlapDoubleCounts | ScanCount.TotalFiles, ScanCount.TotalFilesBound, ScanCount.TotalFilesDisjoint |

The overlap also affects the registry, but only its order. Each file under
`src/Public` is parsed twice: once in the walk of `src/Public`, and again in the
walk of `src`. `os.walk` is top-down, so the walk of `src` returns the files
directly under `src` before those under `src/Public`.
- The second parse of a file adds nothing: `Registry.OverlapFeed` and
  `Registry.FeedSkipsRecorded` show every repeated declaration is skipped.
- The recorded observations and violations are the same as for a single scan
  of `src` (`Registry.OverlapRecords`).
- Discovery order does depend on the overlap. Every `src/Public` declaration
  is registered before any declaration made only under `src`. That order
  decides which observation sections 3 and 4 show for an id, and the order of
  a conflict's list (`Registry.OverlapReordersDiscovery`,
  `Scenarios.OverlapShowsPublicFirst`).
