# Media organiser core, modelled in Dafny

This project models the file-reorganising core of a desktop media organiser: a Go backend
plus a Vue frontend. The modelled parts are:

- **Duplicate grouping** (`internal/handler/similar.go`). Every `.jpg` gets a 64-bit
  average-hash fingerprint. A string-keyed union-find joins images at Hamming distance 0. The
  classes of at least two images that can still be read come back as groups numbered 1, 2, 3, …
- **Renumbering.**
  - `WithOrderly` (`pkg/file/order_file.go`) renames a directory's files to zero-padded
    sequence numbers, oldest first. It works in two phases through `.tmp` names.
  - `fixMediaFilename` (`internal/handler/media.go`) is the older single-phase variant. It uses
    five-digit numbers counting down from the file count, newest first.
  - Both use the scanning, counting and free-name probing helpers of `pkg/file/file.go`.
- **Media listing** (`GetMediaFiles`). It lists the images and videos below a directory,
  newest first, with the address the built-in file server gives each one.
- **Classify moves and the undo stack** (`internal/handler/shortcut.go`). A shortcut key picks a
  target folder, and the file moves there under a free name. The move goes on an undo stack
  bounded at 50 entries.
- **The client-side state machines** that mirror the backend: the duplicate-image view, the
  classify viewer, the media viewer and the shortcut list.

The file system is a class `FileSystem.OS` holding a map from path to node (a file with its
modification time and size, or a directory).

- `os.Stat` is a lookup.
- `os.ReadDir` lists a directory's children sorted by name.
- `os.Rename` moves one entry and overwrites a file at the destination.
- `os.MkdirAll` adds directory entries.

Each Go function that changes state becomes a method. Its contract ties the result and the new
map to a specification function of the old map. The properties are proved as lemmas about those
functions.

Other conventions:

- The wall clock is a parameter `now`.
- Fingerprints are an input map from path to a natural number below 2^64. The distance counts the differing bits among the lowest 64, computed on those numbers rather than on bit-vectors.
- The frontend's backend calls are outcome parameters: whether the delete, move, undo or save
  succeeded, and the undo count reported afterwards.

Modules (one per file): `Wrappers`, `Errors`, `Strings`, `Paths`, `Ordering`, `Sorting`,
`FileSystem`, `FileUtil` (file.go), `OrderFile` (order_file.go), `UnionFinds` and `Similar`
(similar.go), `Shortcut` (shortcut.go), `Media` (media.go), `SimilarImagesView`
(useSimilarImages.ts), `ClassifyViewer` (useClassifyViewer.ts), `MediaViewer`
(useMediaViewer.ts) and `ShortcutList` (useShortcuts.ts).

## Model

| member | source | states |
|---|---|---|
| `UnionFinds.UnionFind.constructor` | internal/handler/similar.go:270-280 | newUnionFind: the keys are exactly the given paths, each its own parent with rank 0 and its own class |
| `UnionFinds.UnionFind.Find` | internal/handler/similar.go:283-288 | find returns the root of x, with `parent[r] == r` and afterwards `parent[x] == r`; every parent is its old value or the key's root, so the partition, the ranks and the key set are unchanged |
| `UnionFinds.UnionFind.Union` | internal/handler/similar.go:291-308 | afterwards x and y have the same root and exactly their two classes are merged; nothing changes when the roots already coincide; a rank grows by one only when the two roots' ranks tie |
| `UnionFinds.UnionFind.LinkByRank` | internal/handler/similar.go:300-307 | the root of lower rank is linked under the other (y's under x on a tie), and the rank changes as `RankStep` says |
| `UnionFinds.UnionFind.GetGroups` | internal/handler/similar.go:311-318 | the group keys are exactly the roots, and the group of each root holds exactly the keys in its class, each once |
| `UnionFinds.UnionFind.RootsAreRoots` | internal/handler/similar.go:283-288 | every key's representative is a key that is its own parent and its own representative |
| `UnionFinds.Link` | internal/handler/similar.go:300-306 | linking one root under another keeps the forest well-formed, with the classes redirected |
| `UnionFinds.LinkMerges` | internal/handler/similar.go:291-308 | linking the roots of x and y merges exactly the classes of x and y |
| `UnionFinds.Compress` | internal/handler/similar.go:285 | pointing a key straight at its root keeps the forest well-formed with the same roots |
| `UnionFinds.GroupedAll` | internal/handler/similar.go:313-316 | once every key has been appended to its root's group, the groups are exactly the classes |
| `Similar.DistanceZeroIff` | internal/handler/similar.go:156-166 | the Hamming distance of two 64-bit fingerprints is 0 exactly when they are equal |
| `Similar.DistanceSymmetric` | internal/handler/similar.go:156 | the distance does not depend on the order of the two fingerprints |
| `Similar.SplitSlice` | internal/handler/similar.go:368-383 | the chunks are `Chunks(paths, size)`, with a size of 200 when groupSize <= 0; they concatenate back to the input, and each is non-empty and at most the size long |
| `Similar.ChunksFlatten` | internal/handler/similar.go:375-381 | concatenating the chunks gives the input back |
| `Similar.ChunksSizes` | internal/handler/similar.go:375-381 | every chunk is non-empty and at most n long, and every chunk but the last is exactly n long |
| `Similar.CalcAverageHash` | internal/handler/similar.go:320-366 | one result per path, in path order, holding the fingerprint when the file was opened and decoded, none otherwise |
| `Similar.HashGroup` | internal/handler/similar.go:333-352 | the results of one chunk are the per-path results of its paths |
| `Similar.BuildHashMap` | internal/handler/similar.go:122-127 | the hash map holds the fingerprint of every result that has one |
| `Similar.HashMapOfResults` | internal/handler/similar.go:121-127 | the hash map built from the results is exactly the map of known fingerprints |
| `Similar.ValidPaths` | internal/handler/similar.go:130-135 | the valid paths are the image paths that have a fingerprint, in the same order |
| `Similar.KeepHashedMembers` | internal/handler/similar.go:130-135 | a path is valid exactly when it is an image path that has a fingerprint |
| `Similar.PairwiseUnion` | internal/handler/similar.go:148-169 | after the pairwise pass, two valid paths share a root exactly when their fingerprints are equal |
| `Similar.AllRowsDone` | internal/handler/similar.go:148-169 | once every row of the pairwise pass is done, a shared root means an equal fingerprint and vice versa |
| `Similar.GroupsAreFingerprintClasses` | internal/handler/similar.go:172 | the groups getGroups returns are the fingerprint classes of the valid paths |
| `Similar.GroupsHoldTheirFingerprint` | internal/handler/similar.go:172 | each group is keyed by a valid path, has no repeated member, and holds exactly the valid paths with its key's fingerprint |
| `Similar.GroupsCover` | internal/handler/similar.go:172 | every valid path's fingerprint has a group |
| `Similar.GroupsApart` | internal/handler/similar.go:172 | two different groups never share a fingerprint |
| `Similar.ImageOf` | internal/handler/similar.go:184-205 | a member yields an entry exactly when it is still a file below the directory; the entry carries its path, size and modification time |
| `Similar.ImageUrl` | internal/handler/similar.go:202 | image addresses start with `http://localhost:` |
| `Similar.BuildImages` | internal/handler/similar.go:183-206 | the entries of a group are those of its showable members, in member order |
| `Similar.ImagesOfMembers` | internal/handler/similar.go:183-206 | every entry belongs to a member, every showable member has its entry, and distinct members give distinct entries |
| `Similar.ShowsTwo` | internal/handler/similar.go:208 | a group yields at least two entries exactly when two different members are showable |
| `Similar.BuildResults` | internal/handler/similar.go:175-213 | the results are those of the groups, in some order visiting every group once |
| `Similar.ResultsProperties` | internal/handler/similar.go:176-212 | results are numbered 1, 2, 3, … without gaps; each holds at least two entries of one distinct group; every group with two showable members is reported |
| `Similar.ResultsOfSnoc` | internal/handler/similar.go:177-212 | one more group adds a result numbered one past the last exactly when it has at least two members and two entries |
| `Similar.CalcSimilarity` | internal/handler/similar.go:121-216 | the valid paths are the image paths with a fingerprint, in order, and none valid gives no results; the groups are exactly the fingerprint classes of the valid paths; the results are those groups, numbered in visiting order |
| `OrderFile.WithOrderly` | pkg/file/order_file.go:21-82 | the outcome and the new file system are those of `WithOrderlySpec` on the old one |
| `OrderFile.PlanRenames` | pkg/file/order_file.go:23-65 | the rename plan is `PlanSpec`: the checks, the scan, the sort and one item per file |
| `OrderFile.BuildRenameItems` | pkg/file/order_file.go:53-65 | one item per sorted file: old path, old path plus ".tmp", and the directory joined with the padded number and the extension |
| `OrderFile.ExecutePlan` | pkg/file/order_file.go:67-81 | every temporary rename runs before any final rename, and the first failure stops with the earlier renames kept |
| `OrderFile.RunRenames` | pkg/file/order_file.go:68-79 | the renames run in order and stop at the first failure, which is reported |
| `OrderFile.OrderedMetasChecks` | pkg/file/order_file.go:23-46 | the call gets past its checks exactly when dir is non-empty, length > 0, dir is a directory holding at least one eligible file and the count has at most length digits; otherwise it fails with the file system unchanged |
| `OrderFile.OrderedMetasValue` | pkg/file/order_file.go:31-51 | after the checks, the files to rename are the scan sorted by modification time |
| `OrderFile.OrderedByModTime` | pkg/file/order_file.go:49-51 | the sorted files are a permutation of the scan, ascending by modification time (oldest first) |
| `OrderFile.FinalNames` | pkg/file/order_file.go:55-57 | the i-th final path is the directory joined with i+1 zero-padded to exactly length digits followed by the file's own extension, and all final paths are distinct |
| `OrderFile.NumberedDistinct` | pkg/file/order_file.go:56-57 | two different sequence numbers never give the same final path, whatever the extensions |
| `OrderFile.SortedPathsDistinct` | pkg/file/order_file.go:31 | the files to rename have pairwise different paths |
| `OrderFile.SortedAreFiles` | pkg/file/order_file.go:31 | every file to rename is a file, never a directory |
| `OrderFile.PlanCorrect` | pkg/file/order_file.go:67-81 | a well-formed plan whose temporary and final names collide with nothing succeeds, and every listed file ends up at its final path |
| `OrderFile.TempMovesDisjoint` | pkg/file/order_file.go:68-72 | without collisions the temporary phase succeeds and moves every file to its temporary path |
| `OrderFile.FinalMovesDisjoint` | pkg/file/order_file.go:75-79 | without collisions the final phase succeeds and moves every temporary file to its final path |
| `OrderFile.MovedTwice` | pkg/file/order_file.go:67-79 | the two phases together renumber the files and leave every other entry as it was |
| `OrderFile.WithOrderlyCorrectWithoutCollisions` | pkg/file/order_file.go:21-82 | when no temporary name collides, WithOrderly succeeds and every file ends at its numbered path with its content; nothing else changes |
| `OrderFile.RunsPlan` | pkg/file/order_file.go:21-82 | once planning succeeds, WithOrderly is the two-phase run of the plan |
| `OrderFile.CollisionLosesFile` | pkg/file/order_file.go:67-79 | when one file's final path is another file's temporary path, both phases succeed but only one file's content survives |
| `OrderFile.WithOrderlyLosesFile` | pkg/file/order_file.go:21-82 | for a directory holding `x.tmp` (older) and `0001` (newer) with width 4, WithOrderly succeeds and the newer file's content is gone |
| `OrderFile.WithOrderlySafe` | pkg/file/order_file.go:21-82 | the corrected renumbering agrees with `WithOrderlySafeSpec` |
| `OrderFile.WithOrderlySafeCorrect` | pkg/file/order_file.go:21-82 | the corrected renumbering succeeds exactly when the plan exists and has no collisions, then renumbers every file without loss; on failure nothing changes |
| `OrderFile.SafeRefuses` | pkg/file/order_file.go:58 | with a colliding plan the corrected renumbering refuses and changes nothing |
| `OrderFile.WithOrderlySafeRefusesLossyDir` | pkg/file/order_file.go:58 | the corrected renumbering refuses the directory that loses a file and leaves it unchanged |
| `FileUtil.FileTypeIgnoresCase` | pkg/file/file.go:164-170 | the media type of a path does not depend on the ASCII case of its extension |
| `FileUtil.FileTypeOfJoin` | pkg/file/file.go:164-170 | a name has the same media type inside any directory |
| `FileUtil.NumberedNameNotFiltered` | pkg/file/file.go:55-60 | a zero-padded number with an extension is never one of the filtered system names |
| `FileUtil.GetFileMetas` | pkg/file/file.go:71-119 | the scan agrees with `GetFileMetasSpec` on the file system |
| `FileUtil.ScanEntries` | pkg/file/file.go:89-116 | the loop over the entries builds `MetasFrom`: directories and filtered names are skipped, and a failing stat stops with an error |
| `FileUtil.MetasFromStep` | pkg/file/file.go:89-116 | one loop step skips, fails on a missing file, or appends the entry's path, name, un-lowercased extension and modification time |
| `FileUtil.MetasFromErrorStays` | pkg/file/file.go:103-105 | once the scan has failed, later entries do not change the result |
| `FileUtil.GetFileMetasCorrect` | pkg/file/file.go:71-119 | the scan fails exactly when dir is not a directory; otherwise it lists every eligible file once, in name order, with FullPath the joined path and Ext the name's extension |
| `FileUtil.ScanOfListing` | pkg/file/file.go:89-116 | over a listing the scan succeeds, lists the eligible names in entry order, and gives each the right fields |
| `FileUtil.EligibleNamesMembers` | pkg/file/file.go:89-99 | every non-directory, non-filtered entry is listed, only entries are listed, and their number is the count |
| `FileUtil.EligibleNamesSorted` | pkg/file/file.go:89-99 | the listed names keep the sorted order of the entries |
| `FileUtil.GetFileMeta` | pkg/file/file.go:122-141 | the metadata exists exactly when the path is a file, and then carries the path and its modification time |
| `FileUtil.CountEntries` | pkg/file/file.go:153-158 | the loop counts the entries that are neither directories nor filtered names |
| `FileUtil.CountFiles` | pkg/file/file.go:144-161 | the count and error agree with `CountFilesSpec`: -1 with an error for an empty or unreadable dir |
| `FileUtil.CountMatchesMetas` | pkg/file/file.go:144-161 | the count is the number of files the scan lists, and counting fails, with -1, exactly when the scan fails |
| `FileUtil.GetFinalTargetPath` | pkg/file/file.go:207-250 | the chosen target agrees with `FinalTarget` |
| `FileUtil.FinalTargetExact` | pkg/file/file.go:209-218 | without suffixes the target is the base path exactly when it is free; otherwise the error names it |
| `FileUtil.FinalTargetIsProbe` | pkg/file/file.go:222-250 | with suffixes the target is what probing yields over base, `stem_1.ext`, `stem_2.ext`, … built from base's directory, stem and extension |
| `FileUtil.ProbeCandidates` | pkg/file/file.go:228-250 | the suffix loop returns exactly what probing from the first candidate yields |
| `FileUtil.ProbeProperties` | pkg/file/file.go:228-250 | probing from the k-th candidate returns the first free candidate at or after k, or the error when every one of the first max(1, maxTry) exists |
| `FileUtil.ProbeFree` | pkg/file/file.go:228-250 | a candidate that probing returns does not exist |
| `FileUtil.FinalTargetFree` | pkg/file/file.go:207-250 | a target that is returned does not exist |
| `FileUtil.RenameFile` | pkg/file/file.go:173-199 | the outcome and new file system agree with `RenameFileSpec` |
| `FileUtil.RenameFileEffect` | pkg/file/file.go:173-199 | the rename succeeds exactly when the old path is a file and a target is found; then the old path is gone and the content sits at the free target; on failure nothing changes |
| `FileSystem.ReadDirCorrect` | pkg/file/file.go:82 | os.ReadDir succeeds exactly on a directory and lists each child once, sorted by name, with its directory flag |
| `FileSystem.OS.Stat` | pkg/file/file.go:73 | a stat finds a node exactly when the path exists, and returns that node |
| `FileSystem.OS.ReadDir` | pkg/file/file.go:82 | the listing agrees with `ReadDirSpec` |
| `FileSystem.OS.Rename` | pkg/file/file.go:194 | os.Rename of a file moves it and replaces any file at the destination; a failure changes nothing |
| `FileSystem.OS.MkdirAll` | internal/handler/shortcut.go:186 | os.MkdirAll leaves the path a directory and only adds directories; a failure changes nothing |
| `FileSystem.RenameMap` | pkg/file/file.go:194 | a successful rename leaves a file at the destination; the keys are the old ones minus the source plus the destination |
| `FileSystem.MkdirAllSpec` | internal/handler/shortcut.go:186 | creating directories keeps every existing entry and adds only directories |
| `FileSystem.RunMovesDisjoint` | pkg/file/order_file.go:68-79 | a sequence of moves from distinct existing files to distinct free paths all succeed and move each file |
| `FileSystem.RunMovesAppend` | pkg/file/order_file.go:68-79 | running two sequences of renames in turn is running their concatenation, stopping at the first failure |
| `Paths.BaseOfJoin` | pkg/file/file.go:101 | the base name of a joined path is the joined name |
| `Paths.ExtOfJoin` | pkg/file/file.go:108 | the extension of a joined path is the extension of the name |
| `Paths.ExtShape` | pkg/file/file.go:108 | an extension is a suffix of the path, empty or starting with a dot, with no separator |
| `Paths.JoinInjective` | pkg/file/order_file.go:57 | two different names joined to the same directory give different paths |
| `Paths.ExtOfLower` | pkg/file/file.go:165 | lowercasing a path and then taking its extension is taking the extension and then lowercasing it |
| `Paths.Rel` | internal/handler/media.go:95 | the path relative to a directory, appended to the directory, gives the path back |
| `Paths.JoinIsBelow` | internal/handler/media.go:95 | a name joined to a directory lies below it, and its relative path is the name |
| `Strings.ZeroPadShape` | pkg/file/order_file.go:56 | `%0*d` gives exactly width digits when the number fits, and always a digit string of the number's value |
| `Strings.ZeroPadInjective` | pkg/file/order_file.go:56 | different numbers give different zero-padded strings |
| `Strings.NatToStringValue` | pkg/file/order_file.go:42 | `%d` gives a digit string whose decimal value is the number |
| `Strings.NumDigitsMonotonic` | pkg/file/order_file.go:41-46 | a smaller number never needs more digits, so every sequence number fits when the count does |
| `Strings.EqualFoldIsEquivalence` | internal/handler/shortcut.go:162 | case-insensitive key equality is reflexive, symmetric and transitive |
| `Strings.ToLowerIdempotent` | pkg/file/file.go:165 | lowercasing twice is lowercasing once |
| `Ordering.SortedSeqProperties` | pkg/file/file.go:82 | the directory listing is strictly ascending and holds exactly the children |
| `Ordering.StrictlySortedUnique` | pkg/file/file.go:82 | two strictly ascending sequences with the same elements are equal, so the listing is determined |
| `Ordering.ListSorted` | pkg/file/file.go:82 | the method that lists a set of names returns the ascending listing |
| `Sorting.SortByCorrect` | pkg/file/order_file.go:49-51 | sorting keeps the length, is a permutation and is ordered by the key |
| `Sorting.DistinctPermutation` | internal/handler/media.go:125-127 | a permutation of a sequence without repeats has no repeats |
| `Sorting.RemovedKeepsOthers` | frontend/src/composables/useClassifyViewer.ts:159 | splice(i, 1) removes exactly the i-th element: one shorter, the others in order, the multiset minus that element |
| `Shortcut.DefaultShortcuts` | internal/handler/shortcut.go:110-118 | the five default shortcuts have distinct keys and relative folders |
| `Shortcut.GetShortcuts` | internal/handler/shortcut.go:89-107 | the stored list when it can be read, the defaults otherwise |
| `Shortcut.FindShortcut` | internal/handler/shortcut.go:159-166 | the lookup returns the first shortcut whose key equals the key ignoring case, and none when no key matches |
| `Shortcut.DefaultDeleteFolder` | internal/handler/shortcut.go:115 | among the defaults, key "D" (any case) moves into `.delete` beside the file |
| `Shortcut.ResolveTargetDirPlacement` | internal/handler/shortcut.go:221-230 | an absolute folder is used as it is; a relative one lies below the file's directory, and that relative path is the configured folder |
| `Shortcut.ShortcutHandler.ResolveConflict` | internal/handler/shortcut.go:233-252 | the probing loop agrees with `ResolveConflictSpec` |
| `Shortcut.ResolveConflictCorrect` | internal/handler/shortcut.go:233-252 | a free path is kept; otherwise the result is the first free `name_i.ext` for i from 1 to 999 in increasing order, or the timestamp name when all of them exist |
| `Shortcut.ConflictFromOutcome` | internal/handler/shortcut.go:242-251 | probing from candidate i returns the first free candidate at or after i, or the timestamp name when none up to 999 is free |
| `Shortcut.ResolveConflictFree` | internal/handler/shortcut.go:233-252 | the resolved path is free unless it is the timestamp fallback after every numbered name was taken |
| `Shortcut.ShortcutHandler.constructor` | internal/handler/shortcut.go:62-67 | a new handler has an empty undo stack bounded by 50 |
| `Shortcut.ShortcutHandler.PushUndoRecord` | internal/handler/shortcut.go:255-260 | the stack becomes `Pushed`: the record is appended, and the oldest record is dropped when the bound is exceeded |
| `Shortcut.PushedShape` | internal/handler/shortcut.go:255-260 | after a push the new record is on top, the length is at most 50, and below it is the old stack, minus its oldest record when it was full |
| `Shortcut.PushAllKeepsNewest` | internal/handler/shortcut.go:255-260 | pushing records one at a time keeps the newest 50 of all the records, in order |
| `Shortcut.LedgerBound` | internal/handler/shortcut.go:66 | after 51 moves the stack holds the last 50, and the first is gone |
| `Shortcut.ShortcutHandler.Undo` | internal/handler/shortcut.go:263-299 | the outcome, file system and stack agree with `UndoSpec`, and the bound still holds |
| `Shortcut.UndoConsumesRecord` | internal/handler/shortcut.go:267-279 | an empty stack gives an error and nothing changes; otherwise the top record is popped on every path, including a missing target, which fails with the file system unchanged |
| `Shortcut.UndoMovesBack` | internal/handler/shortcut.go:276-292 | a successful undo moves the file from the recorded target to the source path, or to the first free suffixed variant of it when the source is taken, after creating the source directory |
| `Shortcut.ShortcutHandler.GetUndoCount` | internal/handler/shortcut.go:302-305 | the count is the stack length and at most 50 |
| `Shortcut.ShortcutHandler.GetLastMoveRecord` | internal/handler/shortcut.go:315-321 | the top record, or none exactly when the stack is empty |
| `Shortcut.ShortcutHandler.ClearUndoStack` | internal/handler/shortcut.go:307-312 | the stack is empty afterwards |
| `Shortcut.ShortcutHandler.MoveByShortcut` | internal/handler/shortcut.go:154-218 | the outcome, file system and stack agree with `MoveSpec` |
| `Shortcut.ShortcutHandler.MoveOnly` | internal/handler/shortcut.go:158-202 | everything before recording follows `MoveFile`: the lookup, checks, folder creation, conflict resolution and rename |
| `Shortcut.MoveRejects` | internal/handler/shortcut.go:159-180 | an unknown key, a key without a folder, or a missing source each give their error with no move and no record |
| `Shortcut.MoveEffectShape` | internal/handler/shortcut.go:183-202 | a successful move renames the file into the resolved folder, at the conflict-resolved name or the free suffixed variant RenameFile picks |
| `Shortcut.MoveRecordsSuccess` | internal/handler/shortcut.go:199-209 | only a successful move pushes a record of the source and the resolved path; the source is then gone and its content sits at the final path |
| `Shortcut.MoveThenUndo` | internal/handler/shortcut.go:154-299 | when the resolved name was free, a move followed by an undo puts the file back at its source with its content |
| `Shortcut.MoveRecordsOccupiedPath` | internal/handler/shortcut.go:196-209 | when the resolved name is taken, the file goes elsewhere but the record names the taken path, and undo moves the bystander file to the source |
| `Shortcut.ShortcutHandler.MoveByShortcutFixed` | internal/handler/shortcut.go:154-218 | the corrected move agrees with `MoveSpecFixed`, which records the path the file was moved to |
| `Shortcut.MoveFixedThenUndo` | internal/handler/shortcut.go:154-299 | with the corrected record, move then undo always puts the moved file back at its source |
| `Media.FixMediaFilename` | internal/handler/media.go:195-242 | the outcome and new file system agree with `FixSpec` |
| `Media.RenameAll` | internal/handler/media.go:219-238 | the loop numbering down from lastIndex agrees with `RenameDown` |
| `Media.FixMediaFilenameCorrect` | internal/handler/media.go:195-242 | a missing path or a non-directory fails with nothing changed; otherwise files are newest first and numbered down from the count, the k-th target is the five-digit number n-k plus the extension, and success leaves every file at its target; on failure there is a first file whose target already existed, and earlier renames stay |
| `Media.FirstStepEffect` | internal/handler/media.go:219-237 | a file already at its target is left and counted; an occupied target stops the run with an error; otherwise the file moves and the run goes on with the next number |
| `Media.RenameDownSuccess` | internal/handler/media.go:219-238 | a run that succeeds leaves every file at its numbered target and every other entry unchanged |
| `Media.RenameDownStops` | internal/handler/media.go:228-231 | a run that fails stops at the first file whose target exists, with the earlier renames kept |
| `Media.NewestFirstRenamable` | internal/handler/media.go:204-217 | in a directory the scan succeeds, the sorted files are a permutation in newest-first order, the count equals their number, and the targets are pairwise different |
| `Media.TargetsDiffer` | internal/handler/media.go:220-222 | different numbers give different target paths, whatever the extensions |
| `Media.DigitsThenExt` | internal/handler/media.go:221 | a digit string followed by an extension determines the digit string |
| `Media.GetMediaFiles` | internal/handler/media.go:66-128 | the listing agrees with `MediaFilesSpec` |
| `Media.CollectMedia` | internal/handler/media.go:75-116 | the walk callback keeps the image and video files among the walked paths, in walk order |
| `Media.GetMediaFilesCorrect` | internal/handler/media.go:66-128 | a non-directory gives an empty list; otherwise every image or video file below the directory is listed once with its path, name, size, type and address, and nothing else; the list is newest first |
| `Media.InfoOfFields` | internal/handler/media.go:101-114 | an entry holds the path, base name, size, modification time, an image or video type, and `http://localhost:<port>/` plus the relative path |
| `Media.ExtOfSuffix` | internal/handler/media.go:101 | the type of the relative path is the type of the full path |
| `Media.SortMedia` | internal/handler/media.go:125-127 | the sort keeps the same entries, puts the newest first and repeats no path |
| `Media.CollectMembers` | internal/handler/media.go:75-116 | collected entries come from walked media files, every walked media file is collected, and no path repeats |
| `SimilarImagesView.SimilarImages.RemoveImage` | frontend/src/composables/useSimilarImages.ts:30-47 | after a successful delete the groups become `RemoveImageSpec`; after a failed one they are unchanged |
| `SimilarImagesView.RemoveImageEffect` | frontend/src/composables/useSimilarImages.ts:34-43 | an unknown group id changes nothing; otherwise the path is taken out of the first group with that id, that group is dropped when fewer than 2 images remain, and every other group is unchanged |
| `SimilarImagesView.FindGroup` | frontend/src/composables/useSimilarImages.ts:34 | find returns the first group with the id, or none when no group has it |
| `SimilarImagesView.WithoutMembers` | frontend/src/composables/useSimilarImages.ts:36 | the filter keeps exactly the images with another path |
| `SimilarImagesView.DropGroupMembers` | frontend/src/composables/useSimilarImages.ts:39-41 | the filter keeps exactly the groups with another id |
| `SimilarImagesView.TakeOutEffect` | frontend/src/composables/useSimilarImages.ts:105-108 | taking an image out of a group keeps every id and every other group, and never makes a group larger |
| `SimilarImagesView.SimilarImages.ClearResults` | frontend/src/composables/useSimilarImages.ts:52-54 | the group list is empty afterwards |
| `SimilarImagesView.SimilarImages.GetTotalGroups` | frontend/src/composables/useSimilarImages.ts:59-61 | the number of groups is the list length |
| `SimilarImagesView.SimilarImages.GetTotalImages` | frontend/src/composables/useSimilarImages.ts:66-71 | the total is the sum of the group sizes, and at least twice the number of groups when each has two images |
| `SimilarImagesView.TotalImagesConcat` | frontend/src/composables/useSimilarImages.ts:66-71 | the sum adds up over consecutive runs of groups, is 0 for no group and a single group's size for one |
| `SimilarImagesView.TotalImagesAtLeastTwice` | frontend/src/composables/useSimilarImages.ts:66-71 | the sum of group sizes is at least twice the number of groups when every group has at least 2 |
| `SimilarImagesView.LargestIsMaximal` | frontend/src/composables/useSimilarImages.ts:89-90 | the image kept is one of the group's, and no image of the group is larger |
| `SimilarImagesView.CollectDeletions` | frontend/src/composables/useSimilarImages.ts:83-98 | the nested loops build exactly `Schedule` of the groups |
| `SimilarImagesView.CollectGroupDeletions` | frontend/src/composables/useSimilarImages.ts:85-98 | one group's pass appends exactly that group's scheduled deletions |
| `SimilarImagesView.ScheduleMembers` | frontend/src/composables/useSimilarImages.ts:85-98 | every scheduled deletion is an image of a group of at least 2 other than the largest, and every such image is scheduled |
| `SimilarImagesView.OthersMembers` | frontend/src/composables/useSimilarImages.ts:93-97 | a group schedules exactly its images whose path is not the kept one |
| `SimilarImagesView.ApplyDeletionsEffect` | frontend/src/composables/useSimilarImages.ts:101-112 | the deletions keep every group's id and never add an image, and every surviving image whose delete did not fail was not scheduled |
| `SimilarImagesView.SimilarImages.DeleteAll` | frontend/src/composables/useSimilarImages.ts:101-112 | the groups become the old groups with every scheduled deletion that did not fail applied; isDeleting is kept |
| `SimilarImagesView.SimilarImages.RemoveSmallerImages` | frontend/src/composables/useSimilarImages.ts:76-120 | nothing happens while a deletion runs; otherwise the groups become `RemoveSmallerSpec` and isDeleting is false again |
| `SimilarImagesView.RemoveSmallerKeepsLargest` | frontend/src/composables/useSimilarImages.ts:76-120 | afterwards every group has at least 2 images, and every remaining image is its group's largest or one whose delete failed |
| `SimilarImagesView.PruneMembers` | frontend/src/composables/useSimilarImages.ts:115 | the final filter keeps exactly the groups of at least 2 images |
| `MediaViewer.CurrentOf` | frontend/src/composables/useMediaViewer.ts:50-60 | currentMedia is none exactly when the list is empty or the index is out of range, and otherwise the item at the index |
| `MediaViewer.Clamp` | frontend/src/composables/useMediaViewer.ts:77 | the clamped index is in range; an index in range is kept, below 0 becomes 0, past the end becomes the last |
| `MediaViewer.KeyActionOf` | frontend/src/composables/useMediaViewer.ts:143-165 | only Escape, the arrows, `+`, `=`, `-` and `0` do something, and `+` and `=` both zoom in |
| `MediaViewer.Viewer.constructor` | frontend/src/composables/useMediaViewer.ts:40-47 | the viewer starts closed at index 0 and not loading |
| `MediaViewer.Viewer.CurrentMedia` | frontend/src/composables/useMediaViewer.ts:50-60 | an open viewer shows the item at its index |
| `MediaViewer.StepsStayInList` | frontend/src/composables/useMediaViewer.ts:62-63 | from a shown item next and prev still show an item; next moves exactly when there is a next item, prev exactly when the index is past 0 |
| `MediaViewer.OpenShows` | frontend/src/composables/useMediaViewer.ts:72-80 | opening a non-empty list shows an item, the requested one when it is in range |
| `MediaViewer.Viewer.Open` | frontend/src/composables/useMediaViewer.ts:72-80 | an empty list changes nothing; otherwise the viewer opens at the clamped index and shows an item |
| `MediaViewer.Viewer.Close` | frontend/src/composables/useMediaViewer.ts:82-85 | the viewer closes and keeps its index |
| `MediaViewer.Viewer.Next` | frontend/src/composables/useMediaViewer.ts:87-93 | the index moves one on and loading starts when there is a next item; otherwise nothing changes |
| `MediaViewer.Viewer.Prev` | frontend/src/composables/useMediaViewer.ts:95-101 | the index moves one back and loading starts when there is a previous item; otherwise nothing changes |
| `MediaViewer.Viewer.Loaded` | frontend/src/composables/useMediaViewer.ts:115-117 | loading ends and nothing else changes |
| `MediaViewer.Viewer.HandleKeydown` | frontend/src/composables/useMediaViewer.ts:139-166 | a closed viewer or disabled keyboard ignores the key; otherwise Escape closes, the arrows step (starting loading when they move), and the zoom keys are reported; the list never changes and loading is otherwise kept |
| `ClassifyViewer.Classifier.constructor` | frontend/src/composables/useClassifyViewer.ts:26-42 | the viewer starts closed at index 0 with zeroed stats and no last action |
| `ClassifyViewer.Classifier.CurrentMedia` | frontend/src/composables/useClassifyViewer.ts:45-51 | none exactly when the index is outside the list; an open viewer shows the item at its index |
| `ClassifyViewer.Classifier.Open` | frontend/src/composables/useClassifyViewer.ts:68-76 | only the index, the total and the open flag may change; an empty list changes nothing; otherwise the viewer opens at the clamped index and the total becomes the list length |
| `ClassifyViewer.Classifier.Close` | frontend/src/composables/useClassifyViewer.ts:79-82 | the viewer closes and nothing else changes |
| `ClassifyViewer.Classifier.Next` | frontend/src/composables/useClassifyViewer.ts:85-90 | the index moves one on only when there is a next item, and nothing else changes |
| `ClassifyViewer.Classifier.Prev` | frontend/src/composables/useClassifyViewer.ts:93-98 | the index moves one back only when there is a previous item, and nothing else changes |
| `ClassifyViewer.Classifier.Skip` | frontend/src/composables/useClassifyViewer.ts:101-104 | skip steps like next and reports the skip even on the last item; nothing else changes |
| `ClassifyViewer.Classifier.RefreshUndoCount` | frontend/src/composables/useClassifyViewer.ts:205-211 | the count the backend reports, or the old count when the call fails |
| `ClassifyViewer.Classifier.MoveByShortcut` | frontend/src/composables/useClassifyViewer.ts:138-182 | succeeds exactly when an item is shown, no call is under way, the key's first case-insensitive match has a folder and the backend moved the file; then the processed count and the label's count grow by one and the item leaves the list; on an empty list the viewer only closes, keeping its index, last action and undo count; otherwise it shows an item at the clamped index, reports the move and takes the reported undo count; the last action is otherwise kept, `NotConfigured` or `MoveFailed` as the path taken; failure changes neither list, index, stats nor undo count; isProcessing ends as it began; shortcuts and total never change |
| `ClassifyViewer.Classifier.RecordMove` | frontend/src/composables/useClassifyViewer.ts:153-174 | after a backend move the item is counted under its label and leaves the list; on an empty list the viewer only closes; otherwise the move is reported and the reported undo count taken |
| `ClassifyViewer.Classifier.RemoveCurrent` | frontend/src/composables/useClassifyViewer.ts:158-169 | splice(curIdx, 1), then the viewer closes and keeps its index on an empty list, or shows an item at the old index clamped to the new length |
| `ClassifyViewer.NextShownAfterRemoval` | frontend/src/composables/useClassifyViewer.ts:158-169 | after the move the viewer shows the item that followed the moved one, or the one before when the moved item was last |
| `ClassifyViewer.CountedOnce` | frontend/src/composables/useClassifyViewer.ts:155 | the label's count is one more than before (0 when absent), and every other count is unchanged |
| `ClassifyViewer.Classifier.Undo` | frontend/src/composables/useClassifyViewer.ts:185-202 | succeeds exactly when there is something to undo, no call is under way and the backend undid it; then processed drops by one but never below 0, the undo is reported and the reported undo count taken; a backend failure is reported as `UndoFailed`; on failure the counts are kept; isProcessing ends as it began; list, index and categories never change |
| `ClassifyViewer.Uncounted` | frontend/src/composables/useClassifyViewer.ts:191 | `max(0, processed - 1)`: one less for a positive count, 0 otherwise |
| `ShortcutList.Shortcuts.SaveShortcuts` | frontend/src/composables/useShortcuts.ts:34-43 | the list is replaced exactly when the backend saved it, and the result says whether it was |
| `ShortcutList.Shortcuts.AddShortcut` | frontend/src/composables/useShortcuts.ts:46-48 | the entry is appended at the end |
| `ShortcutList.AddedIsFound` | frontend/src/composables/useShortcuts.ts:46-48 | after an append, lookups that found an entry still find it, and the new entry is found by its key when no earlier one answers to it |
| `ShortcutList.Shortcuts.RemoveShortcut` | frontend/src/composables/useShortcuts.ts:51-56 | the list becomes `RemoveSpec` |
| `ShortcutList.RemoveEffect` | frontend/src/composables/useShortcuts.ts:51-56 | only the first entry whose key matches exactly is removed, the others keep their order; with no match nothing changes |
| `ShortcutList.RemoveUndoesAdd` | frontend/src/composables/useShortcuts.ts:46-56 | removing the key of an entry just added restores the list when no entry had that key |
| `ShortcutList.FirstExact` | frontend/src/composables/useShortcuts.ts:52 | findIndex returns the first position whose key matches exactly, or the length when none does |
| `ShortcutList.Shortcuts.UpdateShortcut` | frontend/src/composables/useShortcuts.ts:59-64 | the list becomes `UpdateSpec` |
| `ShortcutList.UpdateEffect` | frontend/src/composables/useShortcuts.ts:59-64 | only the first entry with exactly that key changes, by merging the given fields into it; with no match nothing changes |
| `ShortcutList.MergeProperties` | frontend/src/composables/useShortcuts.ts:62 | merging an empty patch changes nothing, merging twice is merging once, and a given field takes its new value |
| `ShortcutList.Shortcuts.GetShortcutByKey` | frontend/src/composables/useShortcuts.ts:110-112 | the entry found is the first one whose key matches ignoring case; none exactly when no key matches |
| `ShortcutList.LookupFindsFirst` | frontend/src/composables/useShortcuts.ts:110-112 | the case-insensitive lookup finds the first matching entry, and none exactly when no key matches |
| `ShortcutList.Shortcuts.IsValid` | frontend/src/composables/useShortcuts.ts:115-118 | valid exactly when the first entry whose key matches ignoring case has its folder set |

## Left out

- Concurrency is not modelled: the goroutines, channel and WaitGroup of `calcAverageHash`, and every mutex. `CalcAverageHash` is sequential, and its results come in path order. The Go code collects them in completion order, which only the hash map reads.
- JPEG decoding, `goimagehash.AverageHash` and `Distance` are foreign code. The files that opened and the fingerprint of each decodable one are inputs. Distance is the popcount of the XOR.
- The directory walk of `CalcSimilarity` (internal/handler/similar.go:76-112) is input: the image paths are a parameter. The early return when no folder is selected (`dir == ""`, internal/handler/similar.go:76-79) comes before the walk and is not modelled; the return on no valid image (:139-141) is. `os.File` handles and their closing are left out.
- `Media.BelowPaths`: the walk is modelled as every key of the file-system map below the directory. The map need not be a tree, so it may hold an entry whose parent directory is missing, which `filepath.WalkDir` could never reach; on any file system that can exist the two agree.
- `GetMediaFiles` walks in global sorted path order. `filepath.WalkDir`'s lexical per-directory order only matters before the final sort, and the sort is not stable.
- `Sorting.SortBy`: `sort.Slice` does not fix the order of equal keys. The model fixes one (a stable insertion sort) and proves only sortedness and permutation.
- `SimilarImagesView.Largest` is the first image of maximal size, as the stable JavaScript sort yields.
- Reading and writing the shortcut configuration as JSON is not modelled. The stored list is an `Option` input to `GetShortcuts`, and the outcome of a save is a boolean.
- The Wails runtime is not modelled: events, dialogs, `SendSimilarResults`, `SendMediaFiles`, `SelectTargetDir` and the frontend's `selectTargetDir`.
- `BatchFixMediaFilename` is not modelled. It is a goroutine fan-out whose WaitGroup is never released when the directory holds a regular file.
- `RemoveSimilarImage` is a backend call, so its success is an outcome given to the frontend operations.
- The frontend's `loadShortcuts`, `moveFile`, `undo` and `refreshUndoCount` only forward to the backend and are not modelled.
- The `isLoading` flags of the similar-images and shortcut composables are not modelled.
- Zoom, drag, scale, offsets, `isDragging` and `progress` are not modelled. They work on floating point. The media viewer reports the zoom keys as actions without carrying them out.
- The classify viewer's `handleKeydown` is not modelled.
- The logger and `successCount` (only logged) are left out.
- A nil slice and an empty slice are the same value in the model.
- `os.Stat` only distinguishes existing from missing. Permission and I/O errors are not modelled.
- `filepath.Abs` is the identity, and paths are not lexically cleaned.
- `os.Rename` of a directory, and the check that the destination's parent exists, are not modelled. Renaming a path onto itself is a no-op.
- The wall clock is the parameter `now`, a single reading used for the record timestamp and the conflict fallback name.
- Case folding (`strings.EqualFold`, `strings.ToLower`, JavaScript `toLowerCase`) covers ASCII letters only.
- `ShortcutList.Merge`: `Object.assign` also copies a field given explicitly as `undefined`. The patch models given fields only.
- `SimilarImagesView.RemoveSmallerKeepsLargest` requires distinct group ids. `CalcSimilarity` numbers its groups 1, 2, 3, …, so a list from it always has them.
- `MediaViewer.Viewer` and `ClassifyViewer.Classifier` own their media list. In the composables the list is a `Ref` the caller owns and can replace while the viewer is open, after which `currentMedia` may be null. The model does not capture that sharing: its `Valid()` (an open viewer shows an item) and the `CurrentMedia` rows rely on the list changing only through the viewer.
- `ShortcutList.Shortcuts` has value semantics. `addShortcut` pushes the caller's object, `saveShortcuts` keeps the caller's array and `updateShortcut` assigns into the found object, so in the composable an entry pushed twice, or still held by the caller, changes everywhere at once. The model does not capture that aliasing.
- `Similar.ImageOf`: the relative path is modelled only for a path below the directory, and a path outside it is not shown. Go's `filepath.Rel` would give a `../` path there, but the walk only yields paths below the directory.
- `Similar.CalcSimilarity` returns its groups and visiting order as ghost values. Go's map iteration order is unspecified, so the contract holds for the order the loop used, whichever it was.

## Findings

| source | as written | input that shows it | evidently intended | confidence | as-written member | corrected member |
|---|---|---|---|---|---|---|
| pkg/file/order_file.go:58 | every file is first renamed to its path plus `.tmp`, with no check that this name is free or is not another file's final name; os.Rename then overwrites a file | a directory holding `x.tmp` (older) and `0001` (newer), length 4: `x.tmp` is to become `0001.tmp`, but `0001` has already been moved to `0001.tmp`, so the second phase overwrites it; the call succeeds and the newer file's content is gone | renumbering keeps every file, or refuses before renaming anything | high, not executed | `OrderFile.WithOrderlyLosesFile` | `OrderFile.WithOrderlySafeCorrect` |
| internal/handler/shortcut.go:196-209 | the undo record stores the path resolveConflict returned, but `RenameFile(filePath, targetPath, true, 100)` moves the file to a suffixed name when that path is taken | a target folder where the file's name, `name_1` … `name_999` and the timestamp name `name_<now>` all exist: the file moves to `name_<now>_1`, the record names `name_<now>`, and undo moves that other file to the source path | the record names the path the file was moved to, so undo brings back the moved file | medium, not executed | `Shortcut.MoveRecordsOccupiedPath` | `Shortcut.MoveFixedThenUndo` |
