# JavaIndexer in Dafny

This project is a model of the core of JavaIndexer, a live file indexer written in Java. The indexer maps words (tokens) to the files that contain them. File-system monitors keep the index up to date while files are added, removed and modified.

The model covers these parts of the repository:

- **The lazy-deletion index** (`src/main/java/indexer/index/HashFileIndex.java`).
  - Every file gets a `FileEntry` with a tokens counter.
  - Removing a file only tombstones its entry.
  - Searching a token sweeps the token's posting list: each tombstoned id is removed from it and its counter is lowered. An entry whose counter reaches zero is evicted.
  - The index is the class `LazyIndex.HashFileIndex`. It has its three maps, its id counter and its `FileEntry` objects on the heap.
  - Every method is proved to move the abstract `LazyIndexSpec.State` exactly as a function of `LazyIndexSpec` says.
  - The representation and reference-count invariant `LazyIndexSpec.Inv` is proved to be kept by every operation. It says that a counter equals the number of lists that hold its id.
- **The older eager index** (`src/indexer/index/HashFileIndex.java`). It keeps sets of ids per token and removes ids at once. It is the class `EagerIndex.HashFileIndex`, specified by `EagerIndexSpec`.
- **Both monitor managers** (`src/main/java/indexer/fsmonitor/FSMonitorsManager.java` and `src/indexer/fsmonitor/FSMonitorsManager.java`) and their `MonitorRunner` restart loops.
  - They share a value-level meaning, `MonitorRegistry`.
  - That module holds the no-overlap rule of `addingIsNeeded` and the restart rule.
  - It also holds the different restart bound of each variant: `>= 0` in the main one and `> 0` in the old one.
- **The lifecycle handlers** `IndexMonitorHandler` and `RootMonitorHandler`.
- **The events handler `IndexUpdater`.** Its directory walk is batched into groups of `ADD_FILE_CACHE_SIZE + 1` files.
- **Both `FSIndexer` façades.** Their state check, add, remove, search, containment and close are modelled.
- **Both `WordsTokenizer` variants.**
  - They are proved to compute `WordSplitting.Words`: the input split at each separator, with an empty last piece dropped.
  - The main one separates at space and line feed; the old one separates at space only.
- **`ControlsCounter` and `CharArrayWrapper`** from the encoding automaton.
  - The counter counts the code points of a UTF-16 text fed in chunks, and how many of them are non-whitespace controls.
  - A high surrogate that ends a chunk waits for the next chunk.
  - Feeding chunks one by one is proved to equal feeding their concatenation.
- **`FileEntry` and `PathUtils`.**

The lazy index evicts an entry's path mapping by path, not by id. So when an old version of a modified file is swept away, the new version loses its mapping too. The model keeps this behaviour as the code has it, and `LazyIndexSpec.EvictionDropsLiveFile` exhibits it.

## How the environment is modelled

- **Paths** are sequences of name components, and `java.nio.file.Path.startsWith` is a component-wise prefix.
- **Reading a file** becomes the input `Files.FileRead`. Its three cases are: `canRead()` false, a failing `readTokens`, or the tokens. Several files are read through a map `Files.Disk`.
- **Events handlers** known only by their interface are recorders (`IndexEvents.EventsHandler`). They log each event and throw when a parameter says so.
- **Monitors** are identities. Stopping one and starting a runner thread are recorded in the manager's `stopped` and `started` fields.
- **Creating a monitor, stopping it, and the calls of `startMonitoring`** depend on outcomes passed in as parameters.

## Model

| member | source | states |
|---|---|---|
| LazyIndex.HashFileIndex.constructor | src/main/java/indexer/index/HashFileIndex.java:22-33 | a new index is valid and has the empty abstract state |
| LazyIndex.HashFileIndex.ContainsFile | src/main/java/indexer/index/HashFileIndex.java:156-158 | answers true exactly when the path is mapped to an id |
| LazyIndex.HashFileIndex.PutInMap | src/main/java/indexer/index/HashFileIndex.java:224-236 | the lists become `PutInMap` of the old lists: a new token gets the one-id list, an id other than the list's last is appended, and the answer says whether the id was posted; no other field changes |
| LazyIndex.HashFileIndex.PutTokensToMap | src/main/java/indexer/index/HashFileIndex.java:214-222 | the lists and the count become `PutTokens` of the old lists, whose closed form is `PutTokensClosedForm`; no other field changes |
| LazyIndex.HashFileIndex.AddFile | src/main/java/indexer/index/HashFileIndex.java:68-83 | keeps the invariant; the new state and the answer are `LazyIndexSpec.AddFile` of the old state (see `AddFileOutcome`); only fresh entry objects are added |
| LazyIndex.HashFileIndex.Register | src/main/java/indexer/index/HashFileIndex.java:77 | the new id maps to the new entry object, whose value joins the entry values; nothing else changes |
| LazyIndex.HashFileIndex.AddFiles | src/main/java/indexer/index/HashFileIndex.java:91-95 | keeps the invariant; the new state is `AddFiles` of the old one, each file in list order, failures skipped |
| LazyIndex.HashFileIndex.RemoveFile | src/main/java/indexer/index/HashFileIndex.java:104-110 | keeps the invariant; the new state is `LazyIndexSpec.RemoveFile` of the old one (see `RemoveFileOutcome`) |
| LazyIndex.HashFileIndex.RemoveDirectory | src/main/java/indexer/index/HashFileIndex.java:161-173 | keeps the invariant; the new state is `LazyIndexSpec.RemoveDirectory` of the old one (see `RemoveDirectoryOutcome`) |
| LazyIndex.HashFileIndex.RemoveDescendants | src/main/java/indexer/index/HashFileIndex.java:163-172 | the loop over `fileIdMap` tombstones and unmaps exactly the contained strict descendants of the directory |
| LazyIndex.HashFileIndex.VisitPath | src/main/java/indexer/index/HashFileIndex.java:165-171 | one turn of that loop keeps the loop's meaning: the visited strict descendants are exactly the ones removed |
| LazyIndex.HashFileIndex.Unmap | src/main/java/indexer/index/HashFileIndex.java:108 | only the path's mapping goes; no entry changes |
| LazyIndex.HashFileIndex.MarkRemoved | src/main/java/indexer/index/HashFileIndex.java:107 | only the id's entry changes, and only its removed flag, which becomes true |
| LazyIndex.HashFileIndex.DecreaseCounter | src/main/java/indexer/index/HashFileIndex.java:188 | only the id's entry changes: its counter drops by one, and the new value is returned |
| LazyIndex.HashFileIndex.DoPostponedRemoves | src/main/java/indexer/index/HashFileIndex.java:175-184 | the token's list, the entries and the path map become the `Sweep` of the list; no other list changes and no entry object is created |
| LazyIndex.HashFileIndex.VisitId | src/main/java/indexer/index/HashFileIndex.java:176-193 | one turn of the sweep on the list's next id keeps the sweep's meaning |
| LazyIndex.HashFileIndex.Evict | src/main/java/indexer/index/HashFileIndex.java:189-192 | the id leaves `idFileMap` and the entry's path leaves `fileIdMap`; the lists do not change |
| LazyIndex.HashFileIndex.GetPaths | src/main/java/indexer/index/HashFileIndex.java:195-201 | the answer is `LazyIndexSpec.GetPaths` of the list: one path per id, in list order |
| LazyIndex.HashFileIndex.Search | src/main/java/indexer/index/HashFileIndex.java:43-57 | keeps the invariant; the new state and the answer are `LazyIndexSpec.Search` of the old state (see `SearchResult`) |
| LazyIndex.HashFileIndex.SweepToken | src/main/java/indexer/index/HashFileIndex.java:47-50 | keeps the invariant; sweeps the token's list and drops the token exactly when the list empties |
| LazyIndex.HashFileIndex.ForceRemoves | src/main/java/indexer/index/HashFileIndex.java:116-125 | keeps the invariant; whatever order the hash map yields its tokens in, the new state is `ForceRemoved` of the old one (see `ForceRemovedIsClean`) |
| LazyIndex.HashFileIndex.HandleFileModification | src/main/java/indexer/index/HashFileIndex.java:136-147 | keeps the invariant; the new state and the outcome are `LazyIndexSpec.HandleFileModification` of the old state (see `HandleFileModificationOutcome`) |
| LazyIndexSpec.AddFiles | src/main/java/indexer/index/HashFileIndex.java:91-95 | adding a list of files keeps the invariant |
| LazyIndexSpec.PutInMap | src/main/java/indexer/index/HashFileIndex.java:224-236 | definition: a token with no list gets the one-id list; otherwise the id is appended unless it is already the list's last, and the flag says whether it was appended (closed form over many tokens in `PutTokensClosedForm`) |
| LazyIndexSpec.PutTokens | src/main/java/indexer/index/HashFileIndex.java:214-222 | definition: `PutInMap` for each token in turn, counting the calls that posted; its `ensures` keeps every list non-empty (closed form in `PutTokensClosedForm`) |
| LazyIndexSpec.AddFile | src/main/java/indexer/index/HashFileIndex.java:68-83 | definition: an unreadable file answers false and a contained one true, both unchanged; a failed read answers false; otherwise the file gets id `lastId + 1`, an entry counting its posted tokens, and its tokens' lists (properties in `AddFileOutcome`, `AddFilePreservesInv`) |
| LazyIndexSpec.RemoveFile | src/main/java/indexer/index/HashFileIndex.java:104-110 | definition: a contained file's entry is tombstoned and its path unmapped; the posting lists are not touched (properties in `RemoveFileOutcome`) |
| LazyIndexSpec.RemoveDirectory | src/main/java/indexer/index/HashFileIndex.java:161-173 | definition: every contained strict descendant of the directory is tombstoned and unmapped, the directory itself kept (properties in `RemoveDirectoryOutcome`) |
| LazyIndexSpec.HandleFileModification | src/main/java/indexer/index/HashFileIndex.java:136-147 | definition: unreadable answers false and uncontained true, unchanged; a contained file is removed and added again, a failed re-add giving `InconsistentIndexException` (properties in `HandleFileModificationOutcome`) |
| LazyIndexSpec.Sweep | src/main/java/indexer/index/HashFileIndex.java:175-193 | definition: walk the list; a live id stays, a tombstoned one leaves the list and loses one from its counter, and at zero its entry and its path's mapping go (closed form in `SweepClosedForm`) |
| LazyIndexSpec.Search | src/main/java/indexer/index/HashFileIndex.java:43-57 | definition: an unknown token answers nothing; otherwise its list is swept, the token dropped when nothing is left, and the answer is the paths of the ids kept (properties in `SearchResult`, `SearchAnswer`) |
| LazyIndexSpec.ForceRemoved | src/main/java/indexer/index/HashFileIndex.java:116-125 | definition of the state after sweeping every list: only live ids stay listed, every still-counted tombstoned entry is evicted with its path (tied to the loop by `SweepAllIsForceRemoved`, properties in `ForceRemovedIsClean`) |
| LazyIndexSpec.GetPaths | src/main/java/indexer/index/HashFileIndex.java:195-201 | one path per id, and the k-th path is the path of the k-th id's entry |
| LazyIndexSpec.PutTokensClosedForm | src/main/java/indexer/index/HashFileIndex.java:214-236 | posting a file's tokens under an id in no list appends that id exactly once to the list of each distinct token, and the count is the number of distinct tokens |
| LazyIndexSpec.SweepClosedForm | src/main/java/indexer/index/HashFileIndex.java:175-193 | a sweep keeps the live ids in order, lowers the counter of each tombstoned id in the list, evicts those at one, and drops their paths from the path map |
| LazyIndexSpec.AddFilePreservesInv | src/main/java/indexer/index/HashFileIndex.java:68-83 | `addFile` keeps the invariant, so each counter still equals the number of lists holding its id |
| LazyIndexSpec.AddFileOutcome | src/main/java/indexer/index/HashFileIndex.java:68-83 | the answer is true exactly when the file is readable and either contained already or read without failure; afterwards a true answer means it is contained, and false means nothing changed; no other path's containment changes; and re-adding is a no-op |
| LazyIndexSpec.AddedFileIsFound | src/main/java/indexer/index/HashFileIndex.java:43-83 | a newly added file is found by a search for any one of its tokens |
| LazyIndexSpec.RemoveFilePreservesInv | src/main/java/indexer/index/HashFileIndex.java:104-110 | `removeFile` keeps the invariant |
| LazyIndexSpec.RemoveFileOutcome | src/main/java/indexer/index/HashFileIndex.java:104-110 | afterwards the path is not contained; every other path's containment is unchanged; a contained path's entry is tombstoned; no posting list changes |
| LazyIndexSpec.RemoveDirectoryPreservesInv | src/main/java/indexer/index/HashFileIndex.java:161-173 | `removeDirectory` keeps the invariant |
| LazyIndexSpec.RemoveDirectoryOutcome | src/main/java/indexer/index/HashFileIndex.java:161-173 | a path stays contained exactly when it was contained and is not a strict descendant of the directory; the directory itself stays; no posting list changes |
| LazyIndexSpec.HandleFileModificationPreservesInv | src/main/java/indexer/index/HashFileIndex.java:136-147 | `handleFileModification` keeps the invariant |
| LazyIndexSpec.HandleFileModificationOutcome | src/main/java/indexer/index/HashFileIndex.java:136-147 | an unreadable file answers false and a file not in the index answers true, both without change; a contained file that is read again is contained under the next, new id; a failed re-read leaves it uncontained and throws `InconsistentIndexException` |
| LazyIndexSpec.SearchPreservesInv | src/main/java/indexer/index/HashFileIndex.java:43-57 | `search` keeps the invariant |
| LazyIndexSpec.SearchResult | src/main/java/indexer/index/HashFileIndex.java:43-57 | an unknown token finds nothing; otherwise the answer is the paths of the live entries of the token's list, in list order, so a path is found exactly when a live entry of the list has it |
| LazyIndexSpec.SearchAnswer | src/main/java/indexer/index/HashFileIndex.java:47-53 | after the sweep, a dropped token answers the empty list, and otherwise the answer is the paths of the list left behind |
| LazyIndexSpec.ForceRemovedPreservesInv | src/main/java/indexer/index/HashFileIndex.java:116-125 | `forceRemoves` keeps the invariant |
| LazyIndexSpec.SweepAllIsForceRemoved | src/main/java/indexer/index/HashFileIndex.java:116-125 | sweeping the tokens in any order that visits each token once gives `ForceRemoved` |
| LazyIndexSpec.ForceRemovedIsClean | src/main/java/indexer/index/HashFileIndex.java:116-125 | after `forceRemoves` no list holds a tombstoned id, no tombstoned entry is still counted, and no token is added |
| LazyIndexSpec.ScenarioAdd | src/main/java/indexer/index/HashFileIndex.java:68-83 | adding a one-token file to an empty index gives the state with id 0 posted under the token and a counter of 1 |
| LazyIndexSpec.ScenarioModify | src/main/java/indexer/index/HashFileIndex.java:136-147 | modifying that file tombstones id 0 and adds id 1 behind it in the token's list |
| LazyIndexSpec.ScenarioSearch | src/main/java/indexer/index/HashFileIndex.java:43-57 | searching the token then evicts id 0 and finds the file once |
| LazyIndexSpec.EvictionDropsLiveFile | src/main/java/indexer/index/HashFileIndex.java:186-193 | evicting the old version removes the path mapping by path, so after add, modify and search the file is no longer contained although search still finds it, and a later modification is ignored |
| FileEntries.FileEntry.constructor | src/main/java/indexer/utils/FileEntry.java:11-14 | the entry holds the path and the counter it is given, and it is not removed |
| FileEntries.FileEntry.SetRemoved | src/main/java/indexer/utils/FileEntry.java:20-22 | the entry becomes removed; its counter does not change |
| FileEntries.FileEntry.DecreaseTokensCounter | src/main/java/indexer/utils/FileEntry.java:24-26 | the counter drops by one; the removed flag does not change |
| PathUtils.PathsAreEqual | src/main/indexer/utils/PathUtils.java:9-11 | `pathsAreEqual` (mutual `startsWith`) holds exactly when the two paths have the same components |
| PathUtils.FirstPathIsParent | src/main/indexer/utils/PathUtils.java:13-15 | `firstPathIsParent(a, b)` holds exactly when a's components are a prefix of b's |
| PathUtils.ParentReflexive | src/main/indexer/utils/PathUtils.java:13-15 | every path is its own "parent" in this sense |
| PathUtils.ParentTransitive | src/main/indexer/utils/PathUtils.java:13-15 | `firstPathIsParent` is transitive |
| PathUtils.ParentAntisymmetric | src/main/indexer/utils/PathUtils.java:9-15 | two paths that are each other's "parent" are equal |
| PathUtils.ComponentWisePrefix | src/main/indexer/utils/PathUtils.java:13-15 | prefixing is by component: `/a/bb` is not under `/a/b` |
| PathUtils.StrictDescendantIsLonger | src/main/java/indexer/index/HashFileIndex.java:168 | a strict descendant (not equal, and with the directory as parent) is longer than the directory and differs from it |
| PathUtils.StrictDescendantNotParent | src/main/java/indexer/index/HashFileIndex.java:168 | a strict descendant is not a parent of its directory |
| PathUtils.Parent | src/indexer/FSIndexer.java:66-68 | `getParent` of a non-root path is a parent of it with one component less |
| EagerIndex.HashFileIndex.constructor | src/indexer/index/HashFileIndex.java:19-30 | a new index is empty, valid and clean |
| EagerIndex.HashFileIndex.ContainsFile | src/indexer/index/HashFileIndex.java:106-108 | answers true exactly when the path is mapped |
| EagerIndex.HashFileIndex.Search | src/indexer/index/HashFileIndex.java:33-45 | the answer lists the ids of the token's set once each, in some order, each replaced by its path, or by `null` for an id no longer mapped |
| EagerIndex.HashFileIndex.AddFile | src/indexer/index/HashFileIndex.java:55-66 | keeps the invariant, and a clean index stays clean; the new state and the answer are `EagerIndexSpec.AddFile` of the old state (see `AddFileOutcome`) |
| EagerIndex.HashFileIndex.PutTokensToMaps | src/indexer/index/HashFileIndex.java:134-149 | the sets become `PutTokens` of the old sets (see `PutTokensClosedForm`); the id maps do not change |
| EagerIndex.HashFileIndex.RemoveFileIteratingAll | src/indexer/index/HashFileIndex.java:69-76 | keeps the invariant, and a clean index stays clean; the new state is `RemoveIteratingAll` of the old one (see `RemoveIteratingAllOutcome`) |
| EagerIndex.HashFileIndex.RemoveIteratingAll | src/indexer/index/HashFileIndex.java:168-177 | every token's set loses the id, and tokens whose sets empty are dropped |
| EagerIndex.HashFileIndex.RemoveFileReadingDisk | src/indexer/index/HashFileIndex.java:79-89 | keeps the invariant (not cleanliness: a stale id may stay, see `StaleIdAfterDiskRemoval`); the new state and the answer are `RemoveReadingDisk` of the old state (see `RemoveReadingDiskOutcome`) |
| EagerIndex.HashFileIndex.RemoveReadingFromDisk | src/indexer/index/HashFileIndex.java:151-166 | succeeds exactly when the file is read; then only the sets of the tokens read now lose the id, and empty sets are dropped; on failure nothing changes |
| EagerIndex.HashFileIndex.HandleFileModification | src/indexer/index/HashFileIndex.java:92-103 | keeps the invariant, and a clean index stays clean; the new state and the outcome are `EagerIndexSpec.HandleFileModification` of the old state (see `HandleFileModificationOutcome`) |
| EagerIndex.HashFileIndex.RemoveDirectory | src/indexer/index/HashFileIndex.java:111-122 | for a clean index, keeps the invariant and cleanliness, and the new state is `EagerIndexSpec.RemoveDirectory` of the old one (see `RemoveDirectoryOutcome`) |
| EagerIndex.HashFileIndex.RemoveChildren | src/indexer/index/HashFileIndex.java:179-187 | the set keeps exactly the ids whose files are not strict descendants of the directory |
| EagerIndex.HashFileIndex.RemoveFromFileIdMaps | src/indexer/index/HashFileIndex.java:189-200 | both id maps lose exactly the files that are strict descendants of the directory |
| EagerIndexSpec.EmptyInv | src/indexer/index/HashFileIndex.java:19-24 | the empty index satisfies the invariant and is clean |
| EagerIndexSpec.AddFile | src/indexer/index/HashFileIndex.java:55-66 | definition: a contained file answers true unchanged; a failed read (an unreadable file included) answers false unchanged; otherwise the file gets id `lastId + 1` in both id maps and joins each of its tokens' sets (properties in `AddFileOutcome`) |
| EagerIndexSpec.RemoveIteratingAll | src/indexer/index/HashFileIndex.java:69-76 | definition: a contained file's id leaves every set, an emptied token is dropped, and the file leaves both id maps (properties in `RemoveIteratingAllOutcome`) |
| EagerIndexSpec.RemoveReadingDisk | src/indexer/index/HashFileIndex.java:79-89 | definition: an uncontained file answers true unchanged; a failed re-read answers false unchanged; otherwise only the sets of the tokens read now lose the id and the file leaves both id maps (properties in `RemoveReadingDiskOutcome`, `StaleIdAfterDiskRemoval`) |
| EagerIndexSpec.RemoveDirectory | src/indexer/index/HashFileIndex.java:111-122 | definition: every set loses the ids of the files strictly below the directory, emptied tokens are dropped, and those files leave both id maps (properties in `RemoveDirectoryOutcome`) |
| EagerIndexSpec.HandleFileModification | src/indexer/index/HashFileIndex.java:92-103 | definition: unreadable answers false and uncontained true, unchanged; a contained file is removed by iterating all sets and added again, a failed re-add giving `InconsistentIndexException` (properties in `HandleFileModificationOutcome`) |
| EagerIndexSpec.PutTokensClosedForm | src/indexer/index/HashFileIndex.java:134-149 | after posting, a token has a set exactly when it had one or is in the file, and the set of each token of the file gains the id |
| EagerIndexSpec.AddFilePreservesInv | src/indexer/index/HashFileIndex.java:55-66 | adding keeps the invariant and cleanliness |
| EagerIndexSpec.AddFileOutcome | src/indexer/index/HashFileIndex.java:55-66 | a contained file answers true without change; a new file that cannot be read answers false without change; otherwise the file gets the next id, which was unused, and it joins exactly the sets of its tokens |
| EagerIndexSpec.AddedHolders | src/indexer/index/HashFileIndex.java:33-66 | a newly added file is held by exactly the tokens it contains |
| EagerIndexSpec.RemoveIteratingAllPreservesInv | src/indexer/index/HashFileIndex.java:69-76 | removal by iteration keeps the invariant and cleanliness |
| EagerIndexSpec.RemoveIteratingAllOutcome | src/indexer/index/HashFileIndex.java:69-76 | an uncontained path changes nothing; a contained one leaves both id maps and every set, and no token still holds it |
| EagerIndexSpec.RemoveReadingDiskPreservesInv | src/indexer/index/HashFileIndex.java:79-89 | removal by re-reading keeps the invariant |
| EagerIndexSpec.RemoveReadingDiskOutcome | src/indexer/index/HashFileIndex.java:79-89 | an uncontained path answers true without change; a failed re-read answers false without change; otherwise the file leaves both id maps and only the sets of the tokens read now |
| EagerIndexSpec.StaleIdAfterDiskRemoval | src/indexer/index/HashFileIndex.java:151-166 | a file whose content changed before it was removed by re-reading leaves its id in an old token's set; the index is no longer clean, and searching that token answers only `null`s |
| EagerIndexSpec.RemoveDirectoryPreservesInv | src/indexer/index/HashFileIndex.java:111-122 | `removeDirectory` keeps the invariant and cleanliness |
| EagerIndexSpec.RemoveDirectoryOutcome | src/indexer/index/HashFileIndex.java:111-122 | a path stays contained exactly when it was and is not a strict descendant; every set loses exactly the ids of those descendants |
| EagerIndexSpec.HandleFileModificationPreservesInv | src/indexer/index/HashFileIndex.java:92-103 | `handleFileModification` keeps the invariant and cleanliness |
| EagerIndexSpec.HandleFileModificationOutcome | src/indexer/index/HashFileIndex.java:92-103 | an unreadable file answers false and an uncontained one true, both without change; a failed re-read throws `InconsistentIndexException`; a successful one gives the file the next id and leaves it held by exactly its new tokens |
| EagerIndexSpec.CleanAnswers | src/indexer/index/HashFileIndex.java:33-45 | on a clean index every answer is a path, a path is answered exactly when a token holds it, and no path is answered twice |
| MonitorRegistry.CoveredDropsNothing | src/main/java/indexer/fsmonitor/FSMonitorsManager.java:106-119 | on a registry without overlaps, a walk that stops at a covering path has dropped and stopped nothing |
| MonitorRegistry.AddMonitor | src/main/java/indexer/fsmonitor/FSMonitorsManager.java:50-64 | definition: a covered target answers true unchanged; otherwise the monitors under the target are stopped and dropped, then the new monitor is registered and its runner started, or the call answers false (properties in `AddMonitorOutcome`, `AddMonitorPreservesInv`) |
| MonitorRegistry.RemoveMonitor | src/main/java/indexer/fsmonitor/FSMonitorsManager.java:75-83 | definition of the main `removeMonitor`: an unregistered target answers false; a throwing stop gives `IOException` unchanged; otherwise the monitor is stopped and its key dropped (properties in `RemoveMonitorOutcome`) |
| MonitorRegistry.RemoveUnstopped | src/indexer/fsmonitor/FSMonitorsManager.java:43-45 | definition of the old `removeMonitor`: the key is dropped without stopping its monitor, the answer saying whether it was registered (properties in `RemoveUnstoppedLeavesMonitorRunning`) |
| MonitorRegistry.StopAll | src/main/java/indexer/fsmonitor/FSMonitorsManager.java:90-94 | definition: every registered monitor is stopped and stays registered (properties in `StopAllOutcome`) |
| MonitorRegistry.RunTrace | src/main/java/indexer/fsmonitor/FSMonitorsManager.java:130-147 | definition of a runner over the outcomes of its `startMonitoring` calls: a return ends it; a failure lowers the counter and restarts while it is at least the bound (0 for the main manager, 1 for the old one) and otherwise calls `onMonitorDown`; a throwing callback sets the error flag and ends it (properties in `RestartRule`, `ThrowingRestartStops`, `ErrorNeedsThrow`, `DownIsLast`) |
| MonitorRegistry.CompleteWalk | src/main/java/indexer/fsmonitor/FSMonitorsManager.java:106-119 | a complete walk drops exactly the paths under the target |
| MonitorRegistry.AddKeepsNoOverlap | src/main/java/indexer/fsmonitor/FSMonitorsManager.java:50-64 | registering an uncovered target after dropping the paths under it keeps the registry free of overlaps |
| MonitorRegistry.RemoveKeepsNoOverlap | src/main/java/indexer/fsmonitor/FSMonitorsManager.java:75-83 | removing a target keeps the registry free of overlaps |
| MonitorRegistry.NewManagerInv | src/main/java/indexer/fsmonitor/FSMonitorsManager.java:23-36 | a new manager satisfies the manager invariant |
| MonitorRegistry.AddMonitorPreservesInv | src/main/java/indexer/fsmonitor/FSMonitorsManager.java:50-64 | `addMonitor` keeps the manager invariant |
| MonitorRegistry.AddMonitorOutcome | src/main/java/indexer/fsmonitor/FSMonitorsManager.java:50-64 | the answer is true exactly when the target was covered or its monitor could be created; then the target is covered; paths not under the target keep their monitors; an uncovered target first loses the monitors under it; a created monitor starts exactly one runner; the error flag does not change |
| MonitorRegistry.AddMonitorIdempotent | src/main/java/indexer/fsmonitor/FSMonitorsManager.java:50-64 | after a successful `addMonitor`, adding the same target again changes nothing and answers true |
| MonitorRegistry.RemoveMonitorOutcome | src/main/java/indexer/fsmonitor/FSMonitorsManager.java:75-83 | keeps the invariant; true exactly for a registered target whose stop does not throw, and that monitor is stopped; an IOException exactly when the stop throws, with nothing changed; only that exact key can go |
| MonitorRegistry.RemoveUnstoppedLeavesMonitorRunning | src/indexer/fsmonitor/FSMonitorsManager.java:43-45 | the old `removeMonitor` drops a running monitor from the registry without stopping it |
| MonitorRegistry.StopAllOutcome | src/main/java/indexer/fsmonitor/FSMonitorsManager.java:90-94 | keeps the invariant; every registered monitor is stopped, the registry is kept, and stopping twice is stopping once |
| MonitorRegistry.ReturnFiresNothing | src/main/java/indexer/fsmonitor/FSMonitorsManager.java:131-133 | a monitor that returns normally invokes no callback and sets no error |
| MonitorRegistry.RestartRule | src/main/java/indexer/fsmonitor/FSMonitorsManager.java:130-147 | with failures whose callbacks succeed, a runner restarts exactly as many times as its budget allows, then reports the monitor down, without error |
| MonitorRegistry.ThrowingRestartStops | src/main/java/indexer/fsmonitor/FSMonitorsManager.java:134-145 | a restart callback that throws sets the error flag and ends the runner after that one restart |
| MonitorRegistry.ErrorNeedsThrow | src/main/java/indexer/fsmonitor/FSMonitorsManager.java:143-145 | the error flag is set only if some callback threw, and there is at most one callback per run |
| MonitorRegistry.DownIsLast | src/main/java/indexer/fsmonitor/FSMonitorsManager.java:137-142 | every callback but the last is a restart |
| MonitorsManager.FSMonitorsManager.constructor | src/main/java/indexer/fsmonitor/FSMonitorsManager.java:29-36 | a new manager is valid, with no monitors, no runner and no error |
| MonitorsManager.FSMonitorsManager.AddMonitor | src/main/java/indexer/fsmonitor/FSMonitorsManager.java:50-64 | keeps the invariant; the new value and the answer are `MonitorRegistry.AddMonitor` of the old value (see `AddMonitorOutcome`) |
| MonitorsManager.FSMonitorsManager.AddingIsNeeded | src/main/java/indexer/fsmonitor/FSMonitorsManager.java:106-119 | answers true exactly when no registered path covers the target; the paths walked before the answer cover nothing, and those under the target are stopped and dropped; a true answer means the whole registry was walked |
| MonitorsManager.FSMonitorsManager.RemoveMonitor | src/main/java/indexer/fsmonitor/FSMonitorsManager.java:75-83 | keeps the invariant; the new value and the outcome are `MonitorRegistry.RemoveMonitor` of the old value (see `RemoveMonitorOutcome`) |
| MonitorsManager.FSMonitorsManager.StopAllMonitors | src/main/java/indexer/fsmonitor/FSMonitorsManager.java:90-94 | every registered monitor is stopped and nothing else changes (see `StopAllOutcome`) |
| MonitorsManager.FSMonitorsManager.IsErrorOccurred | src/main/java/indexer/fsmonitor/FSMonitorsManager.java:102-104 | answers the manager's error flag, which only a throwing callback sets (see `ErrorNeedsThrow`) |
| MonitorsManager.MonitorRunner.constructor | src/main/java/indexer/fsmonitor/FSMonitorsManager.java:125-128 | the runner holds its manager, monitor, target and budget |
| MonitorsManager.MonitorRunner.Run | src/main/java/indexer/fsmonitor/FSMonitorsManager.java:130-147 | the callbacks, the final counter and the error flag are the `RunTrace` of the runs with restarts while the counter is `>= 0`; nothing else in the manager changes |
| OldMonitorsManager.FSMonitorsManager.constructor | src/indexer/fsmonitor/FSMonitorsManager.java:21-26 | a new manager is valid, with no monitors, no runner and no error |
| OldMonitorsManager.FSMonitorsManager.AddMonitor | src/indexer/fsmonitor/FSMonitorsManager.java:28-41 | keeps the invariant; the new value and the answer are `MonitorRegistry.AddMonitor` of the old value |
| OldMonitorsManager.FSMonitorsManager.AddingIsNeeded | src/indexer/fsmonitor/FSMonitorsManager.java:57-70 | as in the main manager: true exactly when nothing covers the target, and the paths under it met on the way are stopped and dropped |
| OldMonitorsManager.FSMonitorsManager.RemoveMonitor | src/indexer/fsmonitor/FSMonitorsManager.java:43-45 | keeps the invariant; the exact key is dropped without stopping its monitor, and the answer says whether it was registered |
| OldMonitorsManager.FSMonitorsManager.StopAllMonitors | src/indexer/fsmonitor/FSMonitorsManager.java:47-51 | every registered monitor is stopped and nothing else changes |
| OldMonitorsManager.FSMonitorsManager.IsErrorOccurred | src/indexer/fsmonitor/FSMonitorsManager.java:53-55 | answers the manager's error flag, which only a throwing callback sets (see `ErrorNeedsThrow`) |
| OldMonitorsManager.MonitorRunner.constructor | src/indexer/fsmonitor/FSMonitorsManager.java:76-79 | the runner holds its manager, monitor, target and budget |
| OldMonitorsManager.MonitorRunner.Run | src/indexer/fsmonitor/FSMonitorsManager.java:81-98 | the callbacks, the final counter and the error flag are the `RunTrace` of the runs with restarts while the counter is `> 0`; nothing else in the manager changes |
| IndexEvents.EventsHandler.constructor | src/main/java/indexer/handler/IndexEventsHandler.java:15-17 | a new handler has received no event |
| IndexEvents.EventsHandler.Handle | src/main/java/indexer/handler/IndexEventsHandler.java:15-17 | the event is logged, and the call throws `NotHandledEventException` exactly when told to |
| IndexMonitorHandlers.IndexMonitorHandler.constructor | src/main/java/indexer/fsmonitor/IndexMonitorHandler.java:15-17 | the handler holds its events handler, and no monitor is down |
| IndexMonitorHandlers.IndexMonitorHandler.OnMonitorRestart | src/main/java/indexer/fsmonitor/IndexMonitorHandler.java:20-23 | the directory is reported removed and then added; a failing removal throws before the addition is reported |
| IndexMonitorHandlers.IndexMonitorHandler.OnMonitorDown | src/main/java/indexer/fsmonitor/IndexMonitorHandler.java:26-29 | the directory is reported removed, and the monitor is marked down exactly when that does not throw |
| IndexMonitorHandlers.IndexMonitorHandler.IsSomeMonitorDown | src/main/java/indexer/fsmonitor/IndexMonitorHandler.java:31-33 | answers the down flag, which `OnMonitorDown` raises once its removal is handled and nothing lowers |
| RootMonitorHandlers.RootMonitorHandler.constructor | src/main/java/indexer/fsmonitor/RootMonitorHandler.java:19-21 | the handler holds its manager, and no monitor is down |
| RootMonitorHandlers.RootMonitorHandler.OnMonitorRestart | src/main/java/indexer/fsmonitor/RootMonitorHandler.java:23-24 | does nothing and returns normally |
| RootMonitorHandlers.RootMonitorHandler.OnMonitorDown | src/main/java/indexer/fsmonitor/RootMonitorHandler.java:27-34 | removes the directory's monitor from the manager; a throwing stop becomes `NotHandledEventException` and leaves the down flag alone; otherwise the monitor is marked down and the directory is no longer registered |
| RootMonitorHandlers.RootMonitorHandler.IsMonitorDown | src/main/java/indexer/fsmonitor/RootMonitorHandler.java:37 | answers the down flag that `OnMonitorDown` raises once the monitor is removed |
| IndexUpdaters.WalkShape | src/main/java/indexer/handler/IndexUpdater.java:91-102 | the walk fails exactly when a visit fails; every batch has `ADD_FILE_CACHE_SIZE + 1` files; the cache left over holds at most `ADD_FILE_CACHE_SIZE`; the batches followed by the cache are the queued files in visit order |
| IndexUpdaters.Walk | src/main/java/indexer/handler/IndexUpdater.java:91-102 | definition: the visits in order; a detected file is cached and a cache over `ADD_FILE_CACHE_SIZE` becomes a batch; an undetected file is skipped; a failure ends the walk (properties in `WalkShape`, `WalkAfterFailure`) |
| IndexUpdaters.WalkAfterFailure | src/main/java/indexer/handler/IndexUpdater.java:43-47 | nothing visited after a failure changes the walk |
| IndexUpdaters.AddFilesConcat | src/main/java/indexer/handler/IndexUpdater.java:97-116 | adding one list of files after another is adding their concatenation, so batching does not change the index |
| IndexUpdaters.Removed | src/main/java/indexer/handler/IndexUpdater.java:54-60 | a removed event keeps the index invariant |
| IndexUpdaters.RemovedOutcome | src/main/java/indexer/handler/IndexUpdater.java:54-60 | afterwards the path is not contained; another path stays contained exactly when it was and, if the removed path was not contained, is not one of its strict descendants; no posting list changes |
| IndexUpdaters.RemovedTwice | src/main/java/indexer/handler/IndexUpdater.java:54-60 | a second removed event for the same path changes nothing, unless the path was a contained file with contained files under it |
| IndexUpdaters.Modified | src/main/java/indexer/handler/IndexUpdater.java:63-69 | definition: the lazy index's `HandleFileModification`, its `InconsistentIndexException` turned into `NotHandledEventException` and its boolean answer dropped (properties in `ModifiedOutcome`) |
| IndexUpdaters.ModifiedOutcome | src/main/java/indexer/handler/IndexUpdater.java:63-69 | keeps the invariant; throws, and then only `NotHandledEventException`, exactly when a contained file fails to be read again; an uncontained or unreadable file changes nothing |
| IndexUpdaters.IndexUpdater.constructor | src/main/java/indexer/handler/IndexUpdater.java:32-34 | the updater holds its index |
| IndexUpdaters.IndexUpdater.OnFilesAddedEvent | src/main/java/indexer/handler/IndexUpdater.java:37-51 | keeps the index valid; a failed walk throws `NotHandledEventException` after the batches handed over so far are added; a complete walk adds every queued file in visit order |
| IndexUpdaters.IndexUpdater.OnFilesRemovedEvent | src/main/java/indexer/handler/IndexUpdater.java:54-60 | keeps the index valid; the new state is `Removed` of the old one (see `RemovedOutcome`) |
| IndexUpdaters.IndexUpdater.OnFilesModifiedEvent | src/main/java/indexer/handler/IndexUpdater.java:63-69 | keeps the index valid; the new state and the outcome are `Modified` of the old state (see `ModifiedOutcome`) |
| Indexer.StateCheck | src/main/java/indexer/FSIndexer.java:125-131 | a closed indexer throws `IndexClosedException`; else a monitor down or a runner error throws `InconsistentIndexException`; returns normally exactly when neither holds |
| Indexer.FSIndexer.constructor | src/main/java/indexer/FSIndexer.java:48-54 | the indexer is open, holds its collaborators, and has a new manager with no monitors |
| Indexer.FSIndexer.CheckState | src/main/java/indexer/FSIndexer.java:125-131 | passes exactly when the indexer is open, its lifecycle handler has no monitor down and the manager has no error; a closed indexer throws `IndexClosedException`, otherwise a failing check throws `InconsistentIndexException` |
| Indexer.FSIndexer.Search | src/main/java/indexer/FSIndexer.java:64-67 | a failing check throws and leaves the index alone; otherwise it answers the lazy index's search and leaves the index as that search does |
| Indexer.FSIndexer.Add | src/main/java/indexer/FSIndexer.java:77-86 | a failing check is thrown with nothing done; otherwise the added event is reported; if it fails the call throws an IOException and adds no monitor; otherwise a monitor with 3 restarts is added for the path |
| Indexer.FSIndexer.Remove | src/main/java/indexer/FSIndexer.java:96-105 | a failing check is thrown with nothing done; otherwise the removed event is reported; if it fails, an IOException and no change to the monitors; otherwise the path's monitor is removed, and a throwing stop is an IOException |
| Indexer.FSIndexer.ContainsFile | src/main/java/indexer/FSIndexer.java:115-118 | a failing check is thrown; otherwise the answer is whether the index contains the path |
| Indexer.FSIndexer.Close | src/main/java/indexer/FSIndexer.java:120-123 | every monitor is stopped and the indexer is closed, so every later check throws `IndexClosedException` |
| OldIndexer.MonitoredPath | src/indexer/FSIndexer.java:66-68 | a directory is monitored itself; a file is monitored through its parent, which has one component less |
| OldIndexer.FSIndexer.constructor | src/indexer/FSIndexer.java:39-44 | an open indexer over an empty, clean eager index, an events handler that has received nothing, a lifecycle handler over it with no monitor down, and a manager with no monitors |
| OldIndexer.FSIndexer.CheckState | src/indexer/FSIndexer.java:114-120 | passes exactly when the indexer is open, the index monitor handler has no monitor down and the manager has no error; a closed indexer throws `IndexClosedException`, otherwise a failing check throws `InconsistentIndexException` |
| OldIndexer.FSIndexer.Search | src/indexer/FSIndexer.java:46-54 | a failing check is thrown; otherwise the answer is the eager index's answer for the token |
| OldIndexer.FSIndexer.Add | src/indexer/FSIndexer.java:56-73 | a failing check is thrown with nothing done; otherwise the added event is reported; if it fails, an IOException and no monitor; otherwise a monitor with 3 restarts is added for the path, or for its parent when it is not a directory |
| OldIndexer.FSIndexer.Remove | src/indexer/FSIndexer.java:75-92 | a failing check is thrown with nothing done; otherwise the removed event is reported; if it fails, an IOException; otherwise the monitor of the path, or of its parent for a file, is dropped without being stopped |
| OldIndexer.FSIndexer.ContainsFile | src/indexer/FSIndexer.java:94-102 | a failing check is thrown; otherwise the answer is whether the index contains the path |
| OldIndexer.FSIndexer.Close | src/indexer/FSIndexer.java:104-112 | every monitor is stopped and the indexer is closed, so every later check throws `IndexClosedException` |
| WordSplitting.SplitPieces | src/main/java/indexer/tokenizer/WordsTokenizer.java:26-38 | no piece holds a separator, and there is one piece more than there are separators |
| WordSplitting.Split | src/main/java/indexer/tokenizer/WordsTokenizer.java:26-38 | definition: the text between separators, in order, empty pieces included; its `ensures` gives at least one piece (properties in `SplitPieces`, `SplitAtFirst`, `JoinSplit`) |
| WordSplitting.Words | src/main/java/indexer/tokenizer/WordsTokenizer.java:16-38 | definition of the token list: the pieces, the last dropped when empty, since an empty word at end of input is not returned (properties in `WordsAtFirst`, `WordsJoin`, `LastPiece`) |
| WordSplitting.WordsHaveNoSeparator | src/main/java/indexer/tokenizer/WordsTokenizer.java:26-38 | no word holds a separator |
| WordSplitting.SplitNoSeparator | src/main/java/indexer/tokenizer/WordsTokenizer.java:26-38 | a text without separators is one piece |
| WordSplitting.SplitAtFirst | src/main/java/indexer/tokenizer/WordsTokenizer.java:26-38 | splitting at the first separator gives the text before it, then the split of the rest |
| WordSplitting.WordsNoSeparator | src/main/java/indexer/tokenizer/WordsTokenizer.java:26-38 | a text without separators is one word, or none when it is empty |
| WordSplitting.WordsAtFirst | src/main/java/indexer/tokenizer/WordsTokenizer.java:26-38 | the first word is everything before the first separator, even when that is empty |
| WordSplitting.ReadWordMeaning | src/main/java/indexer/tokenizer/WordsTokenizer.java:26-38 | one call of `readWord` takes exactly the first word off the remaining input, and an empty read at the end takes none |
| WordSplitting.LastPiece | src/main/java/indexer/tokenizer/WordsTokenizer.java:34-36 | the last piece is empty exactly when the text is empty or ends with a separator |
| WordSplitting.JoinSplit | src/main/java/indexer/tokenizer/WordsTokenizer.java:26-38 | joining the pieces with spaces gives back the text with every separator written as a space |
| WordSplitting.WordsJoin | src/main/java/indexer/tokenizer/WordsTokenizer.java:16-38 | joining the words with spaces gives back that text, less one trailing separator |
| WordSplitting.Replace | src/main/java/indexer/tokenizer/WordsTokenizer.java:28 | same length as the text, with each separator replaced by a space and every other character kept |
| WordSplitting.CharReader.constructor | src/main/java/indexer/tokenizer/WordsTokenizer.java:27 | a reader over the text, at its start |
| WordSplitting.CharReader.Read | src/main/java/indexer/tokenizer/WordsTokenizer.java:27-30 | yields the next character and advances, or `-1` at the end without moving |
| WordsTokenizers.WordsTokenizer.constructor | src/main/java/indexer/tokenizer/WordsTokenizer.java:11-13 | the string builder starts empty |
| WordsTokenizers.WordsTokenizer.Tokenize | src/main/java/indexer/tokenizer/WordsTokenizer.java:16-24 | reads the whole input and answers its words, split at space and line feed |
| WordsTokenizers.WordsTokenizer.ReadWord | src/main/java/indexer/tokenizer/WordsTokenizer.java:26-38 | answers nothing exactly at the end of input; otherwise it consumes input and answers a word without separators; together with the words of the rest, that word is the words of the input it started from; the builder is left empty |
| WordsTokenizers.TokenizeTest | src/test/indexer/tokenizer/WordsTokenizerTest.java:14-28 | "First test for tokenizer" tokenizes to its four words |
| WordsTokenizers.NewLineSeparates | src/main/java/indexer/tokenizer/WordsTokenizer.java:28 | a line feed separates words in the main tokenizer and not in the old one |
| OldWordsTokenizers.Tokenize | src/main/indexer/tokenizer/WordsTokenizer.java:13-21 | reads the whole input and answers its words, split at space only |
| OldWordsTokenizers.ReadWord | src/main/indexer/tokenizer/WordsTokenizer.java:23-34 | answers nothing exactly at the end of input; otherwise a word without spaces that, with the words of the rest, is the words of the input it started from |
| ControlsCounters.PairRoundTrip | src/main/java/indexer/encoding/automaton/ControlsCounter.java:56-61 | a supplementary code point encoded as a surrogate pair (section 2.1 of RFC 2781) is decoded back by `codePointForPair` |
| ControlsCounters.CodePointForPair | src/main/java/indexer/encoding/automaton/ControlsCounter.java:56-61 | the result is a code point (at most U+10FFFF); it is supplementary exactly when the arguments are a high and a low surrogate, and otherwise it is the first unit |
| ControlsCounters.IsCountedControl | src/main/java/indexer/encoding/automaton/ControlsCounter.java:63-69 | definition: an ISO control that `Character.isWhitespace` rejects (ranges in `CountedControlRange`) |
| ControlsCounters.Decode | src/main/java/indexer/encoding/automaton/ControlsCounter.java:14-36 | definition of how `feed` reads a text: a unit that is not a high surrogate is a code point, a high surrogate takes the next unit with it, and one at the end is left pending (properties in `DecodeShape`, `DecodeConcat`, `DecodeWithoutSurrogates`) |
| ControlsCounters.Fed | src/main/java/indexer/encoding/automaton/ControlsCounter.java:14-36 | definition of one `feed`: the pending surrogate and the chunk decoded as one text, the code points and controls added to the counts (properties in `FedTwice`, `FedAllIsConcat`, `FedPreservesInv`) |
| ControlsCounters.PairDecodes | src/main/java/indexer/encoding/automaton/ControlsCounter.java:56-61 | a high and a low surrogate decode to a supplementary code point whose encoding is that same pair |
| ControlsCounters.CountedControlRange | src/main/java/indexer/encoding/automaton/ControlsCounter.java:63-69 | the counted controls are exactly U+0000-U+0008, U+000E-U+001B and U+007F-U+009F |
| ControlsCounters.PairIsNoControl | src/main/java/indexer/encoding/automaton/ControlsCounter.java:19-28 | whatever follows a high surrogate, the code point read from the pair is never counted as a control |
| ControlsCounters.ControlsAtMostAll | src/main/java/indexer/encoding/automaton/ControlsCounter.java:63-69 | there are never more controls than code points |
| ControlsCounters.ControlsConcat | src/main/java/indexer/encoding/automaton/ControlsCounter.java:63-69 | the control count of two code-point sequences is the sum of their counts |
| ControlsCounters.DecodeShape | src/main/java/indexer/encoding/automaton/ControlsCounter.java:22-35 | a pending unit is the text's last unit and a high surrogate, and there are never more code points than units |
| ControlsCounters.DecodeConcat | src/main/java/indexer/encoding/automaton/ControlsCounter.java:14-36 | decoding two texts in a row is decoding the first, then its pending surrogate followed by the second |
| ControlsCounters.DecodeWithoutSurrogates | src/main/java/indexer/encoding/automaton/ControlsCounter.java:23-25 | a text without high surrogates decodes to its units one by one, with nothing pending |
| ControlsCounters.FedPreservesInv | src/main/java/indexer/encoding/automaton/ControlsCounter.java:14-36 | feeding keeps a pending unit a high surrogate and the control count between 0 and the character count |
| ControlsCounters.FedTwice | src/main/java/indexer/encoding/automaton/ControlsCounter.java:14-36 | feeding two chunks one after the other is feeding their concatenation |
| ControlsCounters.FedAllIsConcat | src/main/java/indexer/encoding/automaton/ControlsCounter.java:14-36 | feeding any list of chunks is feeding their concatenation, so the counts do not depend on the chunking |
| ControlsCounters.FedPendingFirst | src/main/java/indexer/encoding/automaton/ControlsCounter.java:17-21 | a waiting high surrogate pairs with the chunk's first unit, which is counted with it and consumed |
| ControlsCounters.FedSingle | src/main/java/indexer/encoding/automaton/ControlsCounter.java:23-25 | a unit that is not a high surrogate counts as one code point |
| ControlsCounters.FedPair | src/main/java/indexer/encoding/automaton/ControlsCounter.java:27-29 | a high surrogate before the chunk's end takes the next unit with it as one code point |
| ControlsCounters.FedLast | src/main/java/indexer/encoding/automaton/ControlsCounter.java:30-33 | a high surrogate at the chunk's end is kept waiting and is not counted |
| ControlsCounters.FeedStepKeepsGoal | src/main/java/indexer/encoding/automaton/ControlsCounter.java:22-35 | one turn of the loop advances and keeps what remains to be fed equal to the whole chunk's effect |
| ControlsCounters.ControlsCounter.constructor | src/main/java/indexer/encoding/automaton/ControlsCounter.java:7-12 | a new counter is valid, with nothing waiting and both counts zero |
| ControlsCounters.ControlsCounter.Feed | src/main/java/indexer/encoding/automaton/ControlsCounter.java:14-36 | keeps the counter valid; the new value is `Fed` of the old value and the window's characters |
| ControlsCounters.ControlsCounter.FeedAt | src/main/java/indexer/encoding/automaton/ControlsCounter.java:23-34 | one turn of the loop moves the counter and the index as `FeedStep` says |
| ControlsCounters.ControlsCounter.Count | src/main/java/indexer/encoding/automaton/ControlsCounter.java:63-69 | one more character, and one more control exactly when the code point is a non-whitespace ISO control |
| ControlsCounters.ControlsCounter.Reset | src/main/java/indexer/encoding/automaton/ControlsCounter.java:38-42 | the counter is back to its initial value |
| ControlsCounters.ControlsCounter.HasPrev | src/main/java/indexer/encoding/automaton/ControlsCounter.java:48-50 | answers whether a high surrogate waits for the next chunk |
| ControlsCounters.ControlsCounter.GetControlsNum | src/main/java/indexer/encoding/automaton/ControlsCounter.java:52-54 | answers the controls counted; on a valid counter it is between zero and the number of code points counted |
| CharArrays.CharArrayWrapper.constructor | src/main/java/indexer/encoding/automaton/CharArrayWrapper.java:11-15 | the window is the whole array |
| CharArrays.CharArrayWrapper.SetRange | src/main/java/indexer/encoding/automaton/CharArrayWrapper.java:17-20 | the window gets the given start and length; the array is unchanged |
| CharArrays.CharArrayWrapper.GetLen | src/main/java/indexer/encoding/automaton/CharArrayWrapper.java:22-24 | for a window inside the array, the number of characters in the window |
| CharArrays.CharArrayWrapper.Get | src/main/java/indexer/encoding/automaton/CharArrayWrapper.java:26-28 | the character at the start plus the offset |
| CharArrays.CharArrayWrapper.Content | src/main/java/indexer/encoding/automaton/CharArrayWrapper.java:22-28 | the window's characters: `getLen()` of them, the i-th being `get(i)` |
| CharArrays.GetIgnoresLength | src/main/java/indexer/encoding/automaton/CharArrayWrapper.java:26-28 | `get` does not check the window's length: a window of length 0 still yields the array's character |

## Left out

- File contents and `canRead()` are inputs (`Files.FileRead`, `Files.Disk`). Opening files, readers, charsets and `EncodedFile` are not modelled.
- The `IOException` a reader may throw inside `tokenize` is not modelled. `CharReader.Read` never fails; a failing read appears only as `FileRead.ReadFailed`.
- Locks, `synchronized`, the read-write lock of the old façade and `ConcurrentHashFileIndex` are not modelled, because calls are taken to be sequential. The concurrent index is the plain index.
- The adder thread pool of `IndexUpdater` is not modelled: batches are added in the order the walk hands them over. `waitAddersToFinish` is not modelled either.
- Monitor threads, `DirMonitor`, `SingleDirMonitor`, `RootMonitor` and the events they produce are not modelled. A runner is driven by a given sequence of `startMonitoring` outcomes; runs beyond that sequence are not modelled.
- A `stopMonitoring()` that throws inside `addingIsNeeded` or `stopAllMonitors` is not modelled, since those stops always succeed here. The main manager's `removeMonitor` does model a throwing stop.
- Paths are sequences of name components. `Paths.get`, `toFile().getAbsolutePath()` and normalisation are not modelled.
- `java.util.HashMap` and `HashSet` iteration order is not modelled. Each loop over one picks an arbitrary element, and its contract holds for every order.
- Ids are unbounded integers, so the 64-bit `AtomicLong` and `int` counters never overflow here.
- EagerIndex.HashFileIndex.RemoveDirectory: requires a clean index (no id without its path), because the source dereferences `idFileMap.get` of a stale id.
- OldIndexer.FSIndexer.Add: requires a non-root path when it is not a directory, because `getParent` of a root is `null`.
- OldIndexer.FSIndexer.Remove: requires a non-root path when it is not a directory, for the same reason.
- `Files.isDirectory` is an input, and so is what creating a monitor yields.
- The main façade's lifecycle handler is the `IndexMonitorHandler` it is built with. The façade asks it `isMonitorDown()` (src/main/java/indexer/FSIndexer.java:128), but `IndexMonitorHandler` defines its flag only as `isSomeMonitorDown()` (src/main/java/indexer/fsmonitor/IndexMonitorHandler.java:31-33); the model reads that flag. Its events handler is a recorder, so the façade is proved to report the right events. What an event does to the lazy index is stated separately, by `IndexUpdaters`.
- The old `IndexUpdater` (`src/indexer/handler/IndexUpdater.java`) is not part of this model; the old façade's events handler is a recorder.
- `ControlsCounter.getPercentage` is not modelled, because it computes in floating point.
- `ControlsCounter.convertingBuffer` is not modelled. `Character.codePointAt` on it is `ControlsCounters.CodePointForPair`.
- ControlsCounters.ControlsCounter.Feed: takes the source's `assert(chars.getLen() != 0)` as a precondition. It also requires the window to lie inside the array, where Java would throw `ArrayIndexOutOfBoundsException`.
- The assert that the second unit of `codePointForPair` is not a high surrogate is not modelled: the model takes the pair as the code does with assertions disabled.
- `EncodingDetector`, `Validator` and the rest of the encoding automaton are not part of this model, and neither are `ExtendedFSIndexer`, `FSWalker`, the loggers, the REPL and `Main`.
- The main tokenizer's `String.intern()` is not modelled: strings are values here. The old tokenizer's reference test `wordString == ""` is modelled as an emptiness test, which is what it amounts to in that code.
- A `null` token passed to `search` is not modelled. Tokens are words.
