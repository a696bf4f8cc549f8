# Multi-caret model and caching dummy file system

A Dafny model of two components of an IDE platform.

1. **The multi-caret model of an editor** (`CaretModelImpl`).
   - The model keeps a list of carets. The last caret of the list is the *primary* caret, and there is always at least one caret.
   - Carets are added unless an existing caret blocks them, either by sitting at the same visual position or by holding the new caret's offset in its selection.
   - Carets are removed by identity; the only caret is never removed.
   - Carets can be bulk-replaced (`setCarets`).
   - Operations can run once per caret in position order (`runForEachCaret`) or as a batch (`runBatchCaretOperation`).
   - When the outermost operation ends, neighbouring carets (in position order) that share a position or have overlapping selections are merged.
2. **A caching dummy file system** (`DummyCachingFileSystem`).
   - It keeps a path → file cache, which is filled lazily and drops entries whose file is no longer valid.
   - It keeps a project ↔ id map.
   - Project lifecycle events clear or update these two tables.
   - Renaming a file drops its cache entry before the rename and puts it back after.
   - A pair of escapers turns `/` into `&slash;` and back.

Modules:

| module | file | contents |
|---|---|---|
| `Options` | `options.dfy` | `Option` |
| `CaretValues` | `caret_values.dfy` | positions, selections, carets, events, the position comparators |
| `CaretSort` | `caret_sort.dfy` | the stable sort by position |
| `CaretMerge` | `caret_merge.dfy` | the merge walk as a function, and what it achieves |
| `CaretModel` | `caret_model.dfy` | class `CaretModelImpl` |
| `SlashEscape` | `slash_escape.dfy` | `escapeSlash` / `unescapeSlash` |
| `DummyCachingFs` | `dummy_caching_fs.dfy` | class `DummyCachingFileSystem` |

Modelling choices:

- **Caret identity.** A caret is a value `Caret(id, pos, offset, selection)`. Its `id` stands for the identity of the caret object.
  - `removeCaret` finds carets by identity, so the model finds them by `id`.
  - A caret without a selection reports its offset as both selection start and end.
- **Coordinates are inputs.** The editor's conversions from visual or logical positions to offsets are not modelled. Callers pass the visual position and offset a caret lands on (`CaretTarget`).
- **Listener notifications** are recorded in a ghost log `events` of `CaretAdded(id)` / `CaretRemoved(id)`.
- **Merge count.** Each run of the merge is counted in the ghost field `mergeRuns`. This is what shows that only the outermost operation merges, and exactly once.
- **The merge walk.** The list-iterator walk of `mergeOverlappingCaretsAndSelections` is `CaretMerge.MergeFrom`: a recursive function over the sorted copy and a cursor.
  - The cursor steps back by one after each merge, as the iterator does.
  - The class method `Walk` runs the same walk as a loop and is proved equal to `MergeFrom`.
- **Caret actions** are functions `Caret -> Caret` that keep the caret's id.
  - A batch (the `Runnable` given to `runBatchCaretOperation`) is a sequence of `BatchStep`s. Each step is either an action run for each caret or a nested batch.
- **Callbacks.**
  - The file system's `findFileByPathInner` lookup and the files' `isValid` are passed to `FindFileByPath` as functions.
  - The open projects and their `isOpen` are passed to the constructor.
  - A project's location hash is a field of the project value.
- **Exceptions.** Where the source throws `IllegalArgumentException` or `IllegalStateException`, the model returns `Failed(reason)`. The default `doRenameFile` always throws `UnsupportedOperationException`; that is the outcome `Unsupported`, while `Renamed` stands for a subclass's renaming that succeeds.
- **Unordered collections.** `getCachedFiles` returns the map's non-null values in no fixed order. The model returns them as a multiset, so a file cached under two paths counts twice.

## Model

Source paths are relative to the repository root.

| member | source | states |
|---|---|---|
| CaretValues.ComparePositions | platform/platform-impl/src/com/intellij/openapi/editor/impl/CaretModelImpl.java:511-521 | zero exactly for equal positions, negative exactly when the first is on an earlier line or further left on the same line, positive exactly in the reverse case |
| CaretValues.CompareCarets | platform/platform-impl/src/com/intellij/openapi/editor/impl/CaretModelImpl.java:523-530 | carets compare equal exactly at the same visual position, and one is less exactly when its position comes first |
| CaretSort.Insert | platform/platform-impl/src/com/intellij/openapi/editor/impl/CaretModelImpl.java:278-280 | inserting into a sorted list keeps it sorted and adds exactly that caret |
| CaretSort.SortCarets | platform/platform-impl/src/com/intellij/openapi/editor/impl/CaretModelImpl.java:278-280 | the result is sorted by line, then column, and is a permutation of the input |
| CaretSort.SortCaretsStable | platform/platform-impl/src/com/intellij/openapi/editor/impl/CaretModelImpl.java:278-280 | the sort is stable: carets at one position leave in the order they came in |
| CaretSort.SortCaretsStableEverywhere | platform/platform-impl/src/com/intellij/openapi/editor/impl/CaretModelImpl.java:278-280 | stability for every position at once |
| CaretMerge.MergePair | platform/platform-impl/src/com/intellij/openapi/editor/impl/CaretModelImpl.java:407-425 | the earlier caret is kept exactly when the later caret's offset lies in its selection, and the other caret is removed; the survivor keeps its id, position and offset; the selection is set exactly when the union [min start, max end] is non-empty, and it is then exactly that union |
| CaretMerge.ShouldMerge | platform/platform-impl/src/com/intellij/openapi/editor/impl/CaretModelImpl.java:404-406 | two carets merge exactly when they share a position or both have non-empty selections that overlap |
| CaretMerge.RemoveById | platform/platform-impl/src/com/intellij/openapi/editor/impl/CaretModelImpl.java:333 | removing a caret present in the list shortens it by one; an absent identity leaves the list as it is |
| CaretMerge.RemoveByIdIds | platform/platform-impl/src/com/intellij/openapi/editor/impl/CaretModelImpl.java:333 | removing a present caret takes exactly its identity, once, out of the list's identities |
| CaretMerge.MergeFromAccounts | platform/platform-impl/src/com/intellij/openapi/editor/impl/CaretModelImpl.java:396-428 | from any walk state, every caret that leaves the list is reported once: the ids kept and the ids reported are together exactly the ids of the list |
| CaretMerge.IndexOfId | platform/platform-impl/src/com/intellij/openapi/editor/impl/CaretModelImpl.java:333 | the index found is the first caret with that identity, or the list length when none has it |
| CaretMerge.MergeStep | platform/platform-impl/src/com/intellij/openapi/editor/impl/CaretModelImpl.java:404-426 | one merge removes exactly one caret from the model; the copy stays a sorted permutation of the model with distinct carets; no pair before the cursor merges |
| CaretMerge.MergeFromKeeps | platform/platform-impl/src/com/intellij/openapi/editor/impl/CaretModelImpl.java:397-428 | from any walk state, at least one caret stays, carets stay distinct, and no caret's id, position or offset is invented |
| CaretMerge.MergeFromSeparates | platform/platform-impl/src/com/intellij/openapi/editor/impl/CaretModelImpl.java:397-428 | from any walk state, the final copy is sorted, holds exactly the surviving carets, and no two of its neighbours merge |
| CaretMerge.MergeFromSound | platform/platform-impl/src/com/intellij/openapi/editor/impl/CaretModelImpl.java:397-428 | the two lemmas above together |
| CaretMerge.MergedCount | platform/platform-impl/src/com/intellij/openapi/editor/impl/CaretModelImpl.java:390-429 | nothing changes without multiple-caret support or with at most one caret; the caret count never grows, never reaches zero, and drops by exactly the number of removals reported; the ids kept and the ids reported removed are together exactly the ids of the list; carets stay distinct and are not moved |
| CaretMerge.MergedSeparated | platform/platform-impl/src/com/intellij/openapi/editor/impl/CaretModelImpl.java:390-429 | after a merge no two carets share a position, and in position order no two neighbours share a position or have overlapping selections |
| CaretModel.ApplyToAll | platform/platform-impl/src/com/intellij/openapi/editor/impl/CaretModelImpl.java:370-375 | every caret gets the action's result; ids and order are kept |
| CaretModel.ApplyToPrimary | platform/platform-impl/src/com/intellij/openapi/editor/impl/CaretModelImpl.java:362-364 | only the last caret changes, to the action's result |
| CaretModel.RemovalEvents | platform/platform-impl/src/com/intellij/openapi/editor/impl/CaretModelImpl.java:486-494 | one removal notice per caret, the last caret's first |
| CaretModel.RemoveFirst | platform/platform-impl/src/com/intellij/openapi/editor/impl/CaretModelImpl.java:235-236 | a registered wrapper is removed once; an unregistered one leaves the dispatcher as it is |
| CaretModel.RemoveFirstFirst | platform/platform-impl/src/com/intellij/openapi/editor/impl/CaretModelImpl.java:235-236 | what is removed is the first occurrence of the wrapper; the wrappers before and after it stay, in order |
| CaretModel.CaretModelImpl.constructor | platform/platform-impl/src/com/intellij/openapi/editor/impl/CaretModelImpl.java:65-67 | a new model holds exactly one caret, with no current caret, merging not deferred and no listeners |
| CaretModel.CaretModelImpl.PrimaryCaret | platform/platform-impl/src/com/intellij/openapi/editor/impl/CaretModelImpl.java:266-270 | the primary caret is in the model and is the caret after all others (no earlier caret is it) |
| CaretModel.CaretModelImpl.AllCarets | platform/platform-impl/src/com/intellij/openapi/editor/impl/CaretModelImpl.java:274-281 | a permutation of the carets sorted by line, then column, with carets at one position in list order |
| CaretModel.CaretModelImpl.CurrentCaret | platform/platform-impl/src/com/intellij/openapi/editor/impl/CaretModelImpl.java:260-262 | on the dispatch thread with a current caret set, that caret; otherwise a caret of the model that no earlier caret shares an identity with, i.e. the primary caret |
| CaretModel.CaretModelImpl.NewCaret | platform/platform-impl/src/com/intellij/openapi/editor/impl/CaretModelImpl.java:300-301 | a caret with a fresh identity, placed at the target, with no selection |
| CaretModel.CaretModelImpl.Admits | platform/platform-impl/src/com/intellij/openapi/editor/impl/CaretModelImpl.java:312-318 | true exactly when no caret is at the new caret's position or holds its offset in [selection start, selection end] |
| CaretModel.CaretModelImpl.AddCaret | platform/platform-impl/src/com/intellij/openapi/editor/impl/CaretModelImpl.java:311-324 | refused, with nothing changed, exactly when some caret blocks the new one; otherwise the caret is appended and becomes the primary, and one addition notice is sent |
| CaretModel.CaretModelImpl.AddCaretAt | platform/platform-impl/src/com/intellij/openapi/editor/impl/CaretModelImpl.java:298-309 | the new caret is returned exactly when it was added |
| CaretModel.CaretModelImpl.RemoveCaret | platform/platform-impl/src/com/intellij/openapi/editor/impl/CaretModelImpl.java:327-340 | succeeds exactly when there are two or more carets and the caret is among them; it then removes that caret alone, the others keep their order, and one removal notice is sent; otherwise nothing changes |
| CaretModel.CaretModelImpl.RemoveSecondaryCarets | platform/platform-impl/src/com/intellij/openapi/editor/impl/CaretModelImpl.java:343-357 | with multiple-caret support only the former primary caret remains, and the others are reported removed from the last one backwards; without it nothing changes |
| CaretModel.CaretModelImpl.EnterMerging | platform/platform-impl/src/com/intellij/openapi/editor/impl/CaretModelImpl.java:432-436 | the call is outermost exactly when merging was not already deferred; afterwards merging is deferred |
| CaretModel.CaretModelImpl.ExitMerging | platform/platform-impl/src/com/intellij/openapi/editor/impl/CaretModelImpl.java:440-443 | a nested call changes nothing; the outermost clears the flag and merges exactly once |
| CaretModel.CaretModelImpl.MergeOverlappingCaretsAndSelections | platform/platform-impl/src/com/intellij/openapi/editor/impl/CaretModelImpl.java:390-429 | the carets become the merge result, and the carets merged away are reported removed in merge order |
| CaretModel.CaretModelImpl.Walk | platform/platform-impl/src/com/intellij/openapi/editor/impl/CaretModelImpl.java:396-428 | the list-iterator loop ends with the carets and removal notices of the merge walk |
| CaretModel.CaretModelImpl.MergePairAt | platform/platform-impl/src/com/intellij/openapi/editor/impl/CaretModelImpl.java:423-426 | one merge removes the loser from the model and gives the survivor its merged selection |
| CaretModel.CaretModelImpl.RunForEachCaret | platform/platform-impl/src/com/intellij/openapi/editor/impl/CaretModelImpl.java:360-383 | without multiple-caret support only the primary caret is acted on; with a current caret set the call fails and changes nothing; otherwise every caret is acted on, the current caret is cleared, and merging happens if the call is outermost |
| CaretModel.CaretModelImpl.EachCaret | platform/platform-impl/src/com/intellij/openapi/editor/impl/CaretModelImpl.java:368-379 | the carets are visited in getAllCarets order (sorted by position, a permutation, ties in list order), each acted on exactly once, and no caret is current afterwards |
| CaretModel.CaretModelImpl.ApplyEach | platform/platform-impl/src/com/intellij/openapi/editor/impl/CaretModelImpl.java:368-379 | each caret of the position-sorted list is made current (the caret getCurrentCaret then returns) and acted on, in that order; afterwards every caret was acted on exactly once and no caret is current |
| CaretModel.CaretModelImpl.DoWithCaretMerging | platform/platform-impl/src/com/intellij/openapi/editor/impl/CaretModelImpl.java:386-445 | a batch runs its steps in order; nested batches never merge; the outermost merges exactly once, at its end, and clears the flag |
| CaretModel.CaretModelImpl.SetCarets | platform/platform-impl/src/com/intellij/openapi/editor/impl/CaretModelImpl.java:448-497 | fails, changing nothing, on an empty position list or lists of different sizes; otherwise places the carets, sends additions then removals, and merges if outermost |
| CaretModel.CaretModelImpl.PlaceCarets | platform/platform-impl/src/com/intellij/openapi/editor/impl/CaretModelImpl.java:457-495 | before merging there is exactly one caret per position: existing carets are reused in list order, fresh ones appended, surplus ones dropped |
| CaretModel.CaretModelImpl.MoveAndAdd | platform/platform-impl/src/com/intellij/openapi/editor/impl/CaretModelImpl.java:462-485 | the i-th existing caret is moved (unless its position is null) and reselected (unless its selection is null); a fresh caret is appended for each further position |
| CaretModel.CaretModelImpl.DropSurplus | platform/platform-impl/src/com/intellij/openapi/editor/impl/CaretModelImpl.java:486-494 | the surplus carets are removed from the end, the last first |
| CaretModel.CaretModelImpl.AddCaretListener | platform/platform-impl/src/com/intellij/openapi/editor/impl/CaretModelImpl.java:204-230 | a multiple-caret listener is registered as itself, any other in a fresh adapter; the map records the wrapper |
| CaretModel.CaretModelImpl.RemoveCaretListener | platform/platform-impl/src/com/intellij/openapi/editor/impl/CaretModelImpl.java:232-238 | a registered listener's wrapper leaves the map and the dispatcher; an unregistered one changes nothing |
| CaretModel.FirstAt | platform/platform-impl/src/com/intellij/openapi/editor/impl/CaretModelImpl.java:285-295 | getCaretAt (the class member `CaretAt` returns this function of the caret list): none exactly when no caret is at the position; otherwise the first caret at it |
| CaretModel.PlacedValid | platform/platform-impl/src/com/intellij/openapi/editor/impl/CaretModelImpl.java:457-495 | the placed list has one caret per position, distinct identities, and only identities handed out |
| CaretModel.RemoveByIdOrder | platform/platform-impl/src/com/intellij/openapi/editor/impl/CaretModelImpl.java:327-340 | a successful removal deletes exactly the caret with that identity, and the others keep their order |
| CaretModel.AddThenRemove | platform/platform-impl/src/com/intellij/openapi/editor/impl/CaretModelImpl.java:311-340 | removing a caret just added succeeds and restores the list |
| CaretModel.RemoveFirstAppended | platform/platform-impl/src/com/intellij/openapi/editor/impl/CaretModelImpl.java:204-238 | removing a listener just added restores the dispatcher |
| CaretModel.RunStepIds | platform/platform-impl/src/com/intellij/openapi/editor/impl/CaretModelImpl.java:360-388 | a batch step (a per-caret action or a nested batch) neither adds nor removes carets and keeps their identities in order |
| CaretModel.RunStepsIds | platform/platform-impl/src/com/intellij/openapi/editor/impl/CaretModelImpl.java:386-388 | a batch of steps neither adds nor removes carets and keeps their identities in order |
| CaretModel.RunStepsAppend | platform/platform-impl/src/com/intellij/openapi/editor/impl/CaretModelImpl.java:386-388 | running two batches in a row is running their concatenation |
| CaretModel.NestedBatch | platform/platform-impl/src/com/intellij/openapi/editor/impl/CaretModelImpl.java:431-445 | a nested batch runs exactly as its steps inlined |
| SlashEscape.EscapeSlash | platform/platform-impl/src/com/intellij/openapi/vfs/ex/dummy/DummyCachingFileSystem.java:183-185 | null becomes ""; the result contains no '/' |
| SlashEscape.UnescapeSlash | platform/platform-impl/src/com/intellij/openapi/vfs/ex/dummy/DummyCachingFileSystem.java:187-189 | null becomes ""; a name without "&slash;" is returned unchanged |
| SlashEscape.EscapeWithoutSlashes | platform/platform-impl/src/com/intellij/openapi/vfs/ex/dummy/DummyCachingFileSystem.java:183-185 | a name without '/' is returned unchanged by escaping |
| SlashEscape.UnescapeEscape | platform/platform-impl/src/com/intellij/openapi/vfs/ex/dummy/DummyCachingFileSystem.java:183-189 | unescapeSlash(escapeSlash(s)) == s for every s without "&slash;" |
| SlashEscape.EscapeUnescape | platform/platform-impl/src/com/intellij/openapi/vfs/ex/dummy/DummyCachingFileSystem.java:183-189 | escapeSlash(unescapeSlash(s)) == s for every s without '/' |
| DummyCachingFs.Fetch | platform/platform-impl/src/com/intellij/openapi/vfs/ex/dummy/DummyCachingFileSystem.java:47-67 | a cached entry (no file, or a valid file) is returned and the cache is unchanged; otherwise the fresh lookup is returned and cached; other paths keep their entries |
| DummyCachingFs.ProjectsWithId | platform/platform-impl/src/com/intellij/openapi/vfs/ex/dummy/DummyCachingFileSystem.java:119 | exactly the projects mapped to the id |
| DummyCachingFs.ProjectById | platform/platform-impl/src/com/intellij/openapi/vfs/ex/dummy/DummyCachingFileSystem.java:117-121 | a project is returned only when it is the only one with the id; none when no project or several projects have it |
| DummyCachingFs.DummyCachingFileSystem.constructor | platform/platform-impl/src/com/intellij/openapi/vfs/ex/dummy/DummyCachingFileSystem.java:69-91 | getProtocol gives the protocol passed in; the cache starts empty; every open project is registered |
| DummyCachingFs.DummyCachingFileSystem.CreateRoot | platform/platform-impl/src/com/intellij/openapi/vfs/ex/dummy/DummyCachingFileSystem.java:93-97 | always none |
| DummyCachingFs.DummyCachingFileSystem.FindFileByPath | platform/platform-impl/src/com/intellij/openapi/vfs/ex/dummy/DummyCachingFileSystem.java:99-102 | the file and new cache are those of the cached lookup |
| DummyCachingFs.DummyCachingFileSystem.GetProject | platform/platform-impl/src/com/intellij/openapi/vfs/ex/dummy/DummyCachingFileSystem.java:117-121 | a project is returned exactly when one project alone has the id, and it is that project |
| DummyCachingFs.DummyCachingFileSystem.CachedFiles | platform/platform-impl/src/com/intellij/openapi/vfs/ex/dummy/DummyCachingFileSystem.java:123-126 | the files of the cache without the missing entries, each as many times as the number of paths it is cached under |
| DummyCachingFs.DummyCachingFileSystem.OnProjectClosed | platform/platform-impl/src/com/intellij/openapi/vfs/ex/dummy/DummyCachingFileSystem.java:128-131 | the cache is empty and only that project's entry leaves the map |
| DummyCachingFs.DummyCachingFileSystem.OnProjectOpened | platform/platform-impl/src/com/intellij/openapi/vfs/ex/dummy/DummyCachingFileSystem.java:133-142 | the cache is empty and the project maps to its location hash; the error is reported exactly when another project already had that id |
| DummyCachingFs.DummyCachingFileSystem.InitProjectMap | platform/platform-impl/src/com/intellij/openapi/vfs/ex/dummy/DummyCachingFileSystem.java:144-148 | every open project is registered in list order; the cache is cleared exactly when some project is open; the projects for which the "already registered" error is logged are returned, in list order |
| DummyCachingFs.DummyCachingFileSystem.ClearCache | platform/platform-impl/src/com/intellij/openapi/vfs/ex/dummy/DummyCachingFileSystem.java:150-152 | the cache is empty |
| DummyCachingFs.DummyCachingFileSystem.Cleanup | platform/platform-impl/src/com/intellij/openapi/vfs/ex/dummy/DummyCachingFileSystem.java:154-158 | both the cache and the project map are empty |
| DummyCachingFs.DummyCachingFileSystem.RenameFile | platform/platform-impl/src/com/intellij/openapi/vfs/ex/dummy/DummyCachingFileSystem.java:160-170 | the rename always fails as unsupported, yet the file is cached under its path afterwards |
| DummyCachingFs.DummyCachingFileSystem.BeforeFileRename | platform/platform-impl/src/com/intellij/openapi/vfs/ex/dummy/DummyCachingFileSystem.java:172-175 | the file's path leaves the cache; nothing else changes |
| DummyCachingFs.DummyCachingFileSystem.FileRenamed | platform/platform-impl/src/com/intellij/openapi/vfs/ex/dummy/DummyCachingFileSystem.java:177-181 | the file is cached under its path; nothing else changes |
| DummyCachingFs.DoRenameFile | platform/platform-impl/src/com/intellij/openapi/vfs/ex/dummy/DummyCachingFileSystem.java:113-115 | the renaming this class defines always fails as unsupported |
| DummyCachingFs.FetchTwice | platform/platform-impl/src/com/intellij/openapi/vfs/ex/dummy/DummyCachingFileSystem.java:47-67 | a second lookup of a path is served from the cache, whatever the lookup function, while the entry is usable |
| DummyCachingFs.FetchAfterRename | platform/platform-impl/src/com/intellij/openapi/vfs/ex/dummy/DummyCachingFileSystem.java:160-181 | after a rename the file is found under its path while valid, and looked up afresh once it is not |
| DummyCachingFs.RegisteredSpec | platform/platform-impl/src/com/intellij/openapi/vfs/ex/dummy/DummyCachingFileSystem.java:144-148 | after registration every open project of the list maps to its location hash, and every other project keeps its entry |
| DummyCachingFs.DuplicatesOpen | platform/platform-impl/src/com/intellij/openapi/vfs/ex/dummy/DummyCachingFileSystem.java:133-148 | only open projects of the list are reported as already registered |
| DummyCachingFs.UniqueIdsNoDuplicates | platform/platform-impl/src/com/intellij/openapi/vfs/ex/dummy/DummyCachingFileSystem.java:133-148 | when the open projects' ids differ from each other and from the ids of other registered projects, no error is logged |
| DummyCachingFs.OpenedThenFound | platform/platform-impl/src/com/intellij/openapi/vfs/ex/dummy/DummyCachingFileSystem.java:117-142 | an opened project is found by its id exactly when no other project has that id |
| DummyCachingFs.ClosedThenGone | platform/platform-impl/src/com/intellij/openapi/vfs/ex/dummy/DummyCachingFileSystem.java:117-131 | a closed project is no longer found under any id |

## Left out

- Threading is not modelled: `synchronized` blocks, dispatch-thread assertions and `ConcurrentFactoryMap` concurrency. Every operation runs alone. `CurrentCaret` takes "is this the dispatch thread" as a parameter.
- The editor's coordinate conversions are not modelled (visual ↔ logical ↔ offset, and `moveToVisualPosition` / `moveToLogicalPosition`). Callers pass the position and offset a caret lands on. `CaretImpl` itself is not part of this model.
- Listener multicasting, the `CaretEvent` payload (logical positions) and position-change notices are not modelled. The ghost log records which caret was added or removed, in order.
- Also not modelled: `Disposer.dispose`, `TextAttributes` and the colour scheme, the message-bus subscriptions, and the document and bulk-update callbacks (`documentChanged`, `updateStarted`/`updateFinished`).
- The delegations to the current caret (`moveCaretRelatively`, `getOffset`, the selection accessors and so on) are not modelled: they live in `CaretImpl`.
- CaretModel.CaretModelImpl.RemoveCaret: the `caret instanceof CaretImpl` test is not modelled. Every caret in the model is a caret of this model.
- CaretModel.CaretModelImpl.ApplyEach: actions are functions of the caret alone and cannot query the model, so the current caret is visible only through the ghost record of `CurrentCaret(true)` at each step. For the same reason no public operation leaves a current caret set, and `RunForEachCaret`'s `Failed(CurrentCaretDefined)` branch is reachable only from inside an action, which the model cannot express.
- CaretModel.CaretModelImpl.RunForEachCaret: an exception thrown by the action (after which the source still clears the current caret and the flag) is not modelled. Actions are total functions that keep the caret's identity.
- CaretModel.CaretModelImpl.DoWithCaretMerging: only batches built from per-caret actions and nested batches are modelled. Arbitrary runnables are not.
- CaretModel.CaretModelImpl.SetCarets: a null position for a caret that has to be created is excluded by its precondition, for a non-empty position list whose size matches the selection list; the two refusals need no such condition. The source hands it to `CaretImpl.moveToLogicalPosition`, which is not part of this model.
- The 32-bit subtraction in the position comparators is not modelled: lines and columns are natural numbers, and the difference of two non-negative 32-bit values cannot overflow.
- DummyCachingFs.Fetch: the file map is assumed to cache a null lookup result like any other, because `getCachedFiles` asks it for its non-null values. The unit-test-mode reset in `create` (cleanup and re-registration before every lookup) is not modelled.
- DummyCachingFs.DummyCachingFileSystem.RenameFile: only the default `doRenameFile`, which always throws, is modelled; overrides in subclasses are not. The property-change notices fired by `beforeFileRename` and `fileRenamed` are not modelled.
- `extractPresentableUrl` is not modelled: it only formats a file's presentable name.
- DummyCachingFs.DummyCachingFileSystem.constructor: the duplicate projects reported by `InitProjectMap` are dropped; the log itself is not modelled.
- `ProjectManager` and the open-project list are not modelled. The constructor receives the projects and their open state.
- SlashEscape.EscapeSlash: `StringUtil.replace` is modelled as a left-to-right replacement of non-overlapping occurrences. `StringUtil` is not part of this model.
- SlashEscape.UnescapeEscape: the round trip is proved only for names without "&slash;". A name that already contains "&slash;" does not come back unchanged.
- SlashEscape.EscapeUnescape: the round trip is proved only for names without '/'.
