# Verification of the workspace core

These Dafny modules model the decision-making core of a code workspace and prove what it promises.

| files | subject |
|---|---|
| `SharedFileMerge`, `SharedLayers`, `SharedResolve`, `Compounds`, `CycleErrors`, `Availability`, `SharedMerge`, `Lookups`, `Emission`, `FinishedModel`, `Clashes` (on `ExecutionModel`, `Graph`, `SmallFiles`) | the repository's shared Run/Debug configurations: migration and layering, resolution against the providers' model, the compound search and its errors, emission and what it changes about the plans, propagation of "unavailable" |
| `FileTree`, `ResourceMove` | replacing and moving files and directories when every operating system call may fail |
| `ByteWriter` | writing bytes through a temporary file, and the facts reported about it |
| `Unicode`, `WorkspaceText` | UTF-8 and UTF-16, byte order marks, detection, reading and saving |
| `DependencyForest`, `DependencyText` | dependency trees printed by Maven and Gradle |
| `JavaLexer` | blanking out comments and literals of Java source |
| `DapDecoder`, `DapRequests` | Debug Adapter Protocol framing, and requests, responses, timeouts and disconnection as concurrent steps |
| `HistoryRows`, `LocalHistory` | the local history's rows and content-addressed blobs |
| `ClientHello` | the server name in a TLS ClientHello (section 4.1.2 of RFC 8446, section 3 of RFC 6066) |
| `GitPath`, `GitRename` | undoing git's quoting of paths, and the two paths of a rename |
| `Versions` | ordering of dotted versions and choice of the newest bundle |
| `Text`, `Wrappers` | strings, options, results, filtering |

Failures, clocks, process ids, random names, the outcome of looking for an executable, the JSON parser and
the hash function are parameters or nondeterministic choices, so every theorem holds for each of their
behaviours. A file system, a history store, a decoder, a model builder are classes whose methods change
their fields; each method is proved against a function or relation of the old state, and the promises are
lemmas about those functions. The caption of an entry is the label shown to the user.

## What turned out not to hold

Each entry names the theorem with the exact condition and a lemma that exhibits the failure.

- **Compounds are emitted as they were validated.** The emission plans every compound again, against lists that
  have grown by the entries emitted before it. A caption, kind or adapter shared with such an entry can change what
  a reference finds: a checked compound may lose its only mode (`Clashes.ModeIsLost`), and two checked compounds
  may end up listing each other (`Clashes.CycleIsEmitted`). One lookup changes if and only if it was not ambiguous
  before and a new entry matches (`Lookups.RunLookupUnchanged`, `Lookups.DebugLookupUnchanged`); a child that
  resolved stays the same if and only if it is settled (`Lookups.ChildUnchanged`); if all compounds have plans, the
  plans stay the same if and only if every child is settled (`Lookups.AllPlansUnchangedExactly`). `Emission.NoClash`
  is the condition on the file: no entry of the file appears by accident under a reference that is looked up. Then
  plans stay the same, every compound keeps a mode and the emitted children form no cycle.
- **An error counts as a cycle only if it is one.** Errors are classified by their text. An error counts as a cycle
  if and only if it is one, or its message or the id of a compound around it contains the phrase
  (`CycleErrors.PlanClassifiedExactly`). If no id and no reference contains the phrase, the classification is right
  (`CycleErrors.PhraseFreeIsClassifiedRight`); otherwise a file with a valid mode can be rejected
  (`CycleErrors.PhraseInNameRejectsFile`, `CycleErrors.PhraseRejectsFile`).
- **Every failure of the byte writer carries an effect**, as `src-tauri/src/workspace.rs:71` has it. A failure carries
  none if and only if it happens after the checks and before the replacement: there is no parent directory, a
  directory cannot be made, or the temporary file cannot be made, filled or synced. The target is unchanged then. On
  a disk without faults this is so if and only if the comparison passes and the target is the root, a parent can
  neither be entered nor made, or the temporary file cannot be created (`ByteWriter.Writer.WriteBytes`,
  `ByteWriter.EffectlessErrorOccurs`).
- **The decoder survives every stream.** It adds the header length to the announced length in machine words, and a
  sum that does not fit stops the program. A stream does so if and only if, at a frame boundary, the header announces
  too much (`DapDecoder.CrashesExactly`); it does not if every announced length stays clear of the word's end by
  the stream's length (`DapDecoder.ModestLengthsAreSafe`). `DapDecoder.LargestLengthCrashes` is the witness.
- **Masking Java source is idempotent and keeps line breaks.** Masking twice equals masking once if and only if all
  code of the source is ASCII (`JavaLexer.MaskIsIdempotent`, witness `JavaLexer.NonAsciiCodeIsNotIdempotent`). A line
  break stays if and only if it is not the second byte of an escape in a string or character literal
  (`JavaLexer.LineBreakStaysUnlessEscaped`, witness `JavaLexer.EscapedLineBreakIsLost`).
- **A failed move leaves the source as it was.** When renaming is impossible the source is copied and then removed; if
  that removal fails, the complete copy is removed, too, and whatever the removal had reached is lost
  (`ResourceMove.HalfwayRemovalLosesSource`). The source stays whole if it is a single entry or removals do not stop
  halfway, and otherwise what is left of it is as it was (`ResourceMove.FileSystem.MoveAcrossRoots`). The old
  destination survives every failure (`ResourceMove.FileSystem.MoveReplacing`).
- **A disconnection ends every request.** The drain reaches exactly the callers with a slot
  (`DapRequests.DrainReachesEveryone`); a request that registers later waits for its timer
  (`DapRequests.LateRequestOnlyTimesOut`, witness `DapRequests.RequestMissesDrain`).
- **A prune leaves no orphaned blob.** It collects only while pruning a path: if no row is young enough to stay, every
  row goes and every blob stays (`LocalHistory.Store.Prune`).
- **Every debug entry launches or attaches.** A request is checked only if it is given: a debug part that neither names
  nor inherits one has an empty request (`SharedResolve.RequestIsChecked`, witness `SmallFiles.RequestCanBeEmpty`).
- **A missing source is never moved.** So it is, unless it lies at or below the backup path: then, once the old
  destination is put aside, a part of it is taken for the source and moved (`ResourceMove.FileSystem.MoveReplacing`).
- **A snapshot that was just taken can be read.** A prune keeps a row if and only if it is young enough and fewer than
  fifty rows of its path are newer (`HistoryRows.SurvivesExactly`). A snapshot's own prune therefore deletes the new
  row, while the call still succeeds, if and only if the clock advanced by more than seven days between the two
  readings or at least fifty rows of the path are dated later than the new one (`LocalHistory.Store.Snapshot`,
  witnesses `HistoryRows.LateClockDropsOwnRow` and `HistoryRows.ClockWentBackDropsOwnRow`).
- **Git paths survive.** A quoted path is read back if and only if it needs no escape but those for quotes and
  backslashes, a bare one if and only if it has no outer white space (`GitPath.QuoteThenUnquote`, witness
  `GitPath.SomePathsAreNotReadBack`). In a status line it must moreover be printed without an arrow
  (`GitPath.StatusPathReadsBack`, witnesses `GitPath.ArrowIsTakenForRename` and `GitPath.PlainPathWithArrow`). The two
  paths of a rename survive if and only if each is read back alone and no arrow starts in what was printed of the
  old one (`GitRename.RenameReadsBack`).
- **A saved text reads back.** The exact conditions are those of `WorkspaceText.SaveThenReadRequested`,
  `WorkspaceText.SaveWithBomThenDetect` and `WorkspaceText.SaveWithoutBomThenDetect`; the witnesses are
  `WorkspaceText.LeadingBomIsLost`, `WorkspaceText.EmptyUtf16IsNotDetected` and `WorkspaceText.NulUtf8IsNotDetected`.

## Model

| member | source | states |
|---|---|---|
| SharedLayers.MergeRun | src-tauri/src/workspace_execution.rs:1338-1368 | merging a run patch into its base in place is laying the patch over the base: set fields win, environment maps are united |
| SharedLayers.MergeDebug | src-tauri/src/workspace_execution.rs:1370-1386 | the same for the debug part |
| SharedLayers.MergePatch | src-tauri/src/workspace_execution.rs:1420-1450 | merging a configuration patch creates a missing run or debug part and lays the patch over the base |
| SharedLayers.OverReads | src-tauri/src/workspace_execution.rs:1420-1450 | every single field, each environment variable included, comes from the patch if it sets the field and from the base otherwise |
| SharedLayers.OverIsMonoid | src-tauri/src/workspace_execution.rs:1545-1549 | layers may be grouped in any way: laying over is associative and the empty patch is neutral |
| SharedLayers.TopmostLayerWins | src-tauri/src/workspace_execution.rs:1528-1550 | in a stack of any number of layers each field has the value of the topmost layer that sets it |
| SharedLayers.NoLayerMeansUnset | src-tauri/src/workspace_execution.rs:1528-1550 | a field that no layer sets stays unset |
| SharedLayers.MigrateRuns | src-tauri/src/workspace_execution.rs:1459-1507 | legacy runs migrate if and only if each is a valid entry, one entry per run; otherwise the first bad one is reported |
| SharedLayers.ListedExactly | src-tauri/src/workspace_execution.rs:1452-1518 | version 1 lists either runs, all of them entries, or configurations, and migrates each; version 2 lists configurations as they are; any other file is rejected |
| SharedLayers.InlinedComesBack | src-tauri/src/workspace_execution.rs:1472-1504 | parts written in the form of version 1 migrate to what they were if and only if that form can hold them |
| SharedLayers.OwnPartsAreKept | src-tauri/src/workspace_execution.rs:1472-1504 | parts that an entry has already are kept whatever its inline fields say, and nothing else of it changes |
| SharedLayers.ApplyTemplate | src-tauri/src/workspace_execution.rs:1528-1550 | an entry's own fields end up over the template's platform part over the template |
| SharedLayers.Migrate | src-tauri/src/workspace_execution.rs:1452-1552 | the file is accepted if and only if its version, lists, platforms and templates are in order; every entry is then replaced by its stacked layers and nothing else of it changes |
| SharedLayers.ApplyPlatform | src-tauri/src/workspace_execution.rs:1388-1418 | the current platform's part is laid over the entry and removed from its platforms |
| SharedLayers.EffectiveEntry | src-tauri/src/workspace_execution.rs:1528-1550 | the entry that is resolved has each field from the first of its platform part, its own part, the template's platform part, the template |
| ExecutionModel.ProviderRun | src-tauri/src/workspace_execution.rs:1649-1669 | the one entry of the project that matches the reference; nothing if and only if none matches, an error if and only if two do |
| ExecutionModel.ProviderDebug | src-tauri/src/workspace_execution.rs:1671-1696 | the same for debug entries |
| SharedResolve.ResolveBuildReferences | src-tauri/src/workspace_execution.rs:1698-1724 | the references resolve if and only if each matches exactly one target of the project; the ids are those of the targets that they name |
| SharedResolve.FindBase | src-tauri/src/workspace_execution.rs:2094-2127 | the base is the run entry that the reference matches, or a debug entry if no run matches; there is an error if and only if runs are ambiguous, or no run matches and debug entries are ambiguous or do not match either |
| SharedResolve.Resolve | src-tauri/src/workspace_execution.rs:2059-2252 | a resolved entry has something to execute, a compound defines nothing else, and its build targets exist |
| SharedResolve.CompoundIsChecked | src-tauri/src/workspace_execution.rs:2066-2086 | the compound check passes if and only if there are children, all of them identifiers and distinct, and nothing else is defined |
| SharedResolve.ResolvesExactly | src-tauri/src/workspace_execution.rs:2059-2252 | an entry resolves if and only if its identifiers, its choice of project and base, its references and its run and debug parts are in order |
| SharedResolve.SelectsExactly | src-tauri/src/workspace_execution.rs:2089-2153 | the project of an entry is that of its base, or the one its reference names, or the only one, or the stand-in if there is none; a reference must name a project with the same id |
| SharedResolve.ResolvedCarries | src-tauri/src/workspace_execution.rs:2059-2252 | what a resolved entry holds: caption, kind, project, build targets, executable, adapter, request, availability and children, each from the entry or else from its base; availability is never inherited |
| SharedResolve.RequestIsChecked | src-tauri/src/workspace_execution.rs:2035-2041 | the request of a resolved debug part is to launch or to attach if and only if the part names one or inherits such a one |
| SmallFiles.RequestCanBeEmpty | src-tauri/src/workspace_execution.rs:2198-2220 | a debug part without either exists and resolves |
| Compounds.ResolveAll | src-tauri/src/workspace_execution.rs:1795-1844 | the children resolve if and only if each child resolves, to exactly its id and in order |
| Compounds.FileEntryIsFound | src-tauri/src/workspace_execution.rs:1729-1793 | the id of an entry and both of its emitted ids lead to the entry's own id in the mode, if it has a target there and lies in the project |
| Compounds.ProviderEntryIsFound | src-tauri/src/workspace_execution.rs:1729-1793 | a name that no entry of the file has leads to the one provider entry of the project with that id, kind, caption or `kind:caption` |
| Compounds.Search.Visit | src-tauri/src/workspace_execution.rs:1846-1904 | the search with its stack pushed and popped ends on every list, restores the stack on success and computes the recursive plan |
| Compounds.ResolvePlanIds | src-tauri/src/workspace_execution.rs:1846-1904 | the search started with an empty stack computes the plan |
| Compounds.PlanDecides | src-tauri/src/workspace_execution.rs:1846-1904 | with any stack, a plan exists if and only if everything reachable is sound, off the stack and on no cycle |
| Compounds.PlanSucceedsExactly | src-tauri/src/workspace_execution.rs:1846-1904 | a plan exists if and only if every compound reachable from the start resolves all its children and none reaches itself |
| Compounds.ReportedCycleIsReal | src-tauri/src/workspace_execution.rs:1863-1870 | a reported cycle is a closed walk along real child edges |
| Compounds.Validate | src-tauri/src/workspace_execution.rs:1906-1934 | no error if and only if every compound is accepted |
| Compounds.AcceptedIsExecutable | src-tauri/src/workspace_execution.rs:1906-1934 | against the lists of the validation, an accepted compound has a mode in which everything below it is sound and free of cycles |
| CycleErrors.CycleIsClassified | src-tauri/src/workspace_execution.rs:1852-1854 | the text of a cycle always contains the phrase that errors are classified by |
| CycleErrors.ClassificationExactly | src-tauri/src/workspace_execution.rs:1852-1854 | an error counts as a cycle if and only if a cycle is at its root, or its innermost message or some wrapped id contains the phrase |
| CycleErrors.PlanClassifiedExactly | src-tauri/src/workspace_execution.rs:1886-1896 | for the error of a plan the root of a cycle is the error itself, since cycles are never wrapped |
| CycleErrors.PhraseFreeIsClassifiedRight | src-tauri/src/workspace_execution.rs:1886-1896 | if no id and no reference contains the phrase, exactly the cycles count as cycles |
| CycleErrors.UnknownChildIsMistakenForCycle | src-tauri/src/workspace_execution.rs:1913-1925 | an unknown child counts as a cycle if and only if its name contains the phrase |
| CycleErrors.PhraseInNameRejectsFile | src-tauri/src/workspace_execution.rs:1910-1931 | a compound of a runnable entry whose name contains the phrase has a Run plan and is rejected all the same |
| CycleErrors.PhraseRejectsFile | src-tauri/src/workspace_execution.rs:1910-1931 | the merge rejects such a file, whose entries all resolve |
| Availability.Round | src-tauri/src/workspace_execution.rs:2642-2671 | a round lowers at least one more compound, or changes nothing because nothing is left to do |
| Availability.Propagate | src-tauri/src/workspace_execution.rs:2623-2672 | the bounded loop ends settled: an entry is unavailable if and only if a walk through children leads to a missing or unavailable one; every changed diagnostic names a child that is down |
| Availability.NotReachingDownIsRecursive | src-tauri/src/workspace_execution.rs:2620-2672 | reaching nothing that is down obeys "available and every child available", on cyclic tables too |
| Availability.AcyclicMeansRecursive | src-tauri/src/workspace_execution.rs:2620-2672 | without cycles, a reading obeys "available and every child available" if and only if it is what the loop computes |
| SharedMerge.RunChildIsExpected | src-tauri/src/workspace_execution.rs:1729-1844 | a resolved run child is a run entry of the parent's own project |
| SharedMerge.DebugChildIsExpected | src-tauri/src/workspace_execution.rs:1729-1844 | a resolved debug child is a debug entry of the parent's own project, also through debug references |
| SharedMerge.PlannedChildrenAreExpected | src-tauri/src/workspace_execution.rs:1846-1904 | every child of a planned compound will exist in its project |
| SharedMerge.FittingIsClosed | src-tauri/src/workspace_execution.rs:2361-2618 | once every expected entry is emitted, no id in the model dangles and children stay in their project |
| SharedMerge.ModelBuilder.CheckDuplicates | src-tauri/src/workspace_execution.rs:2293-2304 | a diagnostic appears if and only if two ids are equal after trimming |
| SharedMerge.ModelBuilder.ResolveAllEntries | src-tauri/src/workspace_execution.rs:2309-2320 | without diagnostics every entry resolved, in order; with one, some entry did not |
| SharedMerge.ModelBuilder.CheckDebugReferences | src-tauri/src/workspace_execution.rs:2346-2359 | a diagnostic appears if and only if some debug reference names neither a provider's nor a shared debug target |
| SharedMerge.ModelBuilder.Emit | src-tauri/src/workspace_execution.rs:2361-2618 | one repository entry adds exactly its run entry and at most its debug entry, and the model still fits |
| SharedMerge.ModelBuilder.EmitTarget | src-tauri/src/workspace_execution.rs:2382-2551 | a target gets its probed debug entry or the debug id it refers to, and a runnable or debug-only run entry |
| SharedMerge.ModelBuilder.EmitCompound | src-tauri/src/workspace_execution.rs:2552-2616 | a compound gets both entries, with the children of the two plans |
| SharedMerge.ModelBuilder.EmitAll | src-tauri/src/workspace_execution.rs:2360-2618 | the emitted lists are those of emitting entry by entry, debug ids are distinct, and the model is closed |
| SharedMerge.ModelBuilder.PropagateAvailability | src-tauri/src/workspace_execution.rs:2620-2688 | only availability and diagnostics change, and an entry is unavailable if and only if it leads down |
| SharedMerge.ModelBuilder.Prepare | src-tauri/src/workspace_execution.rs:2293-2359 | the checks pass exactly on a mergeable file and change only diagnostics and the project list |
| SharedMerge.ModelBuilder.MergeShared | src-tauri/src/workspace_execution.rs:2254-2688 | all or nothing: it succeeds exactly on a mergeable file, an error leaves runs and debugs as they were, success leaves a closed model with the emitted entries and settled availability |
| Lookups.RunLookupUnchanged | src-tauri/src/workspace_execution.rs:1649-1669 | a lookup gives the same answer in a longer list if and only if it was ambiguous already or nothing new matches |
| Lookups.DebugLookupUnchanged | src-tauri/src/workspace_execution.rs:1671-1696 | the same for debug entries |
| Lookups.TargetUnchanged | src-tauri/src/workspace_execution.rs:1729-1793 | the debug target of a reference is found as before if and only if the two lookups behind it are settled |
| Lookups.RunChildUnchanged | src-tauri/src/workspace_execution.rs:1729-1844 | a Run child that resolved resolves as before if and only if it is settled |
| Lookups.DebugChildUnchanged | src-tauri/src/workspace_execution.rs:1729-1844 | a Debug child that resolved resolves as before if and only if it is settled, also through debug references |
| Lookups.ChildUnchanged | src-tauri/src/workspace_execution.rs:1729-1844 | both modes together; a settled child that did not resolve fails as before |
| Lookups.AllPlansUnchangedExactly | src-tauri/src/workspace_execution.rs:1846-1904 | if all compounds have plans, longer lists leave every plan as it is if and only if every child is settled |
| Emission.PlansStayTheSame | src-tauri/src/workspace_execution.rs:2361-2369 | without a clash every plan made during the emission is the plan of the validation |
| Emission.AcceptedCompoundKeepsMode | src-tauri/src/workspace_execution.rs:2361-2618 | without a clash every compound of a checked file is emitted with all its children in some mode |
| Emission.EmittedGraphIsAcyclic | src-tauri/src/workspace_execution.rs:2361-2618 | without a clash the children of the emitted entries form no cycle, in either list |
| Emission.AvailabilityIsRecursiveWithoutClash | src-tauri/src/workspace_execution.rs:2620-2688 | without a clash availability after the merge is "available itself and every child available" |
| FinishedModel.MergeDescribes | src-tauri/src/workspace_execution.rs:2361-2690 | the finished lists hold the providers' entries as they were, one run entry for each entry of the file in order and one debug entry for each that can be debugged, field by field as the entry says; a target is available if and only if its adapter is one of the six, it is not disabled and it is Java or its command was found; a compound, if and only if it has children and all of them are available; a diagnostic is there exactly if the entry is unavailable |
| FinishedModel.CompoundIsFinished | src-tauri/src/workspace_execution.rs:2551-2617 | without a clash a compound is available for debugging if and only if everything it reaches in Debug mode is sound and free of cycles and every child's finished entry is available; its entries list exactly its children in the modes in which it is executable |
| FinishedModel.SharedDebugIdsAreTargets | src-tauri/src/workspace_execution.rs:2309-2359 | a debug reference may name exactly the entries with a debug part and the compounds that are executable in Debug mode |
| Clashes.SharedCaptionLosesMode | src-tauri/src/workspace_execution.rs:2361-2379 | a compound whose only child is a caption shared by a provider run and an earlier entry is accepted and emitted without children |
| Clashes.ModeIsLost | src-tauri/src/workspace_execution.rs:2361-2379 | such a file exists: its entries resolve and the merge accepts it |
| Clashes.TangledCompoundsFormCycle | src-tauri/src/workspace_execution.rs:2361-2379 | two compounds whose references change between their stages are emitted listing each other |
| Clashes.CycleIsEmitted | src-tauri/src/workspace_execution.rs:2361-2379 | such a file exists: its entries resolve and the merge accepts it |
| SharedFileMerge.Configure | src-tauri/src/workspace_execution.rs:2059-2065 | every migrated entry is resolved with its own platform part over everything else |
| SharedFileMerge.MergeFile | src-tauri/src/workspace_execution.rs:2254-2688 | from the parsed file on, the merge succeeds exactly if the file can be migrated and merged, and then leaves a closed model that holds exactly what the resolved entries describe |
| SharedMerge.MergeableWhenChecked | src-tauri/src/workspace_execution.rs:2309-2359 | whether a file is mergeable depends only on the one way its entries resolve |
| SharedMerge.AvailabilityKeepsClosure | src-tauri/src/workspace_execution.rs:2620-2688 | rewriting availability and diagnostics cannot break closure |
| FileTree.MovedIsWellFormed | src-tauri/src/workspace.rs:2718-2720 | a rename that the system allows leaves a tree in which every entry lies in a directory |
| ResourceMove.FileSystem.Copy | src-tauri/src/workspace.rs:2803-2824 | the recursive copy ends, succeeds only with an identical subtree, links and permissions included, changes nothing outside the destination, and fails only by a fault or where renaming would be impossible, too |
| ResourceMove.FileSystem.CopyChildren | src-tauri/src/workspace.rs:2810-2816 | the children may be copied in any order; after a failure nothing outside the destination changed |
| ResourceMove.FileSystem.BackupPath | src-tauri/src/workspace.rs:2668-2692 | the backup path is a fresh sibling with the generated name; without faults there is none only if the target is the root or every name that is tried is taken |
| ResourceMove.FileSystem.MoveAcrossRoots | src-tauri/src/workspace.rs:2766-2801 | success is a clean move; a possible move fails only after two faults, and up to two faults a failure leaves the tree as it was, except for what a removal of the source that stopped halfway had reached |
| ResourceMove.FileSystem.MoveReplacing | src-tauri/src/workspace.rs:2718-2764 | for every source, even a missing one, and any faults: success leaves exactly the old source at the destination, failure leaves the old destination there or at the backup path, and nothing else changes; a failure that changes anything takes a fault; up to two faults only a removal of the source that stopped halfway changes anything, and up to three the destination is at worst left at the backup path; a source that is there is moved unless a call failed or every backup name is taken; the one exception is a missing source at or below the backup path |
| ResourceMove.CopiedThenRemoved | src-tauri/src/workspace.rs:2770-2800 | copying and then removing the source equals a clean move |
| ResourceMove.MoveSucceeded | src-tauri/src/workspace.rs:2721-2741 | after parking the destination, moving and removing the backup, the destination holds the old source, or a part of the old destination if the source is missing and lies below the backup |
| ResourceMove.MoveFailed | src-tauri/src/workspace.rs:2742-2760 | after parking, a failed move, clean-up and an attempted restore, the old destination is intact in one of its two places |
| ResourceMove.AfterParking | src-tauri/src/workspace.rs:2723-2731 | once the destination is put aside, every source that is there can be renamed, and putting the destination back restores the tree |
| ResourceMove.HalfwayRemovalLosesSource | src-tauri/src/workspace.rs:2787-2799 | for every source directory that is not empty there is such a removal that loses an entry: after the clean-up it is nowhere |
| ResourceMove.CopyUndone | src-tauri/src/workspace.rs:2787-2797 | with the copy removed again all that is missing is what the removal of the source had reached |
| ByteWriter.Writer.ReplaceFile | src-tauri/src/workspace.rs:2982-2990 | renaming, after deleting the target on some systems: success puts the temporary file's bytes there, failure loses at most the target |
| ByteWriter.Writer.Commit | src-tauri/src/workspace.rs:3322-3363 | after the checks: what the acknowledgement and the errors say is true, exactly a failed replacement carries an effect, only missing directories, the temporary file and the target can change, and without faults an unobstructed write succeeds; after a failed replacement NoEffect means that the target is there and the temporary file is gone, and without faults the temporary file is always gone |
| ByteWriter.Writer.WriteBytes | src-tauri/src/workspace.rs:3275-3364 | every reported fact is true under any failures and what is acknowledged has reached the disk, an effect is missing if and only if the call ended between the checks and the replacement, a failed comparison is always reported as a mismatch, and without faults a possible write succeeds and an effect is missing if and only if the comparison passes and no temporary file can be made |
| ByteWriter.WriteIntoReadOnlyDirectory | src-tauri/src/workspace.rs:3330-3341 | creating a file where no entry can be created ends in an error without an effect |
| ByteWriter.EffectlessErrorOccurs | src-tauri/src/workspace.rs:71-73 | such a write exists |
| Unicode.DecodeOfEncode8 | src-tauri/src/workspace.rs:3572-3580 | UTF-8 decodes what it encoded |
| Unicode.EncodeOfDecode8 | src-tauri/src/workspace.rs:3474-3482 | whatever UTF-8 accepts encodes back to the same bytes |
| Unicode.DecodeOfEncode16 | src-tauri/src/workspace.rs:3561-3570 | UTF-16 decodes what it encoded, surrogate pairs included |
| Unicode.EncodeOfDecode16 | src-tauri/src/workspace.rs:3474-3482 | whatever UTF-16 accepts encodes back to the same code units |
| WorkspaceText.EncodeText | src-tauri/src/workspace.rs:3559-3590 | the unit-by-unit encoder produces the mark followed by the encoding form |
| WorkspaceText.DetectUtf16WithoutBom | src-tauri/src/workspace.rs:3501-3524 | the counting loop picks little endian, then big endian, by two thirds of zero bytes in one place |
| WorkspaceText.DetectsExactly | src-tauri/src/workspace.rs:3501-3524 | UTF-16 is suspected if and only if two thirds of the pairs have a zero in the same place, little endian first |
| WorkspaceText.BinaryExactly | src-tauri/src/workspace.rs:3526-3535 | bytes look binary if and only if more than two percent of them are control characters |
| WorkspaceText.ReadThenSave | src-tauri/src/workspace.rs:3438-3493 | whatever was read, saved unchanged, is byte for byte the file, mark included, requested or detected |
| WorkspaceText.MarkIsEncodedBom | src-tauri/src/workspace.rs:3446-3459 | an encoded text begins with its mark if and only if it begins with U+FEFF |
| WorkspaceText.SaveThenReadRequested | src-tauri/src/workspace.rs:3446-3493 | with the encoding requested, a saved text reads back if and only if a mark was written or it does not start with U+FEFF, and UTF-8 passes the control byte test |
| WorkspaceText.SaveWithBomThenDetect | src-tauri/src/workspace.rs:3460-3493 | a written mark is always recognised; only the control byte test can refuse UTF-8 |
| WorkspaceText.SaveWithoutBomThenDetect | src-tauri/src/workspace.rs:3460-3493 | without a mark, detection returns the text if and only if no mark appears by accident, the zero count picks the right encoding, and UTF-8 passes the control byte test |
| WorkspaceText.NulFreeUtf8IsDetected | src-tauri/src/workspace.rs:3466-3472 | NUL-free UTF-8 without a leading U+FEFF is detected |
| WorkspaceText.AsciiUtf16IsDetected | src-tauri/src/workspace.rs:3501-3524 | UTF-16 of nonempty NUL-free ASCII is detected in the right byte order |
| WorkspaceText.LeadingBomIsLost | src-tauri/src/workspace.rs:3446-3459 | saved without a mark, a leading U+FEFF is not read back in any of the encodings |
| WorkspaceText.EmptyUtf16IsNotDetected | src-tauri/src/workspace.rs:3501-3504 | empty UTF-16 without a mark is not recognised |
| WorkspaceText.NulUtf8IsNotDetected | src-tauri/src/workspace.rs:3505-3524 | UTF-8 with a NUL can be taken for UTF-16 |
| DependencyForest.Builder.Insert | src-tauri/src/workspace.rs:613-636 | the index path always denotes the rightmost spine; an insertion appends one item to the listing, at the requested depth or one below the previous item |
| DependencyForest.PreorderIsInjective | src-tauri/src/workspace.rs:613-636 | a listing with depths determines its forest |
| DependencyForest.ListingRebuildsForest | src-tauri/src/workspace.rs:613-636 | inserting a forest's own listing item by item rebuilds the forest |
| DependencyText.ParseMaven | src-tauri/src/workspace.rs:568-608 | the parsed forest lists the entries after the last root line, each clamped to one level below its predecessor |
| DependencyText.PrintedMavenForest | src-tauri/src/workspace.rs:565-608 | a printed Maven forest, three columns a level, parses back to the forest |
| DependencyText.ModulesFollowEachOther | src-tauri/src/workspace.rs:577-607 | the first root line starts the listing; the roots of further modules are ignored, so that their trees follow each other |
| DependencyText.MavenCoordinateReadsBack | src-tauri/src/workspace.rs:639-682 | a printed Maven coordinate, with or without classifier and note, reads back |
| DependencyText.ParseGradle | src-tauri/src/workspace.rs:688-709 | the parsed forest lists the entries, each clamped to one level below its predecessor |
| DependencyText.PrintedGradleForest | src-tauri/src/workspace.rs:685-709 | a printed Gradle forest, five columns a level, parses back to the forest |
| DependencyText.MarkersAreDropped | src-tauri/src/workspace.rs:713-719 | one status marker at the end is dropped, and nothing else |
| DependencyText.GradleCoordinateReadsBack | src-tauri/src/workspace.rs:712-753 | a printed Gradle coordinate reads back, with or without a version or a status marker |
| DependencyText.GradleArbitrationReadsBack | src-tauri/src/workspace.rs:723-753 | an arbitrated version is the one to the right of the arrow, whether or not one was requested, and the line without its status marker is kept as the conflict |
| JavaLexer.Scan | src-tauri/src/workspace.rs:1508-1574 | one turn of the scanner writes, moves and changes state as the lexical table says |
| JavaLexer.JavaCodeOnly | src-tauri/src/workspace.rs:1492-1577 | the scanner agrees with the mask defined position by position |
| JavaLexer.CodeStaysInPlace | src-tauri/src/workspace.rs:1567-1574 | one character per byte; code bytes keep their position and all else is a blank or a line break of the source |
| JavaLexer.MaskIsClean | src-tauri/src/workspace.rs:1488-1577 | the output contains no quote and no comment opener |
| JavaLexer.LineCommentEndsAtLineBreak | src-tauri/src/workspace.rs:1512-1541 | a line comment is blank up to its line break, which stays, and code resumes there |
| JavaLexer.BlockCommentEndsAtCloser | src-tauri/src/workspace.rs:1517-1546 | nothing in a block comment counts as code before its first closer, and code resumes after it |
| JavaLexer.LiteralEndsAtUnescapedQuote | src-tauri/src/workspace.rs:1527-1565 | nothing in a string or character literal counts as code before its first unescaped quote, and code resumes after it |
| JavaLexer.TextBlockEndsAtTripleQuote | src-tauri/src/workspace.rs:1522-1551 | nothing in a text block counts as code before its first three quotes, and code resumes after them |
| JavaLexer.LineBreakStaysUnlessEscaped | src-tauri/src/workspace.rs:1552-1573 | a line break of the source stays if and only if it is not the second byte of an escape; then it becomes a blank |
| JavaLexer.EscapedLineBreakIsLost | src-tauri/src/workspace.rs:1552-1555 | such a line break exists |
| JavaLexer.MaskIsIdempotent | src-tauri/src/workspace.rs:1492-1577 | masking twice is masking once if and only if all code of the source is ASCII |
| JavaLexer.AsciiSourceIsIdempotent | src-tauri/src/workspace.rs:1492-1577 | on ASCII source masking is idempotent |
| JavaLexer.NonAsciiCodeIsNotIdempotent | src-tauri/src/workspace.rs:1566-1569 | one character of code beyond ASCII, in UTF-8, is enough to lose idempotence |
| DapDecoder.StepIsStable | src-tauri/src/dap.rs:41-60 | a decision once made does not change when more bytes arrive |
| DapDecoder.Decoder.Push | src-tauri/src/dap.rs:35-37 | pushing only extends what the decoder still has to look at |
| DapDecoder.StepOnFrame | src-tauri/src/dap.rs:43-60 | at the front of any buffer a frame is taken whole and its body read, whatever the body contains and whatever follows |
| DapDecoder.StepOnHeaders | src-tauri/src/dap.rs:70-81 | a message is read behind any header lines, if one of them announces its length, with the key in any letter case and padding and no other such line before it |
| DapDecoder.Decoder.NextMessage | src-tauri/src/dap.rs:41-61 | when no message is left, exactly the messages of everything pushed have been yielded, however it was split |
| DapDecoder.ChunkingDoesNotMatter | src-tauri/src/dap.rs:27-62 | any split of any byte stream gives the messages and leftover of one push |
| DapDecoder.FramesDecode | src-tauri/src/dap.rs:39-61 | concatenated frames decode to their valid messages whatever their bodies contain; a frame with an invalid body is skipped |
| DapDecoder.EncodedMessagesComeBack | src-tauri/src/dap.rs:19-62 | encoded messages come back, all and in order, from any split of their bytes |
| DapDecoder.CrashesExactly | src-tauri/src/dap.rs:50-53 | a stream stops the program if and only if at some frame boundary header and announced length together overflow the machine word |
| DapDecoder.ModestLengthsAreSafe | src-tauri/src/dap.rs:50-53 | a stream in which every announced length stays clear of the word's end by the stream's length does not stop the program |
| DapDecoder.LargeLengthCrashes | src-tauri/src/dap.rs:50-53 | a first header that announces too large a length stops the program, whatever follows |
| DapDecoder.LargestLengthCrashes | src-tauri/src/dap.rs:50-53 | the largest machine word is such a length |
| DapRequests.RunKeepsInv | src-tauri/src/dap.rs:483-522 | in every interleaving a slot is held exactly by the callers that nobody has answered, drained or withdrawn |
| DapRequests.NumbersAreDistinct | src-tauri/src/dap.rs:484-496 | sequence numbers are distinct in every interleaving |
| DapRequests.CompletedByItsOwn | src-tauri/src/dap.rs:499-522 | a finished caller took the response to its own number or the drain's error out of its channel, or its own timer fired and withdrew it, or its own write failed |
| DapRequests.CompletesAtMostOnce | src-tauri/src/dap.rs:791-806 | a caller that is answered or finished is never completed differently by any later step |
| DapRequests.ResponseFindsItsCaller | src-tauri/src/dap.rs:507-512 | because the slot is registered before the write, a response to a waiting caller reaches it with its payload and is final |
| DapRequests.LateResponseIsDiscarded | src-tauri/src/dap.rs:791-806 | a response without a waiting caller changes no caller |
| DapRequests.DrainReachesEveryone | src-tauri/src/dap.rs:832-836 | a run that ends with the drain leaves no slot; every caller that held one finds the error in its channel, and nothing else changes for any caller |
| DapRequests.DrainedCallerDisconnects | src-tauri/src/dap.rs:832-836 | whoever waits for an answer then can take the error at once and in every continuation ends in no other way |
| DapRequests.LateRequestOnlyTimesOut | src-tauri/src/dap.rs:499-522 | a request without a slot at the drain is never told: it can only time out or fail to write |
| DapRequests.RequestMissesDrain | src-tauri/src/dap.rs:499-522 | such a request exists |
| DapRequests.NobodyHangs | src-tauri/src/dap.rs:511-520 | after any run every caller can finish by at most four steps of its own |
| DapRequests.StreamCanEnd | src-tauri/src/dap.rs:784-836 | after any run the stream can end and the pending requests can be drained |
| DapRequests.MessagesCanBeSent | src-tauri/src/dap.rs:484-509 | after any run a new request can begin and any other message can be sent |
| HistoryRows.NewestFirstIsSorted | src-tauri/src/local_history.rs:117-126 | the query's order is the rows sorted newest first, whatever the clock did |
| HistoryRows.LatestIsFirst | src-tauri/src/local_history.rs:217-232 | the first row of the query is the one row of the path that no row is newer than |
| HistoryRows.KeptIsSuffix | src-tauri/src/local_history.rs:107-141 | what a prune keeps is a suffix, at most fifty rows, none too old, still without repetitions |
| HistoryRows.DeletionsPrune | src-tauri/src/local_history.rs:112-138 | the two deletions cut one path down to what is kept and leave the other paths alone |
| HistoryRows.DeletionsSpareOthers | src-tauri/src/local_history.rs:112-138 | deletion spares the rows of all other paths, in whatever order the rows are |
| HistoryRows.DeletionsBound | src-tauri/src/local_history.rs:112-138 | whatever the clock did, the pruned path has at most fifty rows and none too old |
| HistoryRows.SurvivesExactly | src-tauri/src/local_history.rs:112-138 | whatever the clock did, a row survives the two deletions of its path if and only if it is young enough and fewer than fifty rows of the path are newer |
| HistoryRows.SnapshotIsHealthy | src-tauri/src/local_history.rs:216-241 | whatever the clock did, a snapshot leaves the other paths alone and every path bounded, and its row survives if and only if it is young enough and fewer than fifty rows of the path are dated later; with a clock that does not go back every path stays a repetition-free suffix of what was accepted |
| HistoryRows.LateClockDropsOwnRow | src-tauri/src/local_history.rs:107-116 | a row older than the cutoff of its own prune is deleted at once |
| HistoryRows.ClockWentBackDropsOwnRow | src-tauri/src/local_history.rs:117-138 | in a healthy history of fifty rows that are dated later a new row is deleted at once, however young |
| LocalHistory.Store.WriteBlob | src-tauri/src/local_history.rs:93-105 | the blob exists before any row can refer to it, and at every step each row's blob exists with its hash |
| LocalHistory.Store.CollectOrphans | src-tauri/src/local_history.rs:143-182 | collection only removes, never touches a blob that a row needs, leaves an orphan only where its removal failed, and keeps every step covered |
| LocalHistory.Store.DeleteOldAndExcess | src-tauri/src/local_history.rs:112-138 | success leaves exactly the rows that the two deletions define |
| LocalHistory.Store.PrunePath | src-tauri/src/local_history.rs:107-141 | pruning one path keeps every crash point covered, removes, in whatever order the rows are, exactly those of that path that are too old or not among its fifty newest |
| LocalHistory.Store.Accept | src-tauri/src/local_history.rs:216-241 | nothing is recorded if and only if the newest row of the path has the content already; otherwise exactly one row is appended |
| LocalHistory.Store.Snapshot | src-tauri/src/local_history.rs:185-251 | every crash point is covered; nothing is recorded if and only if the newest row of the path has the content already; a recorded row has the content's hash and survives if and only if it is young enough and fewer than fifty rows of the path are dated later; the other paths are left alone, every path stays bounded, a healthy history stays healthy if the clock did not go back, and without faults every acceptable text is recorded and no orphan is left |
| LocalHistory.Store.Read | src-tauri/src/local_history.rs:291-305 | what is read has the hash of the row with that id; an unknown id is an error |
| LocalHistory.Store.Prune | src-tauri/src/local_history.rs:308-336 | a successful prune leaves exactly the rows that are not older than either cutoff and among the fifty newest of their path, and counts what was too old; with a clock that does not go back every path is bounded and young and a faithful history healthy; without faults it succeeds and leaves no orphan, unless no row was left to prune |
| LocalHistory.ReadBackIsTheText | src-tauri/src/local_history.rs:291-305 | with an injective hash, reading the id of a surviving snapshot gives its text |
| ClientHello.ExtractTlsSni | qa-ui-auto-tests/cases/_sockscap_linux_harness.py:60-90 | the parser with its moving position ends on every input and computes the walk over the extensions |
| ClientHello.ScanExtensions | qa-ui-auto-tests/cases/_sockscap_linux_harness.py:77-87 | the extension loop ends on arbitrary bytes |
| ClientHello.ExtractFindsHost | qa-ui-auto-tests/cases/_sockscap_linux_harness.py:60-90 | on every well-formed single-record message the host name of the server name extension is found whatever the lengths before it, and none without it |
| ClientHello.ExtractReturnsTheName | qa-ui-auto-tests/cases/_sockscap_linux_harness.py:82-86 | a UTF-8 host name comes back as text |
| GitPath.TwoPassesAreOne | src-tauri/src/git.rs:1407-1416 | on every string, unescaping quotes and then backslashes is a single left-to-right unescape |
| GitPath.QuoteThenUnquote | src-tauri/src/git.rs:1407-1416 | a path survives quoting and unquoting if and only if it needs no other escape and, when unquoted, has no outer white space |
| GitPath.ShortQuoteThenUnquote | src-tauri/src/git.rs:1407-1416 | a path printed by the short status, which also quotes blanks, is read back if and only if it needs no other escape and no outer white space is bare |
| GitPath.StatusPathReadsBack | src-tauri/src/git.rs:1365-1370 | any path, printed in either way, survives a status line if and only if it is read back and what was printed holds no arrow |
| GitPath.ArrowIsTakenForRename | src-tauri/src/git.rs:1365-1370 | an arrow within a plain path is taken for a rename, in quotes or without |
| GitPath.PlainPathWithArrow | src-tauri/src/git.rs:1365-1370 | such a path exists |
| GitPath.SomePathsAreNotReadBack | src-tauri/src/git.rs:1407-1416 | a tab in a quoted path and a bare outer no-break space are not read back |
| GitRename.RenameReadsBack | src-tauri/src/git.rs:1365-1369 | two paths printed as a rename, in either way, are read back if and only if each is read back alone and no arrow starts in what was printed of the old one |
| GitRename.PrintedKeepsArrow | src-tauri/src/git.rs:1366-1367 | what is printed of a path holds an arrow if and only if the path does |
| Versions.CompareFromMeaning | src-tauri/src/java_bundles.rs:86-99 | the comparison is the lexicographic order of the versions padded with zeros |
| Versions.SpelledReadsBack | src-tauri/src/java_bundles.rs:76-84 | decimal components joined by any of the separators read back as the numbers, whatever trails them |
| Versions.OtherComponentsAreZero | src-tauri/src/java_bundles.rs:79-81 | a component that begins with no digit or does not fit 64 bits counts as zero |
| Versions.CompareSwaps | src-tauri/src/java_bundles.rs:86-99 | swapping two versions swaps the answer, and a version equals itself |
| Versions.NotNewerTrans | src-tauri/src/java_bundles.rs:86-99 | the order is transitive across different lengths |
| Versions.NewestIsFirstMaximum | src-tauri/src/java_bundles.rs:277-284 | keeping strictly newer candidates ends with the first of the maximal ones |
| Versions.NewestIgnoresOrder | src-tauri/src/java_bundles.rs:264-286 | the version found does not depend on the order of the candidates |
| Versions.NewestJar | src-tauri/src/java_bundles.rs:264-286 | the directory scan computes the newest of the matching names |
| Versions.NewestJarIsMaximal | src-tauri/src/java_bundles.rs:263-286 | a jar is found whenever one matches, and no matching jar is newer |
| Versions.Discoveries.Push | src-tauri/src/java_bundles.rs:289-310 | an offer replaces the entry of its key if strictly newer, is appended if the key is unknown, and changes nothing otherwise |
| Versions.OneNewestPerKey | src-tauri/src/java_bundles.rs:288-310 | after any run of offers each offered key has exactly one entry, its newest offer |

## Left out

- SharedLayers.Migrate: the JSON of the file is taken as already parsed, and which of several unknown platforms is reported is not modelled; entries are values, so `&mut` parameters appear as in- and out-parameters.
- SharedResolve.Resolve: checks on arguments, environment names and launch settings are a parameter that may reject a run or debug part; path and variable expansion and the launch configuration's JSON are not modelled.
- SharedMerge.ModelBuilder.MergeShared: assumes that the providers built a closed model with distinct ids, no compounds and no id with the shared prefixes; provider discovery, reading the file and its size limit, display strings and the search for executables (a parameter) are not modelled; nothing is claimed about the project list after an error.
- Availability.Propagate: the compounds are visited in some order, not in the map's; which of several unavailable children a diagnostic names may depend on it.
- ResourceMove.FileSystem.MoveReplacing: symbolic links among the ancestors, Windows' rename rules, other programs' changes during the move, and the creation of an empty file over an existing one are not modelled.
- ByteWriter.Writer.WriteBytes: a directory that refuses new entries is the one permission modelled; other programs' changes between the hash check and the rename are not modelled; no theorem needs the hash to be injective; error messages are not modelled.
- WorkspaceText.ReadThenSave: legacy encodings and the guess of an encoding by a detector are a separate failure outcome, label lookup is not modelled, so encodings are the three Unicode ones.
- DependencyText.ParseMaven: a line is a sequence of characters, so a column is a character; beyond ASCII the original counts bytes before the connector. Splitting the output into lines is not modelled.
- DapDecoder.EncodedMessagesComeBack: the JSON parser and printer are parameters, required to be inverse on the messages sent.
- DapRequests.RunKeepsInv: sequence numbers are unbounded; a request whose write fails keeps its slot until the drain, as in the original, and absence of such leftovers is not claimed. Session start-up and tear-down are not modelled.
- LocalHistory.Store.Snapshot: calls are serialised by the database lock and taken one at a time; the SQL engine is rows in insertion order with atomic statements; trimming of the reason and the age of leftover temporary files are not modelled; nothing beyond covered crash points is claimed for unsuccessful calls.
- ClientHello.ExtractFindsHost: a message split over several records is not modelled; the original does not support it.
- GitPath.StatusPathReadsBack: the branch line, the status letters and the splitting into lines and tab-separated fields are not modelled: they would only add easy members.
- Versions.NewestJar: names that are not text are taken to be filtered out already, and directories are name lists.
- Process spawning, sockets, commands and events of the application shell, timers other than as steps, JSON, XML, TOML and regular expressions.
- Command history, dependency index, module locks, updates, performance counters and file system watching: small case splits.
- The user interface, build plug-ins, benchmarks and test scripts other than the parser above.
