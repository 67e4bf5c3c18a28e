# mac-mgmt in Dafny

A Dafny 4.11 model of the data engines and small protocols of mac-mgmt, and proofs
about them. `dafny verify dfyconfig.toml` checks the whole project.

| file | what it models |
|---|---|
| `Prelude.dfy`, `Text.dfy` | options, results, number parsing; searching, splitting, trimming, lines and order of strings |
| `Documents.dfy` | JSON documents, slot paths, mutable cursors |
| `ModalPaths.dfy`, `EditorPaths.dfy`, `Setters.dfy` | the three path setters of config-ui, the editor's cleanup and revert |
| `EditorRuns.dfy` | the invariant every run of edits keeps, and what follows from it |
| `EditorLimits.dfy` | exactly where that promise ends: which paths type-then-clear restores, what removals without cleanup leave |
| `LineDiff.dfy` | the save bar's diff |
| `SchemaTree.dfy`, `TreeSearch.dfy` | the option tree of the extra-config modal and its search |
| `Cleaners.dfy` | `prune`, `strip_defs_refs`, `filter_to_selected` |
| `DeepMerge.dfy`, `DotEnv.dfy`, `EnvSyntax.dfy`, `EnvFiles.dfy` | deep merge, the dotenv format and its language, merge-validate-write with rollback |
| `FileWrites.dfy` | transactional file tunnel writes and the chunked sessions |
| `ServerPush.dfy`, `Heartbeat.dfy` | the push stream and its dispatch; heartbeat, garbage-collection and healer steps |
| `Packages.dfy`, `NixProfile.dfy`, `Versions.dfy`, `ReleaseTexts.dfy` | package reconciliation, profile swaps and drift, release selection and the texts it reads |
| `ShellSessions.dfy`, `ConfigStore.dfy` | shell session merging, change detection |

Code that works in place is a method or a class proved equal to a specification
function, and the promises are lemmas about that function. A mutable cursor into a
JSON document is a value with the trail of containers it went through; assigning
through it plugs the value back. Everything the environment decides (faults, clocks,
schedules, validators, JSON decoding, lower-casing) is a parameter, so each lemma holds
for all of its choices.

The main result is `EditorRuns.RunIsExact`: whatever the user sets, clears and reverts,
the form document is determined by the saved document and the current field values
alone. Its hypothesis, `EditableFields`, asks for what the editor's rows give it: field
paths that end in a key, none a prefix of another, fitting the saved document (right
container at each present step, existing array elements). `EditorLimits.dfy` gives the
exact boundary: `TypeThenClearRestores` says on which other paths the code still restores
the saved document, and `BareRunsDifferByOrphans` what the inputs that skip the cleanup
leave behind.

Where the code does less than its comments or names suggest, the code is modelled and
the difference is a result:

- typing into a field that was not saved and clearing it again is not undone where the
  field's parent is not saved either and the path steps by index past the end of an
  array, on an object or below a missing key; everywhere else it is;
- the secret and key-hash inputs and the reset to default remove without pruning, so
  typing and emptying such a field is undone exactly when the saved document has its
  parent;
- trailing blanks of dotenv values do not survive a write, everything else does;
- rolling back a dotenv file that did not exist leaves an empty file;
- rolling back a rejected file tunnel write restores the bytes under a new time stamp;
- the heartbeat lock keeps sends apart but in snapshot order only where no send overtakes
  an older one that posts later;
- a failed package removal is forgotten as soon as the state file is written, and an
  empty profile is never repaired from the state file;
- deep merge is associative on exactly the triples `Regroupable` describes;
- the self-updater orders versions that differ only in trailing zeros, the USB updater
  does not;
- the first run of a connector whose providers are all unset reports no change, although
  the comment says an empty snapshot always does;
- a doubly targeted push event reaches an `unreachable!`.

## Model

| member | source | states |
|---|---|---|
| `ModalPaths.PutGet` | config-ui/src/extra_config_modal.rs:404-464 | on every document and path, reading after `set_at` gives the value written |
| `ModalPaths.PutPut` | config-ui/src/extra_config_modal.rs:416-464 | the second of two writes to a path hides the first completely, padding and container repair included |
| `ModalPaths.GetPut` | config-ui/src/extra_config_modal.rs:404-464 | writing back what is there changes nothing |
| `ModalPaths.PutKeepsOthers` | config-ui/src/extra_config_modal.rs:427-446 | an existing value at a diverging path survives a write exactly when the paths part with segments of the same kind; otherwise it is gone |
| `ModalPaths.PutFrame` | config-ui/src/extra_config_modal.rs:416-464 | along a path that fits the document nothing moves at any diverging path, absent values included |
| `ModalPaths.PutItem` | config-ui/src/extra_config_modal.rs:448-457 | a write at an index grows the array there, or a new one, with nulls as far as needed and keeps every other element |
| `ModalPaths.PutField` | config-ui/src/extra_config_modal.rs:458-463 | a write at a key sets that key of the object there, or of a new one |
| `ModalPaths.DeleteAtEnd` | config-ui/src/extra_config_modal.rs:466-494 | a removal takes out the element, moving the later ones up, or the field; where there is none nothing changes, and nothing else changes |
| `ModalPaths.Working.GetAt` | config-ui/src/extra_config_modal.rs:404-414 | the walk returns the value at the slot path, or none at the first missing step |
| `ModalPaths.Working.SetAt` | config-ui/src/extra_config_modal.rs:416-464 | the mutable-cursor walk leaves exactly the document `Put` describes |
| `ModalPaths.Working.RemoveAt` | config-ui/src/extra_config_modal.rs:466-494 | the cursor walk removes the slot, or leaves the document alone when a step is missing |
| `EditorPaths.Form.Set` | config-ui/src/config_editor.rs:2228-2263 | the cursor walk panics exactly when the specification says so and otherwise leaves its document |
| `EditorPaths.Form.Remove` | config-ui/src/config_editor.rs:2266-2292 | as above for removal; only the empty path panics |
| `EditorPaths.Form.Cleanup` | config-ui/src/config_editor.rs:2304-2324 | the pop-and-prune loop leaves exactly the specified document |
| `EditorPaths.Form.RevertToSaved` | config-ui/src/config_editor.rs:2333-2348 | a revert sets the saved value or removes and cleans up |
| `EditorPaths.SetAgrees` | config-ui/src/config_editor.rs:2228-2263 | on a path that ends in a key and fits, `set_at_path` never panics and equals the modal's setter |
| `EditorPaths.RemoveAgrees` | config-ui/src/config_editor.rs:2266-2292 | on such a path `remove_at_path` removes exactly that field |
| `EditorPaths.CleanupIsTopDown` | config-ui/src/config_editor.rs:2304-2324 | removing and then running the bottom-up cleanup loop equals one top-down recursion that prunes on the way back |
| `EditorRuns.PutTracks` | config-ui/src/config_editor.rs:2228-2263 | setting a field keeps the run invariant, and the field is no longer bare |
| `EditorRuns.ClearTracks` | config-ui/src/config_editor.rs:2266-2324 | clearing a field restores the run invariant; no orphan parent of it remains |
| `EditorRuns.DeleteTracks` | config-ui/src/config_editor.rs:2266-2292 | removing a field without cleanup keeps the invariant with that field bare: only its own parent may be left empty |
| `EditorRuns.ClearFrame` | config-ui/src/config_editor.rs:2266-2324 | clearing removes the field and moves nothing at a diverging path |
| `EditorRuns.Determined` | config-ui/src/config_editor.rs:2294-2303 | two documents that satisfy the invariant and agree on all fields are equal |
| `EditorRuns.OffFieldsUnchanged` | config-ui/src/config_editor.rs:2228-2348 | off the field paths the form is the saved document, presence and absence alike |
| `EditorRuns.EditKeepsInvariant` | config-ui/src/config_editor.rs:1685-1702 | every set, clear, bare removal and revert succeeds, keeps the invariant, gives its field the intended value and leaves the other fields alone |
| `EditorRuns.RunIsExact` | config-ui/src/config_editor.rs:2294-2348 | over every run of edits from the saved document: no panic, each field as last asked for, everything else as saved, and, unless some field's last edit is a removal without cleanup, the form equals the saved document exactly when every field does |
| `EditorRuns.RunsWithSameIntentAgree` | config-ui/src/config_editor.rs:2294-2348 | edit order cannot be seen in the final document of runs that end tidy |
| `EditorRuns.RevertAllRestores` | config-ui/src/config_editor.rs:2326-2348 | after any run, removals without cleanup included, reverting every field in any order gives back the saved document |
| `EditorLimits.TypeThenClearRestores` | config-ui/src/config_editor.rs:2294-2324 | on every path that ends in a key and can be typed into, typing and clearing gives back the saved document if and only if that lacked the field and the path is undoable: its parent is saved, or the path to it fits |
| `EditorLimits.TypeThenEmptyWithoutCleanup` | config-ui/src/config_editor.rs:2066-2078 | the inputs that remove without cleanup give back the saved document exactly when it lacks the field and has its parent |
| `EditorLimits.UnsavedElementSurvives` | config-ui/src/config_editor.rs:2214-2226 | an index on the way that names no saved element (array too short, absent, or an object) leaves the editor dirty after type-then-clear |
| `EditorLimits.BareRunsDifferByOrphans` | config-ui/src/config_editor.rs:2025-2036 | over every run that mixes cleared fields and removals without cleanup the form is what the run with every cleanup leaves plus exactly the orphan empty parents, and is the saved document exactly when every field is as saved and there is no orphan |
| `EditorLimits.CreatedElementSurvives` | config-ui/src/config_editor.rs:2236-2241 | typing into a field under an element past the end of a saved array can never be undone by clearing it, whatever the path ends in |
| `EditorLimits.PanicsIffBlocked` | config-ui/src/config_editor.rs:2228-2263 | `set_at_path` panics exactly on an empty path and where the walk meets something that is neither an object nor an array at an index before the last segment |
| `EditorLimits.TypedIsFound` | config-ui/src/config_editor.rs:2228-2263 | a value set at a key is found there again, on every document, unless the parent is there and is no object; then nothing changes |
| `EditorLimits.SetKeepsOthers` | config-ui/src/config_editor.rs:2228-2263 | on every document a set keeps every value at a diverging path |
| `EditorLimits.FillersAre` | config-ui/src/config_editor.rs:2236-2256 | an array that is too short is filled with empty objects on the way and with nulls at the end |
| `Setters.PickerForm.Set` | config-ui/src/model_select_modal.rs:544-584 | the model picker's cursor walk, including the partial document it leaves when it gives up |
| `Setters.ThreeSettersAgree` | config-ui/src/model_select_modal.rs:544-584 | on a path that ends in a key and fits, all three setters write the same document |
| `Setters.PickerWrites` | config-ui/src/model_select_modal.rs:544-584 | where the picker's walk goes through, on fitting paths or not, the value is under the last segment as a key |
| `Setters.PickerGivesUp` | config-ui/src/model_select_modal.rs:544-584 | where it does not, the document left behind does not depend on the value |
| `Setters.PickerKeepsOthers` | config-ui/src/model_select_modal.rs:544-584 | either way every value at a diverging path stays |
| `LineDiff.ResyncIsNearest` | config-ui/src/config_save_bar.rs:172-188 | the look-ahead finds the nearest meeting point within 8 lines, the draft side first, and misses none |
| `LineDiff.Replays` | config-ui/src/config_save_bar.rs:159-221 | context and removed lines spell the saved text, context and added lines the draft |
| `LineDiff.QuietIffEqual` | config-ui/src/config_save_bar.rs:159-221 | no line is marked exactly when the inputs are equal |
| `LineDiff.ContextIsCommonSubsequence` | config-ui/src/config_save_bar.rs:159-221 | the unmarked lines are a common subsequence of both inputs |
| `LineDiff.SharedPrefixStaysQuiet` | config-ui/src/config_save_bar.rs:165-169 | a shared beginning is never marked, whatever follows |
| `LineDiff.SharedPrefixIsDropped` | config-ui/src/config_save_bar.rs:165-169 | a shared beginning is context and the diff goes on as if it were not there |
| `LineDiff.AddedLinesAreAdded` | config-ui/src/config_save_bar.rs:170-195 | where the saved line turns up k of at most 8 lines ahead in the draft and neither line turns up sooner, exactly those k draft lines are added and the saved line is context again |
| `LineDiff.RemovedLinesAreRemoved` | config-ui/src/config_save_bar.rs:170-201 | the same on the saved side, where the draft does not meet at the same distance |
| `LineDiff.ChangedLineIsReplaced` | config-ui/src/config_save_bar.rs:202-208 | where neither turns up within 8 lines, exactly one removal and one addition follow |
| `LineDiff.OneSided` | config-ui/src/config_save_bar.rs:211-218 | where one side is at its end, the rest of the other is removed or added |
| `LineDiff.UnifiedLineDiff` | config-ui/src/config_save_bar.rs:159-221 | the two-cursor loop terminates with that diff |
| `SchemaTree.BuildTree` | config-ui/src/extra_config_modal.rs:98-109 | the loop skips deprecated entries, inserts the others in order and sorts |
| `SchemaTree.InsertLookup` | config-ui/src/extra_config_modal.rs:111-150 | inserting an entry changes the lookup at its own path only and creates exactly the nodes on the way |
| `SchemaTree.SortKeepsLookups` | config-ui/src/extra_config_modal.rs:152-160 | sorting changes no lookup |
| `SchemaTree.TreeRefinesList` | config-ui/src/extra_config_modal.rs:98-160 | every lookup in the built tree gives the last live entry with that path; a node exists exactly where a live entry lies at or below it; siblings are strictly sorted and never "*" |
| `SchemaTree.FullPathsAreDotted` | config-ui/src/extra_config_modal.rs:118-145 | a node's full path is its dotted path exactly unless it starts with an empty segment before others |
| `Text.PiecesHaveNoSeparator` | config-ui/src/extra_config_modal.rs:98-109 | the segments of a path hold no dot |
| `Text.LessIff` | config-ui/src/extra_config_modal.rs:150-160 | the sibling order is decided at the first difference by code point, a prefix first |
| `TreeSearch.GreedyIsComplete` | config-ui/src/extra_config_modal.rs:541-550 | the greedy scan succeeds exactly when some ordered, non-overlapping placement of all tokens exists |
| `TreeSearch.OrderedContains` | config-ui/src/extra_config_modal.rs:541-550 | the loop on `pos` decides whether a placement exists |
| `TreeSearch.ShownIffSomeHit` | config-ui/src/extra_config_modal.rs:511-524 | a node is shown exactly when it or a node below it holds all tokens in order |
| `TreeSearch.HitsAreReachable` | config-ui/src/extra_config_modal.rs:498-524 | every ancestor of a hit in the built tree is shown |
| `TreeSearch.FewerTokensMatchMore` | config-ui/src/extra_config_modal.rs:503-524 | dropping any token keeps every match |
| `TreeSearch.SearchOfBuiltTree` | config-ui/src/extra_config_modal.rs:98-109 | the same for the tree built from any schema |
| `TreeSearch.ShownIffTextsHold` | config-ui/src/extra_config_modal.rs:511-539 | a node is shown for some words exactly when it or a node below has the first of them in its path, the next in its title and the rest in its help text |
| `TreeSearch.OptionIsFound` | config-ui/src/extra_config_modal.rs:503-539 | words that an option's path, title and help text hold in order show every node on the way to it |
| `TreeSearch.FilterShows` | config-ui/src/extra_config_modal.rs:503-509 | the same for the filter box, whose words are lower-cased |
| `TreeSearch.WordsOfFilter` | config-ui/src/extra_config_modal.rs:504-507 | which words a filter has, by its shape |
| `Cleaners.PruneNormalises` | config-ui/src/extra_config_modal.rs:364-386 | nothing empty is left strictly below the root |
| `Cleaners.PruneTwice` | config-ui/src/extra_config_modal.rs:364-386 | pruning again changes nothing |
| `Cleaners.PruneKeepsScalars` | config-ui/src/extra_config_modal.rs:364-396 | every non-empty scalar survives, in reading order |
| `Cleaners.PruneLeaves` | config-ui/src/extra_config_modal.rs:364-396 | a container keeps exactly the children that hold a non-empty scalar, under their keys or in their order |
| `Cleaners.StripStrips` | mac-mgmt-agent/src/validator.rs:660-683 | no internal reference, definitions or required list is left at any depth |
| `Cleaners.StripTwice` | mac-mgmt-agent/src/validator.rs:660-683 | stripping again changes nothing |
| `Cleaners.StripAt` | mac-mgmt-agent/src/validator.rs:660-683 | at every path that is not cut the stripped document holds what was there |
| `Cleaners.FilterKeepsSelected` | config-ui/src/model_select_modal.rs:417-446 | exactly the selected models remain, in order and each in its old groups, with no empty group |
| `DeepMerge.MergeJson` | mac-mgmt-agent/src/config.rs:86-97 | the find-or-create loop over the overlay's keys computes the merge |
| `DeepMerge.MergedAt` | mac-mgmt-agent/src/config.rs:66-97 | what stands at every path of a merge, one section of a remote-then-local configuration included |
| `DeepMerge.LeavesOfMerge` | mac-mgmt-agent/src/validator.rs:498-512 | the leaves of a merge are exactly the overlay's and the base's that the overlay neither holds nor cuts off |
| `DeepMerge.MergeIsIdempotent` | mac-mgmt-agent/src/validator.rs:498-512 | applying an overlay twice is applying it once |
| `DeepMerge.AssociativeIffRegroupable` | mac-mgmt-agent/src/config.rs:86-97 | merging is associative exactly where no non-object in the middle separates two objects of which the last does not absorb the first |
| `DotEnv.ParseEnv` | mac-mgmt-agent/src/validator.rs:419-437 | the line loop with its two errors and their line numbers |
| `DotEnv.SerializeEnv` | mac-mgmt-agent/src/validator.rs:441-467 | the sorted-key loop with its errors; nulls are skipped unseen |
| `DotEnv.PrintThenParse` | mac-mgmt-agent/src/validator.rs:419-467 | whatever prints reads back key by key: nulls gone, trailing blanks lost, nothing else changed |
| `DotEnv.ParsePrintParse` | mac-mgmt-agent/src/validator.rs:419-467 | for every text that parses, print and parse again give the same map |
| `DotEnv.ReadsBackExactly` | mac-mgmt-agent/src/validator.rs:421-434 | a printable document reads back unchanged exactly when no string value ends in a blank |
| `DotEnv.ValidPrints` | mac-mgmt-agent/src/validator.rs:471-492 | whatever passes the env validator can be serialized |
| `EnvSyntax.LineMeaning` | mac-mgmt-agent/src/validator.rs:421-434 | every line exactly: ignored, an assignment after at most one `export `, without `=`, or with a bad name |
| `EnvSyntax.ParsesIffNoFault` | mac-mgmt-agent/src/validator.rs:419-437 | a text parses exactly when no line is faulty |
| `EnvSyntax.FirstFaultIsReported` | mac-mgmt-agent/src/validator.rs:426-433 | otherwise the first faulty line is reported, with its kind and number |
| `EnvSyntax.LastAssignmentWins` | mac-mgmt-agent/src/validator.rs:434 | a key has the value of its last assignment |
| `EnvSyntax.UnassignedIsAbsent` | mac-mgmt-agent/src/validator.rs:419-437 | and none if no line assigns it |
| `EnvSyntax.TrimIsCore` | mac-mgmt-agent/src/validator.rs:422 | trimming finds the one part between the outer blanks |
| `EnvSyntax.LinesOfText` | mac-mgmt-agent/src/validator.rs:421 | which lines a text has, by its shape |
| `EnvSyntax.PrintedForm` | mac-mgmt-agent/src/validator.rs:441-467 | a file is printed as its non-null entries in ascending key order, one `key=text` line each |
| `EnvSyntax.FirstBadEntryIsReported` | mac-mgmt-agent/src/validator.rs:446-463 | the first entry in key order that is no scalar, has a bad name or spans lines is reported |
| `EnvSyntax.FaultlessPrints` | mac-mgmt-agent/src/validator.rs:441-467 | without such an entry the file prints |
| `EnvSyntax.ValidatorAccepts` | mac-mgmt-agent/src/validator.rs:471-492 | the validator accepts exactly objects of single-line scalars or nulls under valid names |
| `EnvFiles.EnvFile.MergeValidateAndWrite` | mac-mgmt-agent/src/validator.rs:264-321 | read, merge, validate, write and roll back leave exactly the specified file and result |
| `EnvFiles.WriteAppliesPatch` | mac-mgmt-agent/src/validator.rs:264-321 | after a successful write the file parses to the old entries with the patch applied exactly when no patched string ends in a blank |
| `EnvFiles.FailureRestores` | mac-mgmt-agent/src/validator.rs:280-317 | in terms of the call's inputs: when it succeeds, and that the file is as before exactly when it was not replaced, or was there and rolled back, or the text printed is the old one; rolling back a missing file creates an empty one |
| `EnvFiles.FailuresAreExact` | mac-mgmt-agent/src/validator.rs:264-321 | where each failed call fails, in terms of its inputs |
| `EnvFiles.EntriesSurvive` | mac-mgmt-agent/src/validator.rs:264-321 | after any call the file still parses, and to the old entries exactly when it was not replaced, was rolled back, or the patch changes nothing |
| `EnvFiles.FileKeepsParsing` | mac-mgmt-agent/src/validator.rs:264-321 | over every run of writes a file that parses keeps parsing, failed rollbacks included |
| `FileWrites.Folder.WriteFile` | mac-mgmt-agent/src/file_tunnels.rs:363-480 | temp file, backup, rename, validation and rollback amount to one transaction on the real files |
| `FileWrites.AnswersAreExact` | mac-mgmt-agent/src/file_tunnels.rs:369-471 | the exact conditions on the inputs for each of 403, 413, 409, 500, 422 and success; only an admitted request changes anything |
| `FileWrites.WriteIsTransactional` | mac-mgmt-agent/src/file_tunnels.rs:411-471 | in terms of the call's inputs: it succeeds exactly when it replaces the target and the bytes are not rejected; all bytes are as before exactly when it does not replace the target, rolls back, or writes the same bytes; no other file changes |
| `FileWrites.RunsAreTransactional` | mac-mgmt-agent/src/file_tunnels.rs:363-480 | over every run with successful rollbacks each file holds its last accepted content and validated folders stay valid |
| `FileWrites.UnpermittedNeverChanges` | mac-mgmt-agent/src/file_tunnels.rs:369-385 | over every run a file the filters keep out never changes |
| `FileWrites.ReadOnlyNeverChanges` | mac-mgmt-agent/src/file_tunnels.rs:369-371 | over every run nothing changes through a read-only tunnel |
| `FileWrites.RollbackMovesMtime` | mac-mgmt-agent/src/file_tunnels.rs:391-402 | after a rejected write the client's modification time is refused unless the backup was copied in that second |
| `FileWrites.SecondWriterIsRefused` | mac-mgmt-agent/src/file_tunnels.rs:391-402 | of two writers with the same expected time the second is refused unless the first landed in that second |
| `FileWrites.ReceiveContent` | mac-mgmt-agent/src/file_tunnels.rs:559-580 | the receive loop collects binary frames up to the first other frame, refuses oversize, aborts on error |
| `FileWrites.ReceivedIsExact` | mac-mgmt-agent/src/file_tunnels.rs:559-580 | what a write session receives, by its first frame that is not binary and the limit of 10 MiB |
| `FileWrites.ChunkIs` | mac-mgmt-agent/src/file_tunnels.rs:513-519 | which bytes each frame of a read session holds |
| `FileWrites.ChunksReassemble` | mac-mgmt-agent/src/file_tunnels.rs:509-580 | for every chunk size a read session piped into a write session moves the bytes unchanged or is refused as too large |
| `FileWrites.PipedFileArrives` | mac-mgmt-agent/src/file_tunnels.rs:513-580 | at the stream's chunk size a file arrives unchanged exactly when it is within the size limit |
| `ServerPush.Connection.Feed` | mac-mgmt-agent/src/server_push.rs:66-123 | one chunk through the drain loop, including a receiver that hangs up |
| `ServerPush.DrainSendsCommands` | mac-mgmt-agent/src/server_push.rs:77-123 | draining sends the commands of the complete lines in order, as many as the receiver takes |
| `ServerPush.StreamIsDelivered` | mac-mgmt-agent/src/server_push.rs:66-126 | over a whole connection the receiver gets the commands of the stream's complete lines and the buffer ends as the unterminated tail |
| `ServerPush.CuttingDoesNotMatter` | mac-mgmt-agent/src/server_push.rs:66-126 | two ways of cutting a character stream into chunks send the same commands |
| `ServerPush.ForwardedIffBrought` | mac-mgmt-agent/src/server_push.rs:84-111 | forwarded is exactly every event but a ping that some `data:` line brings, addressed to us or to everybody |
| `ServerPush.LinesMakeUpText` | mac-mgmt-agent/src/server_push.rs:77-79 | complete lines and tail make up the text, each line ending at its only newline |
| `ServerPush.DispatchedIffBrought` | daemon/src/daemon.rs:1687-1700 | the daemon reloads its configuration, or syncs SSH keys, exactly when a line brings that event |
| `ServerPush.UnreachableIffNested` | daemon/src/daemon.rs:806-813 | the dispatch reaches an `unreachable!` exactly when a line nests a targeted event for us |
| `ServerPush.ReconnectLoop` | mac-mgmt-agent/src/server_push.rs:27-45 | a failure after k others in a row sleeps min(2^k, 60) seconds |
| `Heartbeat.EveryInterleavingIsSafe` | daemon/src/daemon.rs:515-576 | in every interleaving at most one POST is in flight, triggers are conserved, and the inventory is sent once, after the first success |
| `Heartbeat.RunsAreAccounted` | daemon/src/daemon.rs:515-576 | in every interleaving successes and failures are the numbers of those POST results, a start posts exactly when nothing is on the wire, the inventory is for the first successful POST, and the waiting tasks are those triggered and not started |
| `Heartbeat.StartNeverWaits` | daemon/src/daemon.rs:521-540 | a started send is at once posting or dropped, and dropped exactly when another is on the wire |
| `Heartbeat.PostsInOrderIffNoOvertaking` | daemon/src/daemon.rs:490-541 | in every interleaving snapshots are posted in trigger order if and only if no start that finds the lock free overtakes a waiting older send that later finds it free |
| `Heartbeat.InOrderStartsPostInOrder` | daemon/src/daemon.rs:490-541 | in particular sends that start in trigger order post in trigger order |
| `Heartbeat.DelayedTaskPostsStale` | daemon/src/daemon.rs:490-541 | a run in which a delayed send posts an older snapshot after a newer one |
| `Heartbeat.AtMostOneCollection` | daemon/src/daemon.rs:1591-1605 | scheduled and pressure-triggered collections never overlap and the flag is set exactly while one runs |
| `Heartbeat.CollectionsAreStarted` | daemon/src/daemon.rs:1591-1605 | every collection asked for while none runs is started, and every started one runs or has cleared the flag |
| `Heartbeat.HealerTicks` | daemon/src/daemon.rs:688-709 | the healer fires exactly when the unhealthy streak of counted ticks is a positive multiple of ten |
| `Heartbeat.StreakIsTrailing` | daemon/src/daemon.rs:688-709 | the streak is the run of unhealthy ticks at the end of those with auto-trigger on |
| `Packages.Machine.SyncPackages` | daemon/src/packages.rs:128-242 | one round of reinstall, install, remove, upgrade and record leaves exactly the specified host |
| `Packages.PackageAfterRound` | daemon/src/packages.rs:128-242 | what one round does to each package, by whether it is recorded, desired and installed and which commands fail |
| `Packages.CleanRoundConverges` | daemon/src/packages.rs:128-242 | a failure-free round converges exactly unless the profile was empty while a desired package was recorded and not upgraded |
| `Packages.ConvergesAfterAnyHistory` | daemon/src/packages.rs:128-242 | after any history one failure-free round on a non-empty profile converges and any number of further ones change nothing |
| `Packages.OthersUntouchedEver` | daemon/src/packages.rs:128-242 | packages never recorded and never desired are never touched |
| `Packages.UnwantedStaysIffKept` | daemon/src/packages.rs:191-204 | over every history that does not ask for it a managed package stays exactly when each round fails to remove it until one also writes the state file |
| `Packages.FailedRemovalIsForgotten` | daemon/src/packages.rs:191-204 | after a final failure-free round an unwanted package is still there exactly when an earlier round failed to remove it and recorded the state |
| `NixProfile.StoredFormIsRecognised` | mac-mgmt-agent/src/nix.rs:228-236 | a base written back with one known prefix and trailing slashes counts as the base exactly when the base does not itself start with a prefix stripped no later |
| `NixProfile.BaseEqIffSameCore` | mac-mgmt-agent/src/nix.rs:228-236 | two written bases count as equal exactly when they are the same without prefixes and slashes |
| `NixProfile.PackagesWithUpgrades` | mac-mgmt-agent/src/nix.rs:600-626 | the result is the dry run's packages and exactly the listed ones asked about that come from another base, without duplicates |
| `NixProfile.Store.ProfileUpgrade` | mac-mgmt-agent/src/nix.rs:833-858 | the upgrade path leaves exactly the specified profile |
| `NixProfile.SwapIsSafe` | mac-mgmt-agent/src/nix.rs:833-858 | every outcome leaves the old or the new element, except a failed add after a non-atomic removal |
| `NixProfile.UpgradeSettlesDrift` | mac-mgmt-agent/src/nix.rs:579-626 | after a successful upgrade the drift check drops the package exactly when the stored form is recognised |
| `NixProfile.PassSettlesDrift` | mac-mgmt-agent/src/nix.rs:222-236 | after a successful pass over everything that drifted, the drift check lists exactly the packages stored in an unrecognised form, none exactly if there are none |
| `NixProfile.SettledPassStaysInPlace` | mac-mgmt-agent/src/nix.rs:834-842 | with nothing drifted a further pass takes the in-place branch for every package and changes no element or URL |
| `Versions.IsNewer` | daemon/src/usb_update.rs:48-66 | the index loop decides the zero-padded lexicographic order |
| `Versions.NewerIsAStrictWeakOrder` | daemon/src/usb_update.rs:48-66 | newer is irreflexive, transitive, and "neither newer" is an equivalence it respects |
| `Versions.ParseBestRelease` | daemon/src/usb_update.rs:70-113 | the loop over releases and links, giving up when a release has no tag |
| `Versions.BestIsNewest` | daemon/src/usb_update.rs:70-113 | a release is chosen exactly when a newer one has the asset; none is newer than the chosen one, and it is the first among its equals |
| `Versions.ComparisonsAgree` | daemon/src/self_update.rs:239-266 | on dotted numeric versions the two comparisons agree in both directions except when one version is the other padded with zeros |
| `Versions.GuardRefusesDowngrades` | daemon/src/self_update.rs:143-205 | between dotted numeric versions the updater refuses a downgrade exactly when the running version is newer or pads the target with zeros, so no applied update goes back |
| `ReleaseTexts.AppliedIff` | daemon/src/self_update.rs:143-257 | an update is applied exactly when version and store path are named, it is no downgrade, the daemon is not there yet and the path is a store entry |
| `ReleaseTexts.VersionIsRead` | daemon/src/usb_update.rs:49-54 | what is read out of a version text: leading v's, pieces between dots and dashes, each its number or zero |
| `ReleaseTexts.NumbersReadBack` | daemon/src/usb_update.rs:52 | a 64-bit number reads back from its decimal notation, a larger one does not parse |
| `ReleaseTexts.NumbersAreDigits` | daemon/src/self_update.rs:240 | what parses as a number is digits after at most one plus sign |
| `ReleaseTexts.SemverIsRead` | daemon/src/self_update.rs:239-241 | a version is dotted numeric exactly when every piece between dots is a number |
| `ReleaseTexts.OfferIsPublished` | daemon/src/usb_update.rs:83-104 | what a release offers is the download of its last link with the wanted name, and of the checksum's |
| `ReleaseTexts.BestReleaseCounts` | daemon/src/usb_update.rs:70-113 | a release is found exactly when one is tagged, newer and publishes the asset |
| `ShellSessions.HandleExecSession` | mac-mgmt-agent/src/shell_tunnels.rs:162-315 | every kind of session sends exactly the specified frames |
| `ShellSessions.StreamOutput` | mac-mgmt-agent/src/shell_tunnels.rs:232-294 | the select loop sends the specified merge for every schedule |
| `ShellSessions.StreamsArriveWhole` | mac-mgmt-agent/src/shell_tunnels.rs:232-294 | without read error or timeout both streams arrive whole and in order in every interleaving |
| `ShellSessions.MergeKeepsOrder` | mac-mgmt-agent/src/shell_tunnels.rs:232-294 | in every session each stream arrives as a prefix of what the process wrote |
| `ShellSessions.TurnSends` | mac-mgmt-agent/src/shell_tunnels.rs:232-285 | each turn of the select loop sends the next line of the pipe it reads |
| `ShellSessions.TurnStops` | mac-mgmt-agent/src/shell_tunnels.rs:232-294 | the turn that finds no line decides what is still sent and whether it was a timeout |
| `ShellSessions.SessionsEndOnce` | mac-mgmt-agent/src/shell_tunnels.rs:177-315 | every session is output frames, one exit frame with the process's or handler's code, or -1 after refusal, failed spawn or timeout, then the end |
| `ConfigStore.Store.Set` | mac-mgmt-agent/src/config_providers.rs:50-62 | an effective set bumps the version and rewrites the cache; an equal value does neither |
| `ConfigStore.Store.TakeSnapshot` | mac-mgmt-agent/src/config_providers.rs:87-95 | the snapshot has the current version of every named provider |
| `ConfigStore.Store.AllAvailable` | mac-mgmt-agent/src/config_providers.rs:69-72 | true exactly when every named provider is set |
| `ConfigStore.Store.AnyChanged` | mac-mgmt-agent/src/config_providers.rs:76-85 | reports a version difference of some named provider |
| `ConfigStore.LastValueIsKept` | mac-mgmt-agent/src/config_providers.rs:50-67 | over every run a get answers the last value given, and the version counts the changes of the given values |
| `ConfigStore.Store.ValuesFor` | mac-mgmt-agent/src/config_providers.rs:98-106 | exactly the named providers that are set, with their values |
| `ConfigStore.ChangeDetectionIsExact` | mac-mgmt-agent/src/config_providers.rs:74-97 | over every run of sets since a snapshot a change is reported exactly when a named provider was really changed, and otherwise no named value moved |
| `ConfigStore.FirstRunReportsWhatIsSet` | mac-mgmt-agent/src/config_providers.rs:74-85 | against an empty snapshot a change is reported exactly when some named provider has been set |
| `ConfigStore.ReopenedStoreAgrees` | mac-mgmt-agent/src/config_providers.rs:112-152 | a store reopened from its cache answers every get alike |

## Left out

- Rendering, signals, translation, storage and styling in config-ui: a signal is one mutable field holding a document.
- JSON, TOML and YAML parsing and printing: the dirty flag, which compares printed text, is document equality; a JSON number is the text it prints as.
- The width of `usize`: path segments and version numbers parse as unsigned 64-bit, also where the browser build has 32 bits.
- Edits of a whole list and edits of its elements at the same time: such fields are prefixes of one another and fall outside `EditableFields`.
- In-place aliasing in `insert`, `sort_tree`, `merge_json`, `prune`, `strip_defs_refs` and `filter_to_selected`: these recursions are modelled on values.
- Partially created containers at the moment `set_at_path` panics: a panic has no resulting document.
- Schema entry attributes the tree and its search do not read, `count_leaves`, and the other tree renderers.
- The JSON, YAML and TOML branches of `merge_validate_and_write`, its timestamped history copy, and `write_atomic`'s permissions and links: a failed atomic write leaves the file as it was.
- `resolve_path`, globs and the listing of file tunnels: a request carries a resolved path and the outcome of the filters.
- The bytes of a push chunk that cuts a UTF-8 sequence: chunks are already decoded text, so chunk invariance is about characters.
- ServerPush.ReconnectLoop: time itself; it states the seconds slept, not when.
- Heartbeat payloads, HTTP and metrics export: a snapshot is the number of its trigger.
- Packages.Machine.SyncPackages: treats `profile_install` as a plain add and a failed upgrade as keeping or losing the element.
- The "already provides" conflict removal of `profile_install_with_nix`, and running nix at all.
- The rest of `self_update.rs`: applying a store path, writing markers and restarts.
- Write failures towards the peer of a shell session, and argument validation patterns.
- Overflow of the 64-bit provider version counter.
