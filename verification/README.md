# File Search Pro index core, modelled in Dafny

File Search Pro (`FS-Pro18.py`) is a PyQt desktop tool for Windows. It keeps an index of the files under one of up to ten monitored directories. It keeps that index current through watchdog file-system events, and lets the user filter the indexed files by name and extension and tag them.

This project models the bookkeeping behind the window. Each part is a pure function over immutable data:

- **`Paths`**: Windows path strings.
  - The character maps behind `os.path.abspath` and `str.lower`.
  - `os.path.join` of a walked directory with a file name.
  - `os.path.splitext` and `os.path.basename`.
  - The containment check `is_safe_path`. It compares paths component by component, the way `os.path.commonpath` does: case-folded, both separators, no empty or `.` components.
- **`Scanner`**: `index_files.scan_folder` over a walk that is given as input, a sequence of (directory, file names).
  - It keeps the files that are neither in a pruned subtree nor of an excluded type.
  - It emits the progress signals and then the completion signal.
- **`Index`**: the window's state: the directory list, the current directory, the indexed files, the time stamp, and the content of the index file.
  - Transitions: `add_directory`, `change_directory`, `delete_directory`, `index_files`, `load_or_index_files`.
  - `save_index` becomes "the index file now holds this snapshot".
- **`Watcher`**: `handle_file_event`, `handle_file_removed` and `handle_file_renamed`, plus the routing done by `FileMonitorHandler`.
- **`Session`**: start-up followed by any sequence of user actions, finished scans and watcher events, with the invariant they keep.
- **`Filter`**: the result-list predicate of `apply_filter` / `filter_files`, and the filtered list.
- **`Tags`**: `TagManager.add_tag` / `remove_tag` over a map from path to tag list, and the tag dialog of `manage_tags`. The dialog's text is split at commas, stripped, and written as the file's new list.

Two modules hold shared helpers. `Wrappers` has `Option` and `Result`; `Seqs` has element sets, duplicate-freedom, selection, gathering and `str.split`.

Three behaviours of the code shape the model:
- `add_directory` checks for duplicates by comparing raw strings. So `D:\Data` and `D:/Data` can both be listed (`Index.DuplicateCheckIsRaw`).
- `scan_folder` prunes subtrees by raw string prefix, using a four-entry set that differs from the set `add_directory` refuses. So `C:\WindowsApps` is pruned (`Scanner.PrunedByStringPrefix`), while `C:\Users\...` is scanned.
- `handle_file_renamed` drops a move entirely when either path fails the containment check. So a move out of the current directory leaves the old path indexed (`Watcher.HandleFileRenamedAsWritten`).

## Model

| member | source | states |
|---|---|---|
| Paths.IsSafePath | FS-Pro18.py:754-758 | the containment check holds exactly when the base's normalised components are a prefix of the target's |
| Paths.IsSafePathReflexive | FS-Pro18.py:754-758 | every directory contains itself |
| Paths.IsSafePathTransitive | FS-Pro18.py:754-758 | containment is transitive |
| Paths.CommonPrefix | FS-Pro18.py:757 | the common path of two component lists is a prefix of both and cannot be extended |
| Paths.CommonPrefixOfPrefix | FS-Pro18.py:757 | a component list is its own common path with another list exactly when it is a prefix of it |
| Paths.AbsPathShape | FS-Pro18.py:704 | `abspath` of a dialog path keeps its length, turns every separator into `\` and keeps every other character |
| Paths.AbsPathIdempotent | FS-Pro18.py:508 | normalising an already normalised path changes nothing |
| Paths.AbsPathKeepsPrefix | FS-Pro18.py:704 | a string prefix of a path stays a prefix after both are normalised |
| Paths.JoinShape | FS-Pro18.py:709 | the joined path starts with the directory and ends with the name, with one `\` between them exactly when the directory is non-empty and does not already end with a separator |
| Paths.ComponentsOfJoin | FS-Pro18.py:709 | joining a separator-free file name to a directory adds exactly that name as the last component (none for `""` or `.`) |
| Paths.JoinStaysInside | FS-Pro18.py:709 | a file joined to a directory inside a base lies inside that base |
| Paths.ExtensionOfJoin | FS-Pro18.py:709-710 | the joined path's base name is the listed file name, and its extension is that name's extension |
| Paths.NameExtensionShape | FS-Pro18.py:710 | `splitext`'s extension is empty or a final dot-led, dot-free suffix preceded by a character that is not a dot |
| Paths.NameExtensionFound | FS-Pro18.py:710 | conversely, a last dot with a non-dot character somewhere before it starts the extension, so the extension is empty only when there is no such dot |
| Paths.BaseNameShape | FS-Pro18.py:458-459 | the base name is a separator-free suffix of the path that follows a separator unless it is the whole path |
| Paths.KeyOfDriveChild | FS-Pro18.py:757 | a directory directly below a drive has the drive and its name as components |
| Scanner.PrunedSubtree | FS-Pro18.py:702-706 | a directory below a pruned directory is pruned too, so nothing in a pruned subtree is kept |
| Scanner.ExcludedFileByName | FS-Pro18.py:709-715 | when some non-dot character precedes the last dot of a listed file's name, the file is skipped exactly when the lower-cased text from that dot is an excluded type (a name such as `.ini`, all dots before its other characters, has no extension and is kept) |
| Scanner.KeptNamesMembership | FS-Pro18.py:708-717 | a directory's kept paths are exactly its listed files whose lower-cased extension is not excluded |
| Scanner.KeptFilesAreEligible | FS-Pro18.py:702-717 | a path is kept exactly when a walked directory outside every excluded prefix lists it and its extension is not excluded |
| Scanner.KeptFilesAppend | FS-Pro18.py:702-717 | the scan keeps files in walk order: a split walk keeps the first part's files, then the second's |
| Scanner.KeptFilesWithin | FS-Pro18.py:702-717 | when the walk stays inside a base, every kept file lies inside that base |
| Scanner.PrunedByStringPrefix | FS-Pro18.py:704 | `C:/WindowsApps` is pruned because its absolute path starts with `C:\Windows`, although it is not inside it |
| Scanner.CollectNames | FS-Pro18.py:708-717 | the loop over one directory's files yields the reference list of kept paths |
| Scanner.CollectFiles | FS-Pro18.py:700-717 | the loop over the walk yields the reference list of kept files |
| Scanner.Percent | FS-Pro18.py:732 | the percentage after `i` of `total` files is the largest whole number `p` with `p * total <= i * 100` |
| Scanner.PercentMonotone | FS-Pro18.py:732 | the progress percentage never decreases as more files are indexed |
| Scanner.PercentBounds | FS-Pro18.py:732 | the percentage is at most 100, and is 100 exactly at the last file |
| Scanner.EmitProgress | FS-Pro18.py:728-736 | the emitted values strictly increase, lie in 1..100, end at 100, and are exactly the positive percentages some file reaches |
| Scanner.ReportProgress | FS-Pro18.py:719-743 | with no kept file the signals are exactly 100 then completion; otherwise strictly increasing values in 1..100 ending at 100, then 100 again, then completion |
| Scanner.ScanFolder | FS-Pro18.py:692-743 | the scan returns the reference list of kept files and a non-decreasing progress sequence that ends with 100 and completion |
| Index.Save | FS-Pro18.py:659-678 | afterwards the index file holds the directories, the time and the files, and nothing the window shows changes |
| Index.AddDirectory | FS-Pro18.py:507-532 | an empty, protected (after `abspath`), already listed (raw) or eleventh directory is refused with that reason, checked in that order; otherwise it is appended, becomes current, and the file set is cleared, with the index file untouched |
| Index.AddDirectoryKeepsListValid | FS-Pro18.py:507-527 | adding keeps the list within ten entries, duplicate-free, and free of empty and protected entries |
| Index.DuplicateCheckIsRaw | FS-Pro18.py:517 | the same directory written with `/` is accepted a second time |
| Index.ProtectedCheckIsNormalised | FS-Pro18.py:508 | `C:/Windows` is refused as protected |
| Index.ProtectedCheckIsExact | FS-Pro18.py:486-508 | a subdirectory of a protected directory is accepted |
| Index.ChangeDirectory | FS-Pro18.py:535-541 | a valid index makes that directory current and empties the file set; any other index changes nothing |
| Index.RemoveAt | FS-Pro18.py:642 | removing an entry keeps the entries before it and shifts the ones after it down by one |
| Index.Reselected | FS-Pro18.py:643 | after the selected drop-down entry is removed, the entry that moved into its place is selected, or the new last entry when the last was removed |
| Index.DeleteDirectory | FS-Pro18.py:620-656 | no list, an invalid index or a declined confirmation fails with that reason and changes nothing; otherwise exactly that entry is removed and the result is saved; when entries remain, the reselected neighbour becomes current and the files are cleared; when none remain, deleting the current directory clears it and the files, and deleting another keeps both; the time stamp is unchanged |
| Index.DeleteDirectoryKeepsListValid | FS-Pro18.py:643-644 | deleting keeps the list valid and removes only the deleted directory |
| Index.AddThenDelete | FS-Pro18.py:507-656 | deleting a just-added directory restores the list, clears the files, and makes the previously last directory current, or none when there was none |
| Index.IndexFiles | FS-Pro18.py:681-743 | without a current directory nothing changes; the directory list, current directory and time are never changed |
| Index.IndexFilesContents | FS-Pro18.py:692-743 | the indexed files are exactly the eligible files of the walk, and the index file is written exactly when a file was kept |
| Index.IndexFilesContained | FS-Pro18.py:692-743 | indexing a walk inside the current directory keeps every indexed file inside it |
| Index.EmptyScanLeavesIndexStale | FS-Pro18.py:719-724 | a scan that keeps nothing empties the file set but leaves the earlier index in the file |
| Index.LoadIndex | FS-Pro18.py:586-617 | with no index file nothing changes; otherwise the directories and time come from the file; selecting the first directory makes it current and clears the loaded files; with no directory the loaded files stay and match the file |
| Index.SaveThenLoad | FS-Pro18.py:586-678 | loading what was saved restores the directories and time; the files come back only when no directory is listed, otherwise the first directory is current and the files are cleared for its rescan |
| Watcher.Accepts | FS-Pro18.py:763 | a handler acts on a path exactly when there is a current directory whose components are a prefix of the path's |
| Watcher.HandleFileEvent | FS-Pro18.py:761-771 | a path outside the current directory changes nothing; an inside path is added, and the index is saved when it is new; the directory list, current directory and time stamp are unchanged |
| Watcher.HandleFileEventIdempotent | FS-Pro18.py:761-771 | the same create or modify event twice has the effect of one |
| Watcher.HandleFileRemoved | FS-Pro18.py:774-780 | an inside path is removed, and the index is saved when it was present; otherwise nothing changes; the directory list, current directory and time stamp are unchanged |
| Watcher.CreateThenDelete | FS-Pro18.py:761-780 | creating a new inside file and deleting it restores the file set, in step with the index file |
| Watcher.HandleFileRenamedAsWritten | FS-Pro18.py:784-798 | a move with either path outside changes nothing; otherwise the source is replaced by the destination, the index file changes only when the destination was new, and a move onto a new path leaves the index file in step; the directory list, current directory and time stamp are unchanged |
| Watcher.HandleFileRenamed | FS-Pro18.py:784-798 | corrected handler: as above, but the index is saved whenever the file set changed; the directory list, current directory and time stamp are unchanged |
| Watcher.RenameOntoIndexedFileLeavesIndexStale | FS-Pro18.py:784-798 | renaming an indexed file onto another indexed file leaves the index file with the old path; the corrected handler saves |
| Watcher.RenameThenRenameBack | FS-Pro18.py:784-798 | corrected handler: a rename onto a new path followed by the reverse rename restores the file set, in step with the index file |
| Watcher.RenameThenRenameBackAsWritten | FS-Pro18.py:784-798 | the handler as written: a rename onto a new path followed by the reverse rename restores the file set, in step with the index file |
| Watcher.Dispatch | FS-Pro18.py:184-198 | directory events are ignored; a file creation or modification goes to `handle_file_event`, a deletion to `handle_file_removed` and a move to `handle_file_renamed` as written; no event changes the directory list, the current directory or the time stamp |
| Watcher.DispatchCorrected | FS-Pro18.py:184-198 | corrected routing: it differs from the program's only for file moves; the directory list, current directory and time stamp are unchanged |
| Watcher.DispatchKeepsContained | FS-Pro18.py:761-798 | an event never indexes a file outside the current directory |
| Watcher.DispatchKeepsInSync | FS-Pro18.py:761-798 | every event except a move onto another indexed path keeps the index file in step with the file set |
| Watcher.DispatchCorrectedKeepsInSync | FS-Pro18.py:761-798 | corrected routing: every event keeps the index file in step with the file set |
| Watcher.DispatchCanLeaveIndexStale | FS-Pro18.py:784-798 | one move of an indexed file onto another puts the program's index file out of step, while the corrected routing keeps it in step |
| Watcher.ApplyEventsKeepsContained | FS-Pro18.py:761-798 | any sequence of events keeps every indexed file inside the current directory |
| Watcher.ApplyEventsKeepsInSync | FS-Pro18.py:761-780 | any sequence of create, modify and delete events keeps the index file in step with the file set |
| Watcher.ApplyEventsCorrectedKeepsInSync | FS-Pro18.py:761-798 | corrected routing: any sequence of events, moves included, keeps the index file in step with the file set |
| Watcher.ApplyEventsFrame | FS-Pro18.py:774-798 | an indexed file stays indexed until a delete or move-away event for it |
| Watcher.ApplyEventsOnlyAdds | FS-Pro18.py:761-798 | a file becomes indexed only through an accepted create, modify or move-onto event |
| Session.Start | FS-Pro18.py:586-617 | start-up from a valid index file satisfies the invariant, lists the stored directories, shows no file, and matches the file exactly when it stored no files |
| Session.StartThenRescan | FS-Pro18.py:535-551 | the rescan start-up triggers shows exactly the eligible files of the first stored directory's walk |
| Session.Step | FS-Pro18.py:483-798 | a refused addition or deletion leaves the state unchanged; only an addition lengthens the directory list, and by one at most |
| Session.Run | FS-Pro18.py:483-798 | a run without additions never lengthens the directory list, and no run lengthens it by more than its number of steps |
| Session.StepKeepsInvariant | FS-Pro18.py:483-798 | every action, scan and event keeps the list valid, the current directory listed, no files without a current directory, and the index file valid |
| Session.RunKeepsInvariant | FS-Pro18.py:483-798 | from start-up on, at most ten directories are ever listed |
| Session.StepKeepsContained | FS-Pro18.py:535-798 | once the files lie inside the current directory, every step keeps them there when scans walk inside it |
| Filter.TrimStartShape | FS-Pro18.py:452 | the removed prefix is all whitespace and the rest does not start with whitespace |
| Filter.TrimEndShape | FS-Pro18.py:452 | the removed suffix is all whitespace and the rest does not end with whitespace |
| Filter.Strip | FS-Pro18.py:452 | the stripped text is a slice of the input with only whitespace around it and no whitespace at either end |
| Filter.StripOfPadded | FS-Pro18.py:452 | any text with a blank before it and a tab after it strips to what the text itself strips to |
| Filter.SurroundingWhitespaceIgnored | FS-Pro18.py:452-468 | a blank before and a tab after any search text do not change which files match |
| Filter.SearchIgnoresCase | FS-Pro18.py:452-468 | lower-casing the search text does not change which files match |
| Filter.DefaultsMatch | FS-Pro18.py:464-468 | with both drop-downs on their first entry and a blank search bar, every file matches |
| Filter.ShownMembership | FS-Pro18.py:457-468 | a file is listed exactly when it is in the snapshot and matches |
| Filter.ApplyFilter | FS-Pro18.py:448-479 | the filter loop lists exactly the matching files, in snapshot order |
| Filter.DefaultsShowEverything | FS-Pro18.py:255-262 | with both drop-downs on their first entry and a blank search bar, every file is listed |
| Tags.GetTags | FS-Pro18.py:173-175 | in a well-formed map, a file's tag list is empty exactly when it is untagged, and holds no tag twice |
| Tags.AddTag | FS-Pro18.py:157-163 | afterwards the file carries the tag; a new tag is appended and saved; other files are untouched |
| Tags.FirstIndex | FS-Pro18.py:167 | the position `list.remove` acts on holds the tag, and the tag does not occur before it |
| Tags.RemoveFirst | FS-Pro18.py:167 | `list.remove` takes out exactly one occurrence |
| Tags.RemoveFirstKeepsOrder | FS-Pro18.py:167 | `list.remove` takes out the first occurrence and keeps the other tags in order |
| Tags.RemoveTag | FS-Pro18.py:165-171 | a carried tag loses one occurrence, the file is dropped when no tag is left, and the tags are saved; other files are untouched |
| Tags.RemoveTagKeepsOrder | FS-Pro18.py:165-171 | removing a carried tag leaves the file's list with that tag's first occurrence cut out and the others in order |
| Tags.AddTagKeepsWellFormed | FS-Pro18.py:157-163 | adding keeps every tag list non-empty and duplicate-free |
| Tags.RemoveTagKeepsWellFormed | FS-Pro18.py:165-171 | removing keeps the map well formed, and the tag is gone from the file |
| Tags.AddThenRemove | FS-Pro18.py:157-171 | adding a new tag and removing it restores the tag map |
| Seqs.Split | FS-Pro18.py:406 | `str.split` gives at least one piece, and no piece holds the separator |
| Seqs.SplitWithout | FS-Pro18.py:406 | text without the separator splits into itself alone |
| Seqs.SplitAfterPiece | FS-Pro18.py:406 | a separator-free first piece and a separator split into that piece followed by the pieces of the rest |
| Tags.ManageTags | FS-Pro18.py:389-408 | a missing file or a cancelled dialog changes nothing; otherwise the file is listed with the tags read from the text, even none, the tags are saved, and other files are untouched |
| Tags.TagListClean | FS-Pro18.py:406 | every tag read from the dialog's text is non-blank, comma-free and stripped |
| Tags.CleanIsStripped | FS-Pro18.py:406 | a clean tag is its own stripped text |
| Tags.TagListOfJoined | FS-Pro18.py:401-406 | clean tags joined with `", "`, after any blank prefix, read back as the same list |
| Tags.ManageTagsUnedited | FS-Pro18.py:394-408 | accepting the dialog's initial text keeps a file's clean tags; an untagged file is then listed with no tags |
| Tags.ManageTagsKeepsClean | FS-Pro18.py:406-407 | a map of clean tags stays one after the dialog |
| Tags.ManageTagsCanRepeat | FS-Pro18.py:406-407 | text naming a tag twice lists it twice, so the map is no longer well formed |
| Tags.ManageTagsCanEmpty | FS-Pro18.py:406-407 | blank text lists the file with an empty tag list, so the map is no longer well formed |

## Left out

- The PyQt window, dialogs, menus, style sheets, progress-bar rendering, help text and result-list items with their tag highlighting. These are presentation only; the filter predicate and the listed paths are modelled.
- Threads, the watchdog observer's start, stop and join, `files_lock`, and `closeEvent`. Scans and events are modelled as sequential steps. The scan fills the file set incrementally in its thread; the model applies the finished scan at once.
- The drop-down's `currentIndexChanged` signal calls `change_directory`. The model includes the state change this re-entry makes: the selected directory becomes current and the file set is cleared, in `LoadIndex` (through `setCurrentIndex(0)`) and in `DeleteDirectory` (through `removeItem`). The scan and the observer restart that `change_directory` then starts are not part of these transitions; the scan is a later `Rescan` step. In `add_directory`, the signal and the explicit call both switch to the new directory, and switching twice has the same effect as switching once. Clearing the drop-down on load selects index -1, which `change_directory` ignores.
- Index.DeleteDirectory: the selected index is a parameter. Which entry the drop-down selects after `removeItem` is Qt's behaviour, not the program's. The model takes it to be the entry that moved into the removed place, or the new last entry when the last was removed (`Index.Reselected`).
- The `FileLock` with its ten-second timeout and the JSON reading and writing. The index file is a `Snapshot` value. A missing key in the file is not modelled (the code would default it).
- `os.walk` and the real file system. The walk is an input. `os.path.abspath` is modelled as the separator conversion `/` to `\`, which is all it does to the absolute, normalised paths the folder dialog returns; `..`, drive-relative paths and the current directory are not modelled.
- Paths.Join: does not treat a drive-relative or absolute file name, which `os.walk` never reports.
- Paths.BaseName: does not split off a drive (`C:name`), which the paths the window handles never have.
- Paths.Canon: case folding is ASCII-only. `str.lower` and Windows also fold other letters; the same holds for the lower-cased names in `Filter` and `Scanner`.
- Paths.IsSafePath: `commonpath` raises for paths on different drives. The model answers false, which has the same effect: the event is dropped.
- Scanner.Percent: uses exact integer division `i * 100 / total`. The code's float expression `int((i / total) * 100)` can come out one lower; for example 29/100 gives 28.999… and then 28.
- Watcher.Accepts: without a current directory, `is_safe_path(None, …)` raises in the watcher thread. The model drops the event, which has the same effect.
- Index.LoadIndex: the stored directory list is not validated, by the code or the model; `Session.Start` requires a snapshot the program could have written.
- `filter_files` is the same predicate as `apply_filter`. It differs only in a fallback name for a missing drop-down, which the window always creates.
- `refresh_files` starts a rescan, which is a `Rescan` step, and re-applies the filter. It then appends an item for every file of the snapshot, unfiltered, after the filtered items. The result list is presentation and is not modelled, so neither is this second unfiltered block.
- `clear_search` empties the search bar and re-applies the filter, then clears the result list again. The list therefore ends empty. The result list is not modelled; the filter with an empty search text is `Filter.DefaultsMatch` when both drop-downs are on their first entry.
- `send_email` (Outlook COM), `open_file` (`os.startfile`) and `save_file_as` (`shutil.copy`) are foreign calls. The loading and saving of the tags file is I/O and is modelled only as `persisted`.
- Tags.ManageTags: the dialog's text, its OK/Cancel answer and whether the file exists are parameters. The filter re-applied afterwards and the message boxes are presentation.
- Tags.WellFormed: the window never calls `add_tag` or `remove_tag`; `manage_tags` is its only writer of tags. It can store an empty list or the same tag twice (`Tags.ManageTagsCanEmpty`, `Tags.ManageTagsCanRepeat`). So well-formedness, and the `Tags.GetTags` clauses that assume it, hold for the `TagManager` methods but are not kept by the program. What the program does keep is that a tags file holding only clean tags keeps holding only clean tags (`Tags.ManageTagsKeepsClean`).
- Session.Step: `Delete` takes any index. `delete_directory` always deletes the drop-down's current entry, so the model allows deletions the program cannot make; every property of `Step` holds for these too.

## Findings

| source | as written | input that shows it | evidently intended | confidence | as-written member | corrected member |
|---|---|---|---|---|---|---|
| FS-Pro18.py:784-798 | `handle_file_renamed` removes the old path but calls `save_index` only when the new path was not yet indexed | the current directory `d` holds indexed files `d\a` and `d\b`, saved; a move `d\a` to `d\b` leaves the file set `{d\b}`, but the index file still lists `d\a` | save whenever the file set changed, as the other handlers do | medium, not executed | Watcher.HandleFileRenamedAsWritten | Watcher.HandleFileRenamed |
