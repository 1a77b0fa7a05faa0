# Image Scene Flow Organizer — a Dafny model of its list and rename logic

The organizer (main/main.py) is a PyQt5 window. It lists the images of one folder in a
drag-and-drop list and lets the user do several things:

- reorder the images, by dragging them or by moving the selection to the top or bottom;
- rename every image to `1.ext`, `2.ext`, … in list order, either as "Rename All" or as the first
  steps of "Reload Folder";
- rename the selection to `base_NNNNNN.ext` and move it next to the other images of that base;
- search the names from two independent search bars, each cycling through the matches.

This project models that logic and proves what it promises.

Modules, one per file:

- `Strings` (strings.dfy): the Python string behaviour the program relies on, restricted to
  ASCII. It covers `str.lower`, `str.isdigit`, `str.strip`, substring `in`, `f"{n}"`,
  `f"{n:06d}"`, `int()`, and `os.path.splitext(name)[1]` for a bare file name.
- `Natural` (natural.dfy): `natural_key` (the chunks of `re.split(r'(\d+)', s)`) and Python's
  list comparison on its results, proved to be a strict total order. It also covers the stable
  sort by that key and the `SUPPORTED_EXT` filter of `load_folder_contents`.
- `Rows` (rows.dfy): which items a set of rows takes out, which stay, and how `insertItem` puts a
  block back. It also has the drop position computed by `dropEvent`, together with the position
  it was evidently meant to compute.
- `Files` (files.dfy): the folder, as a map from file name to file identity, plus the files other
  programs hold open.
  - `os.rename` fails when the source is missing, the file is held open, or the destination is
    already taken by another file.
  - A run of renames stops at its first failure.
  - The module proves the two-phase "rename all" correct.
- `Template` (template.dfy): the parts of `rename_selected` that do not touch the list widget:
  - the pattern `^base_(\d{6})\.[a-zA-Z]{3,4}$` (case-insensitive);
  - the largest counter already used;
  - the batch of fresh counters;
  - the two scans that pick the insertion row.
- `Search` (search.dfy): the cyclic scan of `search_image`.
- `Organizer` (organizer.dfy): the list widget and the main window, as two classes.
  - `ListWidget` holds the item names in row order and the selected rows.
  - `ImageOrganizer` holds the list, the folder, whether a folder is open, and the text and
    cursor of each search bar.
  - Their methods are the program's operations, proved against the functions of the other
    modules.

An item is identified by its text, which is its file name. The path is always the open folder
joined with that name, which holds everywhere in the program. The model has one folder,
fixed when the window is built: opening a folder reloads that folder, and switching to
another directory is not modelled. Dialog answers are method
arguments: the confirmation, the base name typed and whether the dialog was accepted. The
directory listing comes from `Folder.ListDir`, whose order is left open.

Two behaviours of the code worth knowing:

- After renaming, `reload_folder` gives the files that are new to the folder no special names. It
  just re-scans (main/main.py:440-441).
- A forward search whose only match is the current row finds that row again after a full turn
  (main/main.py:632-633, `Search.UniqueMatchRefound`).

## Model

| member | source | states |
|---|---|---|
| Strings.LowerStr | main/main.py:28 | `lower()` keeps the length, leaves no upper-case letter and keeps digits where they were |
| Strings.StripSpec | main/main.py:529-531 | `strip()` is empty exactly when the input is all whitespace. Otherwise it starts and ends with a non-blank, and the input is blanks, the result, then blanks |
| Strings.StripSlices | main/main.py:531 | the stripped text is what follows the leading blanks, with only blanks after it, and it has no blank at either end |
| Strings.StripBlank | main/main.py:529 | `not base.strip()` holds exactly when the input is all whitespace |
| Strings.ContainsAt | main/main.py:624 | `text in name` holds exactly when the text occurs at some offset of the name |
| Strings.Decimal | main/main.py:433 | `f"{n}"` is a non-empty string of digits |
| Strings.DecimalRoundTrip | main/main.py:433 | `int(f"{n}") == n` |
| Strings.DecimalWidth | main/main.py:549 | n has at most k decimal digits exactly when n < 10^k |
| Strings.Pad6 | main/main.py:549 | `f"{n:06d}"` is all digits and at least six wide |
| Strings.ZeroPad | main/main.py:549 | zero padding gives digits, exactly as wide as asked or as wide as the number if wider |
| Strings.DecValZeroPad | main/main.py:540 | leading zeros do not change the value `int()` reads |
| Strings.Pad6RoundTrip | main/main.py:538-540 | the counter written by `{counter:06d}` reads back as the same counter |
| Strings.Pad6Width | main/main.py:549 | `{counter:06d}` is exactly six digits wide when the counter is below 1,000,000, and wider from there on |
| Strings.LastDot | main/main.py:390 | the index of the last '.', or -1, with no '.' after it |
| Strings.Ext | main/main.py:390 | `splitext(name)[1]` is empty or starts at a '.', has no other '.', is a suffix of the name, and has a non-dot character before it. It is non-empty exactly when some non-dot character comes before a '.' |
| Strings.ExtAfterDigits | main/main.py:433 | the extension of `f"{idx}{ext}"` is `ext` again |
| Natural.Chunks | main/main.py:28 | `re.split(r'(\d+)', s)` has odd length, maximal digit runs at odd positions and digit-free text at even ones, and joined back it gives s |
| Natural.ChunksCons | main/main.py:28 | one split step: text before the first digit, then its digit run, then the chunks of the rest keep that shape and join to s |
| Natural.NaturalKey | main/main.py:27-28 | `natural_key(s)` has odd length, with lower-cased digit-free strings at even positions and ints at odd positions, one element per chunk |
| Natural.StrLessIrreflexive | main/main.py:391 | Python's `<` on strings is irreflexive |
| Natural.StrLessTransitive | main/main.py:391 | Python's `<` on strings is transitive |
| Natural.StrLessTotal | main/main.py:391 | two different strings are ordered one way or the other |
| Natural.KeyLessIrreflexive | main/main.py:391 | `<` on well-formed keys is irreflexive |
| Natural.KeyLessTransitive | main/main.py:391 | `<` on well-formed keys is transitive (str and int never meet) |
| Natural.KeyLessTotal | main/main.py:391 | two different well-formed keys are ordered one way or the other |
| Natural.NatLessIrreflexive | main/main.py:391 | no name's key is below its own |
| Natural.NatLessTransitive | main/main.py:391 | comparing natural keys is transitive |
| Natural.NatLessTotal | main/main.py:391 | two names compare one way or the other unless their keys are equal |
| Natural.NotLessTransitive | main/main.py:391 | not-less on keys is transitive |
| Natural.InsertByKey | main/main.py:391 | inserting a name by key adds exactly that name to the multiset |
| Natural.InsertByKeySorted | main/main.py:391 | inserting a name by key keeps a list sorted by key |
| Natural.SortByKey | main/main.py:391 | `sort(key=natural_key)` is ordered by key and a permutation of its input |
| Natural.SupportedNames | main/main.py:390 | the comprehension keeps each name with a supported lower-cased extension as often as it is listed, and drops every other name |
| Natural.ImageFiles | main/main.py:390-391 | the listed image names are exactly the listed names with an extension in `SUPPORTED_EXT`, each as often as listed, sorted by `natural_key` |
| Rows.Pick | main/main.py:533 | the items at the given rows, in the order the rows are given |
| Rows.SortedRows | main/main.py:142 | `sorted(set(rows))` of the selected rows is strictly increasing and holds exactly the selected rows of the list |
| Rows.KeepPermutation | main/main.py:469-472 | the rows taken out and the rows left together make up the whole list |
| Rows.KeepBeyond | main/main.py:469-470 | rows past the end of the list take nothing out |
| Rows.KeepNothing | main/main.py:466-467 | an empty selection takes nothing out and leaves the list as it is |
| Rows.KeepRemoveStep | main/main.py:566-568 | `takeItem(r)` with only higher rows already gone: the item at r has not moved, and taking it removes it from what is left and adds it in front of what was taken |
| Rows.TakeStep | main/main.py:185-187 | taking the rows from the highest down removes one more selected row per step and collects the items in row order |
| Rows.KeepSelectedInOrder | main/main.py:185-187 | the selected items taken out are the items at the sorted rows, in row order |
| Rows.KeepUnselectedAgree | main/main.py:566-568 | items outside the rows that agree in two lists stay the same after the rows are taken out |
| Rows.KeepLength | main/main.py:483 | taking distinct rows out leaves `count() - len(rows)` items |
| Rows.InsertAt | main/main.py:189 | `insertItem(row, x)` adds one item, at that row or at the end when the row lies past it |
| Rows.InsertBlock | main/main.py:188-189 | inserting a block item by item adds its length |
| Rows.InsertBlockStep | main/main.py:188-189 | inserting item i at row `at + i` extends the block by one item |
| Rows.Span | main/main.py:191-192 | the rows `at .. at+n-1`, ascending |
| Rows.Relabel | main/main.py:555-558 | renaming the items at the first k rows keeps the list length |
| Rows.RelabelNext | main/main.py:557 | renaming one more item changes just that row |
| Rows.RelabelAt | main/main.py:555-558 | each renamed row carries its new name and every other row keeps its old one |
| Rows.PickRelabel | main/main.py:566-568 | the renamed rows, picked back in row order, are the new names |
| Rows.KeepRelabel | main/main.py:566-568 | renaming leaves the rows outside the renamed set as they were |
| Rows.InsertBlockPermutation | main/main.py:188-189 | inserting a block adds exactly its items |
| Rows.MoveBlockPermutation | main/main.py:185-189 | taking rows out and putting them back as one block anywhere is a permutation |
| Rows.DropInsertAt | main/main.py:183 | `insert_at` exactly as written |
| Rows.CountBelowStep | main/main.py:183 | counting the dragged rows above the target grows by one exactly at a dragged row |
| Rows.KeepPrefixLength | main/main.py:183-187 | above the target, `target - (dragged rows above it)` items remain |
| Rows.IntendedDropBeforeTarget | main/main.py:179-189 | the intended drop position always lies within the shrunken list and puts the block right in front of the item dropped on, or at the end for a drop past the last item |
| Rows.DropOneSideAgrees | main/main.py:183 | when all dragged rows lie on one side of the target, the written and the intended positions agree |
| Rows.DropAsWrittenMisplaces | main/main.py:183-189 | with dragged rows on both sides of the target, the written position leaves the item dropped on in front of the block |
| Rows.DropExampleMisplaced | main/main.py:183-189 | six items, rows 0 and 5 dropped on row 3: the dropped-on item ends at row 2, before the block at row 3 |
| Rows.DropExampleOverruns | main/main.py:183-192 | rows 0, 1, 2 and 5 of six dropped on row 4: `insert_at` is 4 but only 2 items remain |
| Rows.SpliceNext | main/main.py:513-518 | renaming item i of a half-renamed list renames one more item |
| Files.Renamed | main/main.py:425 | after `os.rename(src, dst)` the file is under dst, src is free, and every other name is untouched |
| Files.Folder.Rename | main/main.py:424-429 | `os.rename` succeeds exactly when the source exists, is not held open, and the destination is free or is the source; on failure the folder is unchanged |
| Files.Folder.RenameEach | main/main.py:419-438 | a loop of renames that ends at the first failure leaves the folder and the count the run function gives |
| Files.Folder.ListDir | main/main.py:390 | `os.listdir` lists every name of the folder exactly once |
| Files.RunFirst | main/main.py:418-429 | a run never reports more steps done than it was given |
| Files.RunStopped | main/main.py:427-429 | once a rename has failed, later steps change nothing |
| Files.RunFailedStep | main/main.py:427-429 | the step a run stopped at could not be carried out on the folder it met |
| Files.RunZero | main/main.py:418-419 | no steps leave the folder as it was |
| Files.RunLastStep | main/main.py:419-426 | a run that carried out k steps carried out the first k-1 and then step k-1 |
| Files.RunPrefix | main/main.py:419-426 | the first m steps do not depend on later steps |
| Files.RunStopsAt | main/main.py:427-429 | a run whose step k fails ends where the first k steps left it |
| Files.RunNextStep | main/main.py:419-426 | a run that can carry out step k carries out k + 1 steps |
| Files.RunStepTo | main/main.py:419-426 | the same step, counted from j to k = j + 1 |
| Files.TmpNames | main/main.py:423 | entry i's temporary name is `__TMP_RENAME_{i}{ext_i}` |
| Files.SeqNames | main/main.py:433 | entry i's final name is `{i+1}{ext_i}` |
| Files.Moves | main/main.py:419-426 | one rename per position, from the old to the new name |
| Files.MovesDsts | main/main.py:554-556 | the destinations of the renames are the new names |
| Files.DigitsExtSplit | main/main.py:433 | a digit string followed by an extension splits back uniquely |
| Files.DecimalInjective | main/main.py:433 | different numbers print differently |
| Files.TmpNameInjective | main/main.py:423 | two temporary names are equal only for the same position and extension |
| Files.SeqNameInjective | main/main.py:433 | two final names are equal only for the same index and extension |
| Files.TmpNamesDistinct | main/main.py:423 | the temporary names are pairwise distinct |
| Files.SeqNamesDistinct | main/main.py:433 | the final names are pairwise distinct |
| Files.SeqNameNotTmp | main/main.py:423-433 | a final name never looks like a temporary one |
| Files.TmpNameIsTmp | main/main.py:423 | each temporary name starts with `__TMP_RENAME_` |
| Files.TmpSet | main/main.py:423 | the set of temporary names holds every one of them, and only temporary names |
| Files.NamesFresh | main/main.py:423-433 | distinct list names with no temporary name among them give distinct temporary and final names, and no final name is temporary |
| Files.TmpStepFacts | main/main.py:419-426 | the name about to move and its temporary name are new among those moved so far |
| Files.TmpStepHeld | main/main.py:425 | after the next phase-1 rename, every moved file sits under its temporary name and its old name is free |
| Files.TmpStepRest | main/main.py:425 | the next phase-1 rename leaves every other name as it was and adds no unexpected temporary name |
| Files.TmpStep | main/main.py:419-426 | one phase-1 rename extends the phase-1 state by one entry |
| Files.TmpStart | main/main.py:418 | before phase 1 the folder is in the phase-1 state for zero entries |
| Files.Phase1Progress | main/main.py:419-426 | k renames of phase 1 without a failure leave the first k files under their temporary names and nothing else changed |
| Files.SeqStart | main/main.py:432 | a completed phase 1 is the phase-2 state for zero entries |
| Files.SeqStepFacts | main/main.py:432-435 | the final name about to be taken is new among those taken so far |
| Files.SeqStepHeld | main/main.py:435 | after the next phase-2 rename, each renamed file is under its final name and the rest are still under their temporary ones |
| Files.SeqStepOthers | main/main.py:435 | the next phase-2 rename leaves every unrelated name as it was |
| Files.SeqStepFreed | main/main.py:435 | old names that are not final names stay free |
| Files.SeqStepTmps | main/main.py:435 | only the temporary names not yet renamed remain |
| Files.SeqStep | main/main.py:432-435 | one phase-2 rename extends the phase-2 state by one entry |
| Files.TmpNextOk | main/main.py:425 | on a safe folder the next phase-1 rename succeeds |
| Files.SeqNextOk | main/main.py:435 | on a safe folder the next phase-2 rename succeeds |
| Files.Phase1Completes | main/main.py:419-426 | on a safe folder phase 1 carries out every rename |
| Files.Phase2Step | main/main.py:432-435 | on a safe folder one more phase-2 rename succeeds and keeps the phase-2 state |
| Files.Phase2Begin | main/main.py:419-432 | phase 1 runs to the end and leaves the phase-2 starting state |
| Files.Phase2Run | main/main.py:432-438 | on a safe folder phase 2 carries out k renames and reaches the phase-2 state for k |
| Files.TwoPhaseRenames | main/main.py:417-438 | on a safe folder both phases complete. The file at position i ends as `{i+1}{ext_i}`, no other listed name and no temporary name is left, and every other file is untouched |
| Files.Phase1FailureLeavesTmp | main/main.py:424-429 | when phase 1 stops, the files renamed so far stay under their temporary names and their old names are free |
| Files.RenameIdempotent | main/main.py:490-520 | a list already named `1.ext, 2.ext, …` in order gets the same names back |
| Template.NameInjective | main/main.py:549 | two counters give the same name only when they are equal |
| Template.NameMatches | main/main.py:535-549 | a generated name with a counter below 1,000,000 and a 3-4 letter extension matches the pattern, and its counter reads back |
| Template.WideCounterNoMatch | main/main.py:535-549 | from 1,000,000 on, a generated name no longer matches the pattern |
| Template.MaxMatchIsMax | main/main.py:534-540 | `max_counter` is at least every matching counter and is 0 or one of them |
| Template.MaxUpToIsMax | main/main.py:536-540 | the same over the first n names |
| Template.MaxCounter | main/main.py:534-540 | the scan over the list names computes `max_counter` |
| Template.AheadShrinks | main/main.py:550-552 | each step of the `while` loop leaves fewer used names ahead, so the loop ends |
| Template.NextFree | main/main.py:549-552 | the counter chosen is the first one from `counter` on whose name is not in `used_names` |
| Template.Labels | main/main.py:549 | item k of the batch gets `f"{base}_{counters[k]:06d}{ext_k}"` |
| Template.Exts | main/main.py:548 | the extension of each selected name |
| Template.GivenHas | main/main.py:559 | each name given so far is in `used_names` |
| Template.GivenExtend | main/main.py:559 | a later counter leaves the names given earlier as they were |
| Template.GeneratedIncreasing | main/main.py:542-561 | the counters of a batch start at `max_counter + 1` or later and strictly increase in row order |
| Template.IncreasingUpTo | main/main.py:542-561 | the same for the first n counters |
| Template.Batch | main/main.py:542-561 | the loop gives one counter per selected item, each the first free one from where the last left off |
| Template.BatchStep | main/main.py:546-561 | the loop's next counter extends the batch by one fresh name |
| Template.GeneratedFresh | main/main.py:543-561 | every generated name is absent from the list names and from the names generated before it |
| Template.FreshUpTo | main/main.py:543-561 | the same for the first n names |
| Template.FirstRunEnd | main/main.py:570-577 | with no matching name `insert_at` stays 0. Otherwise it is the end of the first run of matching names |
| Template.FirstAbove | main/main.py:578-585 | the first row whose key is above the sample's, or the end of the list |
| Template.InsertionPoint | main/main.py:570-585 | the row lies within the list: after the first run of matching names, or, with none, before the first name above the sample |
| Template.FirstAboveKeepsSorted | main/main.py:578-585 | inserting at that row keeps a list sorted by `natural_key` sorted |
| Template.InsertedAt | main/main.py:587-588 | where each item of a list with one insertion comes from |
| Template.SampleBelowLater | main/main.py:581 | in a sorted list, no name at or after the found row is below the sample |
| Search.ScanIndex | main/main.py:633 | `(start ± offset) % total` is a row of the list, with Python's floor modulo |
| Search.FirstHit | main/main.py:621-640 | the first offset whose row contains the query, or total + 1; no earlier offset hits |
| Search.Scan | main/main.py:621-640 | the loop reports a hit exactly when some offset in 1..total hits, and then the row of the first one |
| Search.ModUnique | main/main.py:633 | the remainder of Euclidean division is unique |
| Search.MulAtLeast | main/main.py:633 | a positive multiple of total is at least total |
| Search.ScanCovers | main/main.py:621-633 | one full turn of offsets reaches every row |
| Search.NoHitMeansNoMatch | main/main.py:621-640 | a scan that finds nothing has found that no name contains the query |
| Search.MatchIsFound | main/main.py:621-640 | if some name contains the query, the scan finds a row |
| Search.UniqueMatchRefound | main/main.py:632-635 | starting from the only matching row, the scan goes all the way round and finds that row again |
| Organizer.ListWidget.constructor | main/main.py:80-81 | the list starts empty with nothing selected |
| Organizer.ListWidget.SetText | main/main.py:557 | `setText` changes the name at one row and nothing else |
| Organizer.ListWidget.TakeRows | main/main.py:185-187 | taking the rows highest first removes exactly them, returns their items in row order, and clears the selection |
| Organizer.ListWidget.InsertRows | main/main.py:188-189 | inserting item i at `at + i` puts the block in at `at`, clamped to the end |
| Organizer.ListWidget.Drop | main/main.py:168-193 | an empty drag or a drop on a dragged row changes nothing. Otherwise the dragged items go back as one block in row order at `insert_at`, the others keep their order, the result is a permutation, the block is selected, and `raised` reports a selection loop run past the end |
| Organizer.ListWidget.SelectRows | main/main.py:190-192 | the rows from `at` are selected, up to the end of the list, and `raised` says the loop ran past it |
| Organizer.ImageOrganizer.constructor | main/main.py:197-208 | both cursors are unset and the list is empty, or loaded from the remembered folder |
| Organizer.ImageOrganizer.LoadFolderContents | main/main.py:382-400 | with a folder open, the list shows exactly the folder's image files, each once, in `natural_key` order; with none, nothing changes |
| Organizer.ImageOrganizer.OpenFolder | main/main.py:373-380 | a cancelled dialog changes nothing; a chosen folder is loaded |
| Organizer.ImageOrganizer.SelectedRows | main/main.py:533 | the sorted selected rows are the selection, within the list |
| Organizer.ImageOrganizer.NothingSelected | main/main.py:466-467 | with nothing selected nothing is taken out |
| Organizer.ImageOrganizer.MoveToTop | main/main.py:465-475 | the selected items in row order, then the others in their order. It is a permutation and the moved items are selected; an empty selection changes nothing |
| Organizer.ImageOrganizer.MoveToBottom | main/main.py:477-488 | the unselected items in their order, then the selected ones in row order. It is a permutation and the moved items are selected |
| Organizer.ImageOrganizer.ReloadFolder | main/main.py:402-441 | no folder, an empty list or a No changes nothing. A failed rename stops it with no undo and no re-scan. Otherwise the folder is re-scanned; on a safe folder the run completes |
| Organizer.ImageOrganizer.RenameOrdered | main/main.py:490-520 | a phase-1 failure leaves the list as it was. Otherwise the first `done` items carry their final names and the list order is kept; on a safe folder every item becomes `{i+1}{ext_i}` |
| Organizer.ImageOrganizer.RenameRelabel | main/main.py:511-518 | phase 2 renames in turn and gives each item its new name as its rename succeeds |
| Organizer.ImageOrganizer.RenameSelected | main/main.py:522-594 | with no selection, a cancelled dialog or a blank base, nothing changes. Otherwise counting starts at `max_counter + 1` and the outcome is as RenameSelectedDone describes |
| Organizer.ImageOrganizer.RenameAndPlace | main/main.py:533-589 | the batch is the loop's batch of fresh counters and the rows are renamed and placed as RenameSelectedDone describes |
| Organizer.ImageOrganizer.RenameAndMove | main/main.py:546-589 | the renames run in row order until one fails. After a failure the list keeps its order with the earlier items renamed; otherwise the block moves to the insertion point and is selected |
| Organizer.ImageOrganizer.RenameRows | main/main.py:546-564 | each selected item is renamed on disk and in the list until the first failure |
| Organizer.ImageOrganizer.PlaceRenamed | main/main.py:566-589 | the renamed items leave their rows and return as one selected block, after the first run of pattern names or before the first name above the first new one |
| Organizer.ImageOrganizer.ResetSearchIndex | main/main.py:349-351 | only the given bar's cursor becomes -1 |
| Organizer.ImageOrganizer.SetQuery | main/main.py:261-279 | a bar's text changes to the new text; when it differs from the old text, textChanged resets that bar's cursor to -1 and leaves the other bar's alone |
| Organizer.ImageOrganizer.SearchImage | main/main.py:596-640 | the query is the bar's current text. A blank query, an empty list or no match changes nothing. Otherwise the first match in scan order from the seeded cursor becomes the only selection and this bar's cursor |

## Left out

- Qt widget construction, layout, styling, scrolling, `setUpdatesEnabled`, message boxes: not logic. Dialog answers are method arguments instead.
- Thumbnails, `get_thumbnail_icon`, `thumbnail_cache`, the preview pane and the preview lock: their results depend on image decoding by Qt.
- The double-click handlers (main/main.py:353-371): putting a name into a search bar is `SetQuery` with that text, which also resets the bar's cursor. Computing the name without its extension, and the preview lock, are not modelled.
- `save_last_folder` and `load_last_folder`: settings-file I/O. The constructor takes whether a folder was remembered as an argument.
- `SmartLineEdit`: click handlers over the system clipboard.
- The MIME encoding of the drag rows and their `eval` in `dropEvent`: the drag rows arrive as the sorted, duplicate-free list that `startDrag` encodes. A drop without that MIME format is left to Qt's default handler and is not modelled.
- Full Unicode `lower()`, `isdigit()` and `isspace()`: names are ASCII, and so is `IGNORECASE` in the pattern.
- `os.rename` overwriting an existing destination, as on POSIX: the folder fails a rename onto a name held by another file, as Windows does. Files opened by other programs are the `locked` set, and are the other way a rename fails.
- Organizer.ListWidget.TakeRows: clears the selection as a simplification. Every caller clears or sets the selection right afterwards, so the selection between the two calls is not modelled.
- Organizer.ListWidget.SelectRows: the selection order `selectedItems()` reports after a call is taken to be row order.
- Organizer.ImageOrganizer.RenameOrdered: a failed rename raises an exception that nothing catches (main/main.py:508, 515). Python prints the traceback, and under PyQt5 5.5 and later the application then aborts. The model returns `Stopped` instead. The folder it describes after `Stopped` is what the disk holds, but the list state it describes is never shown by the running program.
- Organizer.ImageOrganizer.RenameSelected: the counters are an extra out-parameter, and so is `start` (`max_counter + 1`). The source keeps both as local variables. All the counters are computed before any rename, which gives the same names as the source's interleaved loop, because a rename only adds a name the batch already avoids.
- Organizer.ImageOrganizer.SearchImage: the Qt scroll to the found item is not modelled.
- `used_names` holds only list names (main/main.py:543). A file on disk that is not in the list and already has a generated name is not avoided. Its rename then fails, which is the `Failed` outcome.

## Findings

| source | as written | input that shows it | evidently intended | confidence | as-written member | corrected member |
|---|---|---|---|---|---|---|
| main/main.py:183 | `insert_at = target_row if target_row <= max(drag_rows) else target_row - len(drag_rows)` counts only the all-below and all-above cases. With dragged rows on both sides of the target, the block lands too far down. | Six items, rows 0 and 5 dragged onto row 3. `insert_at` is 3, so the dropped-on item ends at row 2, in front of the block. Rows 0, 1, 2 and 5 onto row 4 give `insert_at` 4 with 2 items left, so the selection loop runs past the end. | `target_row - (number of dragged rows above target_row)`, which puts the block directly in front of the item dropped on | not executed | Rows.DropAsWrittenMisplaces | Rows.IntendedDropBeforeTarget |

