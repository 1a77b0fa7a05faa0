/** The list widget and the main window of the organizer (main/main.py):
    dropping dragged rows, moving the selection to the top or the bottom,
    renaming every image to 1, 2, 3, ..., renaming the selection to
    base_NNNNNN.ext, and the two search bars. An item is its text, the file
    name; its path is always the open folder joined with that name. */
module Organizer {
  import opened Strings
  import opened Natural
  import opened Rows
  import opened Files
  import opened Template
  import opened Search

  /** DragDropListWidget: the item texts in row order, and the selected rows
      in the order selectedItems() reports them */
  class ListWidget {
    var items: seq<string>
    var selection: seq<nat>

    /** Qt's own invariant: selected rows exist, each selected once */
    predicate Valid()
      reads this
    {
      (forall i :: 0 <= i < |selection| ==> selection[i] < |items|) &&
      (forall i, j :: 0 <= i < j < |selection| ==> selection[i] != selection[j])
    }

    constructor ()
      ensures items == [] && selection == [] && Valid()
    {
      items := [];
      selection := [];
    }

    /** item.setText: the item at row gets a new name, the selection stays */
    method SetText(row: nat, name: string)
      requires Valid() && row < |items|
      modifies this
      ensures items == old(items)[row := name] && selection == old(selection) && Valid()
    {
      items := items[row := name];
    }

    /** takeItem(r) for the given rows, highest row first, collecting the
        items in row order. Every caller takes all selected rows or clears
        the selection next, so no selected row is left. */
    method TakeRows(rows: seq<nat>) returns (taken: seq<string>)
      requires Ascending(rows) && RowsBelow(rows, |items|)
      modifies this
      ensures items == Keep(old(items), RowSet(rows), false)
      ensures taken == Keep(old(items), RowSet(rows), true) && taken == Pick(old(items), rows)
      ensures selection == []
    {
      ghost var s := items;
      taken := [];
      var k := |rows|;
      KeepNothing(s);
      assert RowSet(rows[k..]) == {};
      while k > 0
        invariant k <= |rows|
        invariant items == Keep(s, RowSet(rows[k..]), false)
        invariant taken == Keep(s, RowSet(rows[k..]), true)
      {
        k := k - 1;
        var r := rows[k];
        TakeStep(s, rows, k);
        var item := items[r];
        items := items[..r] + items[r + 1..];
        taken := [item] + taken;
      }
      assert rows[0..] == rows;
      KeepSelectedInOrder(s, rows);
      selection := [];
    }

    /** insertItem(at + i, block[i]) for each i in turn */
    method InsertRows(at: nat, block: seq<string>)
      requires selection == []
      modifies this
      ensures items == InsertBlock(old(items), at, block) && selection == []
    {
      ghost var w := items;
      assert InsertBlock(w, at, []) == w by {
        var p := if at <= |w| then at else |w|;
        assert w[..p] + w[p..] == w;
      }
      for i := 0 to |block|
        invariant items == InsertBlock(w, at, block[..i]) && selection == []
      {
        InsertBlockStep(w, at, block[..i], block[i]);
        assert block[..i + 1] == block[..i] + [block[i]];
        items := InsertAt(items, at + i, block[i]);
      }
      assert block[..|block|] == block;
    }

    /** dropEvent with the rows that startDrag put in the drag (sorted, each
        once) dropped on row target, or past the last item when target is the
        item count. An empty drag or a drop on a dragged row changes nothing.
        Otherwise the dragged items go back as one block at insert_at, the
        block's rows are selected, and `raised` says that the selection loop
        asked for a row past the end (item() gives None there and the call
        on it raises). */
    method Drop(dragRows: seq<nat>, target: nat) returns (raised: bool)
      requires Valid() && Ascending(dragRows) && RowsBelow(dragRows, |items|) && target <= |items|
      modifies this
      ensures Valid()
      ensures dragRows == [] || target in dragRows ==>
        items == old(items) && selection == old(selection) && !raised
      ensures dragRows != [] && target !in dragRows ==>
        var at := DropInsertAt(dragRows, target);
        var R := RowSet(dragRows);
        at <= |items| &&
        items == InsertBlock(Keep(old(items), R, false), at, Keep(old(items), R, true)) &&
        multiset(items) == multiset(old(items)) &&
        raised == (at + |dragRows| > |items|) &&
        selection == Span(at, if raised then |items| else at + |dragRows|)
    {
      if dragRows == [] || target in dragRows {
        return false;
      }
      var at := DropInsertAt(dragRows, target);
      ghost var s := items;
      var taken := TakeRows(dragRows);
      InsertRows(at, taken);
      MoveBlockPermutation(s, RowSet(dragRows), at);
      raised := SelectRows(at, |taken|);
    }

    /** clearSelection(), then item(at + i).setSelected(True) for i below n;
        raised when a row past the end is asked for, with the rows before it
        already selected */
    method SelectRows(at: nat, n: nat) returns (raised: bool)
      requires at <= |items|
      modifies this
      ensures items == old(items)
      ensures raised == (at + n > |items|)
      ensures selection == Span(at, if raised then |items| else at + n)
    {
      selection := [];
      raised := false;
      for i := 0 to n
        invariant items == old(items) && at + i <= |items| && selection == Span(at, at + i)
      {
        if at + i >= |items| {
          raised := true;
          return;
        }
        selection := selection + [at + i];
      }
    }
  }

  /** how a rename of every image ended: not started (no folder, an empty
      list, or the user said No), stopped by the rename of the given 0-based
      position in phase 1 (temporary names) or phase 2 (final names), or
      completed */
  datatype RenameAll = NotRun | Stopped(phase: nat, at: nat) | Completed

  /** how rename_selected ended: nothing done (no selection, the dialog
      cancelled, or a blank base name), stopped by the failed rename of the
      given selected item (0-based, in row order), or every selected item
      renamed and the block placed at the given row */
  datatype RenameSelected = Unchanged | Failed(at: nat) | Placed(at: nat)

  /** what rename_selected leaves behind, given a base name and a
      selection: s and sel are the list and its selection before, from the
      first counter to try, f0 the folder before. The batch of counters is
      the one the loop picks (Generated); the renames are carried out in row
      order until one fails. A failed rename leaves the earlier items renamed
      in place and the selection as it was; otherwise the renamed items move,
      as one block in row order, after the first run of names of the
      pattern, or, when no name has it, before the first name that sorts
      after the first new name, and the block is selected. */
  ghost predicate RenameSelectedDone(s: seq<string>, sel: seq<nat>, base: string, from: nat,
                                     f0: map<string, FileId>, locked: set<FileId>, counters: seq<nat>,
                                     r: RenameSelected, items: seq<string>, selection: seq<nat>,
                                     files: map<string, FileId>)
  {
    var rows := SortedRows(RowSet(sel), |s|);
    var exts := Exts(Pick(s, rows));
    |counters| == |rows| && Generated(ToSet(s), base, exts, from, counters) &&
    RowsRenamed(s, sel, rows, base, Labels(base, counters, exts), f0, locked, r, items, selection, files)
  }

  /** the second half of RenameSelectedDone: the items at the given rows
      (in row order) are renamed to the given names, until a rename fails,
      and then either left in place or moved as one selected block */
  ghost predicate RowsRenamed(s: seq<string>, sel: seq<nat>, rows: seq<nat>, base: string, names: seq<string>,
                              f0: map<string, FileId>, locked: set<FileId>,
                              r: RenameSelected, items: seq<string>, selection: seq<nat>,
                              files: map<string, FileId>)
    requires RowsBelow(rows, |s|) && |names| == |rows|
  {
    var run := RunFirst(f0, locked, Moves(Pick(s, rows), names), |rows|);
    files == run.files &&
    if run.done < |rows| then
      r == Failed(run.done) && items == Relabel(s, rows, names, run.done) && selection == sel
    else
      var w := Keep(s, RowSet(rows), false);
      rows != [] && r.Placed? && r.at <= |w| &&
      items == w[..r.at] + names + w[r.at..] &&
      selection == Span(r.at, r.at + |rows|) &&
      if NoneMatch(w, base) then Above(w, names[0], r.at) else RunEnd(w, base, r.at)
  }

  /** where search_image starts: the stored cursor, or when it is unset
      (-1) the first selected row, or else -1 forwards and 0 backwards */
  function SearchStart(last: int, selection: seq<nat>, prev: bool): int
  {
    if last != -1 then last
    else if selection != [] then selection[0]
    else if prev then 0 else -1
  }

  /** ImageOrganizer: the list widget, the folder on disk, whether a folder
      is open, and the text and the cursor of each search bar */
  class ImageOrganizer {
    const list: ListWidget
    const fs: Folder
    var hasFolder: bool
    var queries: map<int, string>
    var lastSearchIndex: map<int, int>

    /** __init__: no folder yet, an empty list, both cursors unset; when the
        settings file names a folder that still exists it is opened */
    constructor (disk: Folder, remembered: bool)
      ensures fs == disk && fresh(list) && list.Valid()
      ensures lastSearchIndex == map[1 := -1, 2 := -1] && hasFolder == remembered
      ensures queries == map[1 := "", 2 := ""]
      ensures !remembered ==> list.items == [] && list.selection == []
      ensures remembered ==> LoadedFrom(list.items, fs.files) && list.selection == []
    {
      list := new ListWidget();
      fs := disk;
      hasFolder := remembered;
      queries := map[1 := "", 2 := ""];
      lastSearchIndex := map[1 := -1, 2 := -1];
      new;
      LoadFolderContents();
    }

    /** the list shows each image file of the folder once, in natural_key order */
    ghost predicate LoadedFrom(items: seq<string>, files: map<string, FileId>)
    {
      SortedByKey(items) &&
      forall n :: multiset(items)[n] == if n in files && IsSupported(n) then 1 else 0
    }

    /** load_folder_contents: with a folder open, the list becomes the
        folder's image files sorted by natural_key, and nothing is selected */
    method LoadFolderContents()
      requires list.Valid()
      modifies list
      ensures list.Valid()
      ensures !hasFolder ==> list.items == old(list.items) && list.selection == old(list.selection)
      ensures hasFolder ==> LoadedFrom(list.items, fs.files) && list.selection == []
    {
      if !hasFolder {
        return;
      }
      var listing := fs.ListDir();
      list.items := ImageFiles(listing);
      list.selection := [];
    }

    /** open_folder, `chosen` being whether the dialog returned a folder */
    method OpenFolder(chosen: bool)
      requires list.Valid()
      modifies this, list
      ensures list.Valid() && lastSearchIndex == old(lastSearchIndex) && queries == old(queries)
      ensures !chosen ==> hasFolder == old(hasFolder) && list.items == old(list.items) && list.selection == old(list.selection)
      ensures chosen ==> hasFolder && LoadedFrom(list.items, fs.files) && list.selection == []
    {
      if !chosen {
        return;
      }
      hasFolder := true;
      LoadFolderContents();
    }

    /** the selected rows of the list, sorted: with Qt's invariant these are
        exactly the selected rows */
    lemma SelectedRows(items: seq<string>, selection: seq<nat>)
      requires (forall i :: 0 <= i < |selection| ==> selection[i] < |items|)
      ensures var rows := SortedRows(RowSet(selection), |items|);
        RowsBelow(rows, |items|) && RowSet(rows) == RowSet(selection) && (rows == [] <==> selection == [])
    {
      var rows := SortedRows(RowSet(selection), |items|);
      assert forall i :: 0 <= i < |rows| ==> rows[i] in rows;
      forall x ensures x in RowSet(rows) <==> x in RowSet(selection) {
        if x in RowSet(selection) {
          var i :| 0 <= i < |selection| && selection[i] == x;
        }
      }
      if selection != [] {
        assert selection[0] in RowSet(selection);
        assert selection[0] in rows;
      }
      if rows != [] {
        assert rows[0] in RowSet(rows);
      }
    }

    lemma NothingSelected(s: seq<string>, selection: seq<nat>)
      requires selection == []
      ensures Keep(s, RowSet(selection), true) == [] && Keep(s, RowSet(selection), false) == s
      ensures Span(0, 0) == selection && Span(|s|, |s|) == selection
    {
      assert RowSet(selection) == {};
      KeepNothing(s);
    }

    /** move_to_top: the selected items, in row order, followed by the others
        in their order; the moved items end up selected */
    method MoveToTop()
      requires list.Valid()
      modifies list
      ensures list.Valid()
      ensures var s, R := old(list.items), RowSet(old(list.selection));
        list.items == Keep(s, R, true) + Keep(s, R, false) &&
        multiset(list.items) == multiset(s) &&
        list.selection == Span(0, |Keep(s, R, true)|)
    {
      ghost var s := list.items;
      var rows := SortedRows(RowSet(list.selection), |list.items|);
      SelectedRows(list.items, list.selection);
      if rows == [] {
        NothingSelected(s, list.selection);
        return;
      }
      var taken := list.TakeRows(rows);
      ghost var w := list.items;
      list.InsertRows(0, taken);
      assert w[..0] == [] && w[0..] == w;
      assert list.items == taken + w;
      KeepPermutation(s, RowSet(rows));
      list.selection := Span(0, |taken|);
    }

    /** move_to_bottom: the unselected items in their order, followed by the
        selected ones in row order; the moved items end up selected */
    method MoveToBottom()
      requires list.Valid()
      modifies list
      ensures list.Valid()
      ensures var s, R := old(list.items), RowSet(old(list.selection));
        list.items == Keep(s, R, false) + Keep(s, R, true) &&
        multiset(list.items) == multiset(s) &&
        list.selection == Span(|Keep(s, R, false)|, |s|)
    {
      ghost var s := list.items;
      var rows := SortedRows(RowSet(list.selection), |list.items|);
      SelectedRows(list.items, list.selection);
      if rows == [] {
        NothingSelected(s, list.selection);
        return;
      }
      var taken := list.TakeRows(rows);
      ghost var w := list.items;
      var base := |list.items|;
      list.InsertRows(base, taken);
      assert w[..|w|] == w && w[|w|..] == [];
      assert list.items == w + taken;
      KeepLength(s, rows);
      KeepPermutation(s, RowSet(rows));
      list.selection := Span(base, base + |taken|);
    }

    /** the steps of reload_folder before the re-scan: phase 1 renames each
        listed file to __TMP_RENAME_{i}{ext}, phase 2 each temporary name to
        {i+1}{ext}; the first failing rename ends the method, with no undo and
        no re-scan. After both phases the list is loaded from the folder
        again. */
    method ReloadFolder(confirmed: bool) returns (r: RenameAll)
      requires list.Valid()
      modifies list, fs
      ensures list.Valid()
      ensures var names, f0 := old(list.items), old(fs.files);
        var p1 := RunFirst(f0, fs.locked, Moves(names, TmpNames(names)), |names|);
        var p2 := RunFirst(p1.files, fs.locked, Moves(TmpNames(names), SeqNames(names)), |names|);
        if !hasFolder || names == [] || !confirmed then
          r == NotRun && fs.files == f0 && list.items == names && list.selection == old(list.selection)
        else if p1.done < |names| then
          r == Stopped(1, p1.done) && fs.files == p1.files && list.items == names && list.selection == old(list.selection)
        else if p2.done < |names| then
          r == Stopped(2, p2.done) && fs.files == p2.files && list.items == names && list.selection == old(list.selection)
        else
          r == Completed && fs.files == p2.files && LoadedFrom(list.items, fs.files) && list.selection == []
      ensures hasFolder && old(list.items) != [] && confirmed && SafeToRename(old(fs.files), fs.locked, old(list.items)) ==>
        r == Completed
    {
      if !hasFolder || list.items == [] || !confirmed {
        return NotRun;
      }
      var names := list.items;
      ghost var f0 := fs.files;
      if SafeToRename(f0, fs.locked, names) {
        TwoPhaseRenames(f0, fs.locked, names);
      }
      var tmps := TmpNames(names);
      var done := fs.RenameEach(Moves(names, tmps));
      if done < |names| {
        return Stopped(1, done);
      }
      done := fs.RenameEach(Moves(tmps, SeqNames(names)));
      if done < |names| {
        return Stopped(2, done);
      }
      LoadFolderContents();
      return Completed;
    }

    /** rename_ordered: the same two phases, except that a failed rename in
        phase 1 is not caught (the exception leaves the method), and each
        phase 2 rename also gives the item its new name; the list keeps its
        order */
    method RenameOrdered(confirmed: bool) returns (r: RenameAll)
      requires list.Valid()
      modifies list, fs
      ensures list.Valid() && list.selection == old(list.selection)
      ensures var names, f0 := old(list.items), old(fs.files);
        var p1 := RunFirst(f0, fs.locked, Moves(names, TmpNames(names)), |names|);
        var p2 := RunFirst(p1.files, fs.locked, Moves(TmpNames(names), SeqNames(names)), |names|);
        if !hasFolder || names == [] || !confirmed then
          r == NotRun && fs.files == f0 && list.items == names
        else if p1.done < |names| then
          r == Stopped(1, p1.done) && fs.files == p1.files && list.items == names
        else
          fs.files == p2.files && list.items == SeqNames(names)[..p2.done] + names[p2.done..] &&
          r == if p2.done < |names| then Stopped(2, p2.done) else Completed
      ensures hasFolder && old(list.items) != [] && confirmed && SafeToRename(old(fs.files), fs.locked, old(list.items)) ==>
        r == Completed && list.items == SeqNames(old(list.items))
    {
      if !hasFolder || list.items == [] || !confirmed {
        return NotRun;
      }
      var names := list.items;
      ghost var f0 := fs.files;
      if SafeToRename(f0, fs.locked, names) {
        TwoPhaseRenames(f0, fs.locked, names);
      }
      var tmps := TmpNames(names);
      var done := fs.RenameEach(Moves(names, tmps));
      if done < |names| {
        return Stopped(1, done);
      }
      var finals := SeqNames(names);
      done := RenameRelabel(Moves(tmps, finals), finals);
      r := if done < |names| then Stopped(2, done) else Completed;
    }

    /** phase 2 of rename_ordered: each rename in turn, the item at that
        position taking the new name as its rename succeeds */
    method RenameRelabel(steps: seq<Step>, finals: seq<string>) returns (done: nat)
      requires list.Valid() && |steps| == |finals| == |list.items|
      requires forall j :: 0 <= j < |steps| ==> steps[j].dst == finals[j]
      modifies list, fs
      ensures list.Valid() && list.selection == old(list.selection)
      ensures done == RunFirst(old(fs.files), fs.locked, steps, |steps|).done
      ensures fs.files == RunFirst(old(fs.files), fs.locked, steps, |steps|).files
      ensures list.items == finals[..done] + old(list.items)[done..]
    {
      ghost var f1, names := fs.files, list.items;
      done := 0;
      while done < |steps|
        invariant done <= |steps| && RunFirst(f1, fs.locked, steps, done).done == done
        invariant fs.files == RunFirst(f1, fs.locked, steps, done).files
        invariant list.items == finals[..done] + names[done..]
        invariant list.selection == old(list.selection)
      {
        var ok := fs.Rename(steps[done].src, steps[done].dst);
        if !ok {
          RunStopsAt(f1, fs.locked, steps, done);
          return;
        }
        RunNextStep(f1, fs.locked, steps, done);
        SpliceNext(finals, names, done);
        list.items := list.items[done := steps[done].dst];
        done := done + 1;
      }
    }

    /** rename_selected: the selected items, in row order, are renamed to
        {base}_{counter:06d}{ext}, counting on from the largest counter of a
        list name that already has that form; the outcome is spelled out by
        RenameSelectedDone. Nothing happens without a selection, when the
        dialog is cancelled, or when the base name is blank. */
    method RenameSelected(input: string, ok: bool) returns (r: RenameSelected, counters: seq<nat>, start: nat)
      requires list.Valid()
      modifies list, fs
      ensures list.Valid()
      ensures var s, sel := old(list.items), old(list.selection);
        sel == [] || !ok || Strip(input) == [] ==>
          r == Unchanged && counters == [] && list.items == s && list.selection == sel && fs.files == old(fs.files)
      ensures var s, sel, base := old(list.items), old(list.selection), Strip(input);
        sel != [] && ok && base != [] ==>
          start == MaxMatch(s, base) + 1 &&
          RenameSelectedDone(s, sel, base, start, old(fs.files), fs.locked,
                             counters, r, list.items, list.selection, fs.files)
    {
      SelectedRows(list.items, list.selection);
      if list.selection == [] || !ok || Strip(input) == [] {
        return Unchanged, [], 0;
      }
      var base := Strip(input);
      var mx := MaxCounter(list.items, base);
      start := mx + 1;
      r, counters := RenameAndPlace(base, start, old(list.items), old(list.selection), old(fs.files));
    }

    /** rename_selected once it has a base name and a selection; s0, sel
        and f0 are the list, the selection and the folder on entry */
    method RenameAndPlace(base: string, from: nat, ghost s0: seq<string>, ghost sel: seq<nat>, ghost f0: map<string, FileId>)
        returns (r: RenameSelected, counters: seq<nat>)
      requires list.Valid() && SortedRows(RowSet(list.selection), |list.items|) != []
      requires s0 == list.items && sel == list.selection && f0 == fs.files
      modifies list, fs
      ensures list.Valid()
      ensures RenameSelectedDone(s0, sel, base, from, f0, fs.locked,
                                 counters, r, list.items, list.selection, fs.files)
    {
      var rows := SortedRows(RowSet(list.selection), |list.items|);
      var exts := Exts(Pick(list.items, rows));
      counters := Batch(ToSet(list.items), base, exts, from);
      r := RenameAndMove(rows, base, Labels(base, counters, exts), s0, sel, f0);
    }

    /** the renames and the move of rename_selected, the new names given */
    method RenameAndMove(rows: seq<nat>, base: string, names: seq<string>,
                         ghost s0: seq<string>, ghost sel: seq<nat>, ghost f0: map<string, FileId>)
        returns (r: RenameSelected)
      requires list.Valid() && rows == SortedRows(RowSet(list.selection), |list.items|) && rows != []
      requires |names| == |rows| && s0 == list.items && sel == list.selection && f0 == fs.files
      modifies list, fs
      ensures list.Valid()
      ensures RowsRenamed(s0, sel, rows, base, names, f0, fs.locked, r, list.items, list.selection, fs.files)
    {
      var s := list.items;
      MovesDsts(Pick(s, rows), names);
      var done := RenameRows(rows, Moves(Pick(s, rows), names));
      if done < |rows| {
        return Failed(done);
      }
      var p := PlaceRenamed(rows, base, s, names);
      r := Placed(p);
    }

    /** the renaming loop of rename_selected, the renames given: the item at
        each selected row in turn is renamed on disk, then in the list; the
        first failed rename ends it */
    method RenameRows(rows: seq<nat>, steps: seq<Step>) returns (done: nat)
      requires list.Valid() && RowsBelow(rows, |list.items|) && |steps| == |rows|
      modifies list, fs
      ensures list.Valid() && list.selection == old(list.selection)
      ensures var run := RunFirst(old(fs.files), fs.locked, steps, |steps|);
        done == run.done && fs.files == run.files && list.items == Relabel(old(list.items), rows, Dsts(steps), done)
    {
      ghost var s, f0 := list.items, fs.files;
      done := 0;
      while done < |rows|
        invariant done <= |rows| && RunFirst(f0, fs.locked, steps, done).done == done
        invariant fs.files == RunFirst(f0, fs.locked, steps, done).files
        invariant list.items == Relabel(s, rows, Dsts(steps), done)
        invariant list.selection == old(list.selection) && list.Valid()
      {
        var ok := fs.Rename(steps[done].src, steps[done].dst);
        if !ok {
          RunStopsAt(f0, fs.locked, steps, done);
          return;
        }
        RunNextStep(f0, fs.locked, steps, done);
        RelabelNext(s, rows, Dsts(steps), done);
        list.SetText(rows[done], steps[done].dst);
        done := done + 1;
      }
    }

    /** the end of rename_selected: the renamed rows are taken out, bottom
        row first, and put back as one block at the insertion point, each
        of them selected */
    method PlaceRenamed(rows: seq<nat>, base: string, ghost s: seq<string>, names: seq<string>) returns (p: nat)
      requires list.Valid() && Ascending(rows) && RowsBelow(rows, |s|) && |names| == |rows| && rows != []
      requires list.items == Relabel(s, rows, names, |rows|)
      modifies list
      ensures var w := Keep(s, RowSet(rows), false);
        p <= |w| && list.items == w[..p] + names + w[p..] &&
        list.selection == Span(p, p + |rows|) && list.Valid() &&
        if NoneMatch(w, base) then Above(w, names[0], p) else RunEnd(w, base, p)
    {
      PickRelabel(s, rows, names);
      KeepRelabel(s, rows, names);
      var taken := list.TakeRows(rows);
      p := InsertionPoint(list.items, base, taken[0]);
      list.InsertRows(p, taken);
      list.selection := Span(p, p + |taken|);
    }

    /** reset_search_index: only this bar's cursor becomes unset */
    method ResetSearchIndex(bar: int)
      modifies this
      ensures lastSearchIndex == old(lastSearchIndex)[bar := -1]
      ensures hasFolder == old(hasFolder) && queries == old(queries)
    {
      lastSearchIndex := lastSearchIndex[bar := -1];
    }

    /** the text of a search bar changes, by typing, by a click of the
        search field or by a double click on an image: the bar gets the new
        text, and textChanged, which fires only when the text differs,
        resets that bar's cursor */
    method SetQuery(bar: int, text: string)
      requires bar in queries
      modifies this
      ensures queries == old(queries)[bar := text] && hasFolder == old(hasFolder)
      ensures lastSearchIndex == if text == old(queries)[bar] then old(lastSearchIndex) else old(lastSearchIndex)[bar := -1]
    {
      var changed := text != queries[bar];
      queries := queries[bar := text];
      if changed {
        ResetSearchIndex(bar);
      }
    }

    /** search_image: a blank query, an empty list or no match changes
        nothing; otherwise the first match in scan order becomes the only
        selected row and this bar's cursor */
    method SearchImage(bar: int, prev: bool)
      requires bar in lastSearchIndex && bar in queries && list.Valid()
      modifies this, list
      ensures list.Valid() && list.items == old(list.items) && hasFolder == old(hasFolder) && queries == old(queries)
      ensures var q, names := LowerStr(Strip(old(queries)[bar])), old(list.items);
        var start := SearchStart(old(lastSearchIndex)[bar], old(list.selection), prev);
        if q == [] || names == [] || FirstHit(names, q, start, prev, 1) > |names| then
          list.selection == old(list.selection) && lastSearchIndex == old(lastSearchIndex)
        else
          var idx := ScanIndex(start, FirstHit(names, q, start, prev, 1), |names|, prev);
          list.selection == [idx] && lastSearchIndex == old(lastSearchIndex)[bar := idx]
    {
      var q := LowerStr(Strip(queries[bar]));
      if q == [] {
        return;
      }
      var total := |list.items|;
      if total == 0 {
        return;
      }
      var start := lastSearchIndex[bar];
      if start == -1 {
        if list.selection != [] {
          start := list.selection[0];
        } else {
          start := if prev then 0 else -1;
        }
      }
      var found, idx := Scan(list.items, q, start, prev);
      if found {
        list.selection := [idx];
        lastSearchIndex := lastSearchIndex[bar := idx];
      }
    }
  }
}
