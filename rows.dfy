/** Moving a set of rows of the list as one block: which items are taken out,
    which stay, where the block goes back in, and the drop position that
    DragDropListWidget.dropEvent computes (main/main.py:176-189). */
module Rows {

  /** every row number is a row of a list of n items */
  predicate RowsBelow(rows: seq<nat>, n: nat)
  {
    forall i :: 0 <= i < |rows| ==> rows[i] < n
  }

  /** the items at the given rows, in the order the rows are given */
  function Pick<T>(s: seq<T>, rows: seq<nat>): (r: seq<T>)
    requires RowsBelow(rows, |s|)
    ensures |r| == |rows| && forall k :: 0 <= k < |rows| ==> r[k] == s[rows[k]]
  {
    seq(|rows|, k requires 0 <= k < |rows| => s[rows[k]])
  }

  /** the rows a sequence of row numbers mentions */
  function RowSet(rows: seq<nat>): set<nat> { set r | r in rows }

  /** strictly increasing, as sorted(set(...)) of row numbers is */
  predicate Ascending(rows: seq<nat>)
  {
    forall i, j :: 0 <= i < j < |rows| ==> rows[i] < rows[j]
  }

  /** sorted(rows) for the selected rows below n: the members of sel that are
      rows of the list, in increasing order */
  function SortedRows(sel: set<nat>, n: nat): (rows: seq<nat>)
    ensures Ascending(rows) && RowsBelow(rows, n)
    ensures forall r :: r in rows <==> r in sel && r < n
  {
    if n == 0 then []
    else
      var prev := SortedRows(sel, n - 1);
      if n - 1 in sel then
        assert forall i :: 0 <= i < |prev| ==> prev[i] in prev;
        prev + [n - 1]
      else prev
  }

  /** the elements of s whose row is in R (inRows) or is not (!inRows), in list order */
  function Keep<T>(s: seq<T>, R: set<nat>, inRows: bool): (r: seq<T>)
    ensures |r| <= |s|
  {
    if s == [] then []
    else Keep(s[..|s| - 1], R, inRows) + (if (|s| - 1 in R) == inRows then [s[|s| - 1]] else [])
  }

  /** the rows taken out and the rows left are, together, the whole list */
  lemma {:induction false} KeepPermutation<T>(s: seq<T>, R: set<nat>)
    ensures multiset(Keep(s, R, true)) + multiset(Keep(s, R, false)) == multiset(s)
  {
    if s != [] {
      KeepPermutation(s[..|s| - 1], R);
      assert s == s[..|s| - 1] + [s[|s| - 1]];
    }
  }

  lemma {:induction false} KeepBeyond<T>(s: seq<T>, R: set<nat>)
    requires forall r :: r in R ==> r >= |s|
    ensures Keep(s, R, true) == [] && Keep(s, R, false) == s
  {
    if s != [] {
      KeepBeyond(s[..|s| - 1], R);
      assert s == s[..|s| - 1] + [s[|s| - 1]];
    }
  }

  /** an empty selection takes nothing out and leaves the list as it is */
  lemma KeepNothing<T>(s: seq<T>)
    ensures Keep(s, {}, true) == [] && Keep(s, {}, false) == s
  {
    KeepBeyond(s, {});
  }

  /** takeItem(r) when every row taken so far lies above r: r has not moved,
      and taking it out extends both sides by that row */
  lemma {:induction false} KeepRemoveStep<T>(s: seq<T>, R: set<nat>, r: nat)
    requires r < |s| && forall x :: x in R ==> x > r
    ensures r < |Keep(s, R, false)| && Keep(s, R, false)[r] == s[r]
    ensures Keep(s, R, false)[..r] + Keep(s, R, false)[r + 1..] == Keep(s, R + {r}, false)
    ensures Keep(s, R + {r}, true) == [s[r]] + Keep(s, R, true)
  {
    var m := |s| - 1;
    assert s == s[..m] + [s[m]];
    if m == r {
      KeepBeyond(s[..m], R);
      KeepBeyond(s[..m], R + {r});
    } else {
      KeepRemoveStep(s[..m], R, r);
      var w' := Keep(s[..m], R, false);
      var tail := if m in R then [] else [s[m]];
      assert Keep(s, R, false) == w' + tail;
      assert (w' + tail)[..r] + (w' + tail)[r + 1..] == (w'[..r] + w'[r + 1..]) + tail;
    }
  }

  /** taking the rows from the highest down: with rows[k+1..] already out,
      taking rows[k] finds the item it had in s and extends both sides */
  lemma TakeStep<T>(s: seq<T>, rows: seq<nat>, k: nat)
    requires Ascending(rows) && RowsBelow(rows, |s|) && k < |rows|
    ensures var w := Keep(s, RowSet(rows[k + 1..]), false);
      var r := rows[k];
      r < |w| && w[r] == s[r] &&
      w[..r] + w[r + 1..] == Keep(s, RowSet(rows[k..]), false) &&
      Keep(s, RowSet(rows[k..]), true) == [s[r]] + Keep(s, RowSet(rows[k + 1..]), true)
  {
    var R := RowSet(rows[k + 1..]);
    assert rows[k..] == [rows[k]] + rows[k + 1..];
    assert RowSet(rows[k..]) == R + {rows[k]};
    forall x | x in R ensures x > rows[k] {
      var j :| 0 <= j < |rows[k + 1..]| && rows[k + 1..][j] == x;
      assert rows[k + 1 + j] == x;
    }
    KeepRemoveStep(s, R, rows[k]);
  }

  lemma RowSetCons(rows: seq<nat>)
    requires rows != []
    ensures RowSet(rows) == RowSet(rows[1..]) + {rows[0]}
  {
    assert rows == [rows[0]] + rows[1..];
  }

  lemma RowSetAbove(rows: seq<nat>)
    requires rows != [] && Ascending(rows)
    ensures forall x :: x in RowSet(rows[1..]) ==> x > rows[0]
  {
    AscendingTail(rows);
  }

  lemma PickCons<T>(s: seq<T>, rows: seq<nat>)
    requires rows != [] && RowsBelow(rows, |s|)
    ensures RowsBelow(rows[1..], |s|)
    ensures Pick(s, rows) == [s[rows[0]]] + Pick(s, rows[1..])
  {
    assert forall j :: 0 <= j < |rows[1..]| ==> rows[1..][j] == rows[j + 1];
  }

  /** the rows in R, taken in increasing order, are the elements at those rows */
  lemma {:induction false} KeepSelectedInOrder<T>(s: seq<T>, rows: seq<nat>)
    requires Ascending(rows) && RowsBelow(rows, |s|)
    ensures Keep(s, RowSet(rows), true) == Pick(s, rows)
  {
    if rows == [] {
      assert RowSet(rows) == {};
      KeepBeyond(s, {});
    } else {
      var rest := rows[1..];
      var R := RowSet(rest);
      AscendingTail(rows);
      PickCons(s, rows);
      KeepSelectedInOrder(s, rest);
      RowSetCons(rows);
      RowSetAbove(rows);
      KeepRemoveStep(s, R, rows[0]);
    }
  }

  /** items outside R that agree in two lists of the same length stay the same */
  lemma {:induction false} KeepUnselectedAgree<T>(s: seq<T>, t: seq<T>, R: set<nat>)
    requires |s| == |t| && forall i :: 0 <= i < |s| && i !in R ==> s[i] == t[i]
    ensures Keep(s, R, false) == Keep(t, R, false)
  {
    if s != [] {
      KeepUnselectedAgree(s[..|s| - 1], t[..|t| - 1], R);
    }
  }

  // -------------------------------------------------- putting a block back

  /** insertItem(at + i, block[i]) for each i in turn; Qt's insertItem puts
      an item whose row lies past the end at the end */
  function InsertBlock<T>(w: seq<T>, at: nat, block: seq<T>): (r: seq<T>)
    ensures |r| == |w| + |block|
  {
    var p := if at <= |w| then at else |w|;
    w[..p] + block + w[p..]
  }

  /** insertItem(row, x): at row, or at the end when row lies past it */
  function InsertAt<T>(v: seq<T>, row: nat, x: T): (r: seq<T>)
    ensures |r| == |v| + 1
  {
    var p := if row <= |v| then row else |v|;
    v[..p] + [x] + v[p..]
  }

  /** inserting the block one item at a time, item i at row at + i, puts it in as one piece */
  lemma InsertBlockStep<T>(w: seq<T>, at: nat, b: seq<T>, x: T)
    ensures InsertBlock(w, at, b + [x]) == InsertAt(InsertBlock(w, at, b), at + |b|, x)
  {
    var v := InsertBlock(w, at, b);
    if at <= |w| {
      assert v[..at + |b|] == w[..at] + b;
      assert v[at + |b|..] == w[at..];
    } else {
      assert w[..|w|] == w;
    }
  }

  /** the rows a .. b-1, in order */
  function Span(a: nat, b: nat): (r: seq<nat>)
    requires a <= b
    ensures |r| == b - a && Ascending(r) && forall i :: 0 <= i < |r| ==> r[i] == a + i
  {
    seq(b - a, i requires 0 <= i < b - a => a + i)
  }

  /** s with the text at rows[j] replaced by labels[j], for the first k rows */
  function Relabel<T>(s: seq<T>, rows: seq<nat>, labels: seq<T>, k: nat): (r: seq<T>)
    requires k <= |rows| && k <= |labels| && RowsBelow(rows, |s|)
    ensures |r| == |s|
  {
    if k == 0 then s else Relabel(s, rows, labels, k - 1)[rows[k - 1] := labels[k - 1]]
  }

  lemma RelabelNext<T>(s: seq<T>, rows: seq<nat>, labels: seq<T>, k: nat)
    requires k < |rows| && k < |labels| && RowsBelow(rows, |s|)
    ensures rows[k] < |s| && Relabel(s, rows, labels, k + 1) == Relabel(s, rows, labels, k)[rows[k] := labels[k]]
  {
  }

  /** with distinct rows, row rows[j] carries labels[j] once relabelled, and
      every row not among the first k keeps its item */
  lemma {:induction false} RelabelAt<T>(s: seq<T>, rows: seq<nat>, labels: seq<T>, k: nat)
    requires k <= |rows| && k <= |labels| && RowsBelow(rows, |s|) && Ascending(rows)
    ensures forall j :: 0 <= j < k ==> Relabel(s, rows, labels, k)[rows[j]] == labels[j]
    ensures forall i :: 0 <= i < |s| && i !in rows[..k] ==> Relabel(s, rows, labels, k)[i] == s[i]
  {
    if k > 0 {
      RelabelAt(s, rows, labels, k - 1);
      assert forall i :: i in rows[..k] <==> i in rows[..k - 1] || i == rows[k - 1];
    }
  }

  /** relabelling the rows and then picking them gives the labels */
  lemma PickRelabel<T>(s: seq<T>, rows: seq<nat>, labels: seq<T>)
    requires |labels| == |rows| && RowsBelow(rows, |s|) && Ascending(rows)
    ensures Pick(Relabel(s, rows, labels, |rows|), rows) == labels
  {
    RelabelAt(s, rows, labels, |rows|);
  }

  /** relabelling leaves the rows outside the relabelled set as they were */
  lemma KeepRelabel<T>(s: seq<T>, rows: seq<nat>, labels: seq<T>)
    requires |labels| == |rows| && RowsBelow(rows, |s|) && Ascending(rows)
    ensures Keep(Relabel(s, rows, labels, |rows|), RowSet(rows), false) == Keep(s, RowSet(rows), false)
  {
    RelabelAt(s, rows, labels, |rows|);
    assert rows[..|rows|] == rows;
    KeepUnselectedAgree(Relabel(s, rows, labels, |rows|), s, RowSet(rows));
  }

  lemma InsertBlockPermutation<T>(w: seq<T>, at: nat, block: seq<T>)
    ensures multiset(InsertBlock(w, at, block)) == multiset(w) + multiset(block)
  {
    var p := if at <= |w| then at else |w|;
    assert w == w[..p] + w[p..];
  }

  /** taking the rows of R out and putting them back as one block anywhere
      leaves a permutation of the list */
  lemma MoveBlockPermutation<T>(s: seq<T>, R: set<nat>, at: nat)
    ensures multiset(InsertBlock(Keep(s, R, false), at, Keep(s, R, true))) == multiset(s)
  {
    InsertBlockPermutation(Keep(s, R, false), at, Keep(s, R, true));
    KeepPermutation(s, R);
  }

  // -------------------------------------------------------- dropEvent

  lemma {:induction false} AscendingAtLeastIndex(rows: seq<nat>)
    requires Ascending(rows)
    ensures forall i :: 0 <= i < |rows| ==> rows[i] >= i
  {
    if rows != [] {
      var init := rows[..|rows| - 1];
      AscendingAtLeastIndex(init);
      assert forall i :: 0 <= i < |init| ==> init[i] == rows[i];
      if |rows| >= 2 { assert rows[|rows| - 2] < rows[|rows| - 1]; }
    }
  }

  /** insert_at = target_row if target_row <= max(drag_rows) else target_row - len(drag_rows) */
  function DropInsertAt(rows: seq<nat>, target: nat): (p: nat)
    requires rows != [] && Ascending(rows)
  {
    AscendingAtLeastIndex(rows);
    if target <= rows[|rows| - 1] then target else target - |rows|
  }

  /** how many of the rows lie above target (have a smaller row number) */
  function CountBelow(rows: seq<nat>, target: nat): nat
  {
    if rows == [] then 0 else (if rows[0] < target then 1 else 0) + CountBelow(rows[1..], target)
  }

  lemma {:induction false} AscendingTail(rows: seq<nat>)
    requires rows != [] && Ascending(rows)
    ensures Ascending(rows[1..]) && rows[0] !in rows[1..]
    ensures forall j :: 0 <= j < |rows[1..]| ==> rows[1..][j] > rows[0]
  {
    assert forall j :: 0 <= j < |rows[1..]| ==> rows[1..][j] == rows[j + 1];
  }

  lemma {:induction false} CountBelowStep(rows: seq<nat>, t: nat)
    requires Ascending(rows)
    ensures CountBelow(rows, t + 1) == CountBelow(rows, t) + (if t in rows then 1 else 0)
  {
    if rows != [] {
      AscendingTail(rows);
      CountBelowStep(rows[1..], t);
      assert t in rows <==> rows[0] == t || t in rows[1..] by {
        assert rows == [rows[0]] + rows[1..];
      }
    }
  }

  /** the part of the list above row t keeps t minus the dragged rows above t */
  lemma {:induction false} KeepPrefixLength<T>(s: seq<T>, rows: seq<nat>, t: nat)
    requires Ascending(rows) && t <= |s|
    ensures CountBelow(rows, t) <= t
    ensures |Keep(s[..t], RowSet(rows), false)| == t - CountBelow(rows, t)
  {
    if t == 0 {
      CountBelowZero(rows);
    } else {
      KeepPrefixLength(s, rows, t - 1);
      CountBelowStep(rows, t - 1);
      assert s[..t][..t - 1] == s[..t - 1];
    }
  }

  lemma {:induction false} CountBelowZero(rows: seq<nat>)
    ensures CountBelow(rows, 0) == 0
  {
    if rows != [] { CountBelowZero(rows[1..]); }
  }

  lemma {:induction false} KeepPrefix<T>(s: seq<T>, R: set<nat>, b: bool, t: nat)
    requires t <= |s|
    ensures Keep(s[..t], R, b) <= Keep(s, R, b)
    decreases |s| - t
  {
    if t < |s| {
      var m := |s| - 1;
      KeepPrefix(s[..m], R, b, t);
      assert s[..m][..t] == s[..t];
      assert s[..|s|] == s;
    } else {
      assert s[..t] == s;
    }
  }

  /** where the drop was evidently meant to put the block: in front of the
      item the rows were dropped on, counted after the dragged rows are out */
  function IntendedInsertAt(rows: seq<nat>, target: nat): (p: int)
  {
    target - CountBelow(rows, target)
  }

  /** the intended position always exists and lands the block right in front
      of the item dropped on, or at the end when dropped past the last item */
  lemma IntendedDropBeforeTarget<T>(s: seq<T>, rows: seq<nat>, target: nat)
    requires Ascending(rows) && RowsBelow(rows, |s|)
    requires target <= |s| && target !in rows
    ensures var w := Keep(s, RowSet(rows), false);
      var p := IntendedInsertAt(rows, target);
      0 <= p <= |w| &&
      (target < |s| ==> p < |w| && w[p] == s[target]) &&
      (target == |s| ==> p == |w|)
  {
    var R := RowSet(rows);
    KeepPrefixLength(s, rows, target);
    if target < |s| {
      KeepPrefix(s, R, false, target + 1);
      assert s[..target + 1][..target] == s[..target];
      assert Keep(s[..target + 1], R, false) == Keep(s[..target], R, false) + [s[target]];
    } else {
      assert s[..target] == s;
    }
  }

  lemma {:induction false} CountBelowAll(rows: seq<nat>, target: nat)
    requires RowsBelow(rows, target)
    ensures CountBelow(rows, target) == |rows|
  {
    if rows != [] {
      assert forall j :: 0 <= j < |rows[1..]| ==> rows[1..][j] == rows[j + 1];
      CountBelowAll(rows[1..], target);
    }
  }

  lemma {:induction false} CountBelowNone(rows: seq<nat>, target: nat)
    requires forall i :: 0 <= i < |rows| ==> rows[i] > target
    ensures CountBelow(rows, target) == 0
  {
    if rows != [] {
      assert forall j :: 0 <= j < |rows[1..]| ==> rows[1..][j] == rows[j + 1];
      CountBelowNone(rows[1..], target);
    }
  }

  /** when every dragged row lies on one side of the target, the shipped
      formula and the intended one agree */
  lemma DropOneSideAgrees(rows: seq<nat>, target: nat)
    requires rows != [] && Ascending(rows)
    requires rows[|rows| - 1] < target || target < rows[0]
    ensures DropInsertAt(rows, target) == IntendedInsertAt(rows, target)
  {
    if rows[|rows| - 1] < target {
      CountBelowAll(rows, target);
    } else {
      CountBelowNone(rows, target);
    }
  }

  /** as written: with dragged rows on both sides of the target row, the item
      dropped on stays in front of the block, at a row before the block starts */
  lemma DropAsWrittenMisplaces<T>(s: seq<T>, rows: seq<nat>, target: nat)
    requires Ascending(rows) && RowsBelow(rows, |s|)
    requires target < |s| && target !in rows
    requires rows != [] && rows[0] < target < rows[|rows| - 1]
    ensures var w := Keep(s, RowSet(rows), false);
      var q := target - CountBelow(rows, target);
      var result := InsertBlock(w, DropInsertAt(rows, target), Keep(s, RowSet(rows), true));
      DropInsertAt(rows, target) == target &&
      0 <= q < target && q < |w| && q < |result| && result[q] == s[target]
  {
    IntendedDropBeforeTarget(s, rows, target);
  }

  lemma {:induction false} KeepLength<T>(s: seq<T>, rows: seq<nat>)
    requires Ascending(rows) && RowsBelow(rows, |s|)
    ensures |Keep(s, RowSet(rows), false)| == |s| - |rows|
  {
    KeepPrefixLength(s, rows, |s|);
    CountBelowAll(rows, |s|);
    assert s[..|s|] == s;
  }

  /** six items, rows 0 and 5 dragged onto row 3: the item at row 3 ends up
      at row 2, in front of the block that starts at row 3, instead of after it */
  lemma DropExampleMisplaced<T>(s: seq<T>)
    requires |s| == 6
    ensures |Keep(s, {0, 5}, false)| == 4 && DropInsertAt([0, 5], 3) == 3
    ensures InsertBlock(Keep(s, {0, 5}, false), 3, Keep(s, {0, 5}, true))[2] == s[3]
  {
    assert RowSet([0, 5]) == {0, 5};
    KeepLength(s, [0, 5]);
    DropAsWrittenMisplaces(s, [0, 5], 3);
  }

  /** six items, rows 0, 1, 2 and 5 dragged onto row 4: insert_at is 4 but
      only two items are left, so Qt appends the block and the row-selection
      loop of dropEvent asks for rows that do not exist */
  lemma DropExampleOverruns<T>(s: seq<T>)
    requires |s| == 6
    ensures DropInsertAt([0, 1, 2, 5], 4) == 4 > |Keep(s, {0, 1, 2, 5}, false)| == 2
  {
    assert RowSet([0, 1, 2, 5]) == {0, 1, 2, 5};
    KeepLength(s, [0, 1, 2, 5]);
  }

  /** a list whose first i items come from `a` and the rest from `b` */
  lemma SpliceNext<T>(a: seq<T>, b: seq<T>, i: nat)
    requires |a| == |b| && i < |a|
    ensures (a[..i] + b[i..])[i := a[i]] == a[..i + 1] + b[i + 1..]
  {
  }
}
