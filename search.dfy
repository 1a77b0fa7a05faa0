/** The cyclic scan of search_image (main/main.py:596-640): from a start row,
    look at the rows start+1, start+2, ... (or start-1, start-2, ... when
    searching backwards), wrapping round modulo the number of rows, for at
    most one full turn, and stop at the first name that contains the query
    without regard to case. */
module Search {
  import opened Strings

  /** idx = (start_index + offset) % total, or (start_index - offset) % total;
      Python's % with a positive right operand is never negative, as Dafny's is */
  function ScanIndex(start: int, off: int, total: nat, prev: bool): (idx: nat)
    requires total > 0
    ensures idx < total
  {
    (if prev then start - off else start + off) % total
  }

  /** `text in item.text().lower()`, the query already lower-cased */
  predicate Hit(names: seq<string>, q: string, idx: nat)
    requires idx < |names|
  {
    Contains(LowerStr(names[idx]), q)
  }

  /** the first offset from `from` up to total whose row is a hit, or total + 1 */
  function FirstHit(names: seq<string>, q: string, start: int, prev: bool, from: nat): (off: nat)
    requires 1 <= from <= |names| + 1
    ensures from <= off <= |names| + 1
    ensures off <= |names| ==> Hit(names, q, ScanIndex(start, off, |names|, prev))
    ensures forall o :: from <= o < off ==> !Hit(names, q, ScanIndex(start, o, |names|, prev))
    decreases |names| + 1 - from
  {
    if from > |names| then from
    else if Hit(names, q, ScanIndex(start, from, |names|, prev)) then from
    else FirstHit(names, q, start, prev, from + 1)
  }

  /** the `for offset in range(1, total + 1)` loop: found is whether some row
      matched, and idx is the row of the first match in scan order */
  method Scan(names: seq<string>, q: string, start: int, prev: bool) returns (found: bool, idx: nat)
    ensures found <==> FirstHit(names, q, start, prev, 1) <= |names|
    ensures found ==> idx < |names| && idx == ScanIndex(start, FirstHit(names, q, start, prev, 1), |names|, prev)
  {
    found, idx := false, 0;
    var total := |names|;
    for off := 1 to total + 1
      invariant FirstHit(names, q, start, prev, 1) == FirstHit(names, q, start, prev, off)
    {
      var i := ScanIndex(start, off, total, prev);
      if Contains(LowerStr(names[i]), q) {
        found, idx := true, i;
        return;
      }
    }
  }

  /** Euclidean division is unique: x = q * t + r with 0 <= r < t fixes the remainder */
  lemma ModUnique(x: int, t: int, q: int, r: int)
    requires t > 0 && 0 <= r < t && x == q * t + r
    ensures x % t == r
  {
    var q', r' := x / t, x % t;
    assert (q - q') * t == r' - r;
    if q > q' {
      MulAtLeast(q - q', t);
    } else if q < q' {
      MulAtLeast(q' - q, t);
    }
  }

  lemma {:induction false} MulAtLeast(a: int, t: int)
    requires a >= 1 && t > 0
    ensures a * t >= t
    decreases a
  {
    if a > 1 {
      MulAtLeast(a - 1, t);
      assert a * t == (a - 1) * t + t;
    }
  }

  /** one full turn reaches every row: each row is the row of some offset in 1..total */
  lemma ScanCovers(start: int, total: nat, prev: bool, j: nat)
    requires j < total
    ensures exists off :: 1 <= off <= total && ScanIndex(start, off, total, prev) == j
  {
    var d := if prev then start - j else j - start;
    var k, o := d / total, d % total;
    var off := if o == 0 then total else o;
    // d == k * total + o, so the row reached is j shifted by whole turns
    if prev {
      ModUnique(start - off, total, k - (if o == 0 then 1 else 0), j) by {
        assert (k - 1) * total == k * total - total;
      }
    } else {
      ModUnique(start + off, total, -k + (if o == 0 then 1 else 0), j) by {
        assert (-k + 1) * total == -(k * total) + total;
        assert -k * total == -(k * total);
      }
    }
    assert ScanIndex(start, off, total, prev) == j;
  }

  /** a scan that finds nothing has looked at every row: no name contains the query */
  lemma NoHitMeansNoMatch(names: seq<string>, q: string, start: int, prev: bool)
    requires FirstHit(names, q, start, prev, 1) > |names|
    ensures forall j :: 0 <= j < |names| ==> !Contains(LowerStr(names[j]), q)
  {
    forall j | 0 <= j < |names| ensures !Contains(LowerStr(names[j]), q) {
      ScanCovers(start, |names|, prev, j);
    }
  }

  /** a row that contains the query is always found: some row is reported */
  lemma MatchIsFound(names: seq<string>, q: string, start: int, prev: bool, j: nat)
    requires j < |names| && Contains(LowerStr(names[j]), q)
    ensures FirstHit(names, q, start, prev, 1) <= |names|
  {
    if FirstHit(names, q, start, prev, 1) > |names| {
      NoHitMeansNoMatch(names, q, start, prev);
    }
  }

  /** starting from the only matching row, the scan goes all the way round
      and finds that same row again, at offset total */
  lemma UniqueMatchRefound(names: seq<string>, q: string, j: nat, prev: bool)
    requires j < |names| && Contains(LowerStr(names[j]), q)
    requires forall k :: 0 <= k < |names| && k != j ==> !Contains(LowerStr(names[k]), q)
    ensures FirstHit(names, q, j, prev, 1) == |names|
    ensures ScanIndex(j, |names|, |names|, prev) == j
  {
    var total := |names|;
    forall o | 1 <= o < total ensures ScanIndex(j, o, total, prev) != j {
      var x := if prev then j - o else j + o;
      if 0 <= x < total {
        ModUnique(x, total, 0, x);
      } else if x < 0 {
        ModUnique(x, total, -1, x + total);
      } else {
        ModUnique(x, total, 1, x - total);
      }
    }
    if prev {
      ModUnique(j - total, total, -1, j);
    } else {
      ModUnique(j + total, total, 1, j);
    }
    assert Hit(names, q, ScanIndex(j, total, total, prev));
  }
}
