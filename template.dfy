/** The pieces of rename_selected (main/main.py:522-594) that do not touch the
    list widget: the name pattern base_NNNNNN.ext, the largest counter already
    in use, the search for the next free counter, and the two scans that pick
    where the renamed block goes back into the list. */
module Template {
  import opened Strings
  import opened Natural

  /** [a-zA-Z]{3,4} */
  predicate LetterExt(t: string)
  {
    3 <= |t| <= 4 && forall i :: 0 <= i < |t| ==> IsLetter(t[i])
  }

  /** pattern.match(name) for
        re.compile(rf"^{re.escape(base)}_(\d{6})\.[a-zA-Z]{3,4}$", re.IGNORECASE):
      the base (letters compared without case), '_', six digits, '.', three or
      four letters, and then the end of the name or a final newline, since
      Python's `$` also matches just before one */
  predicate Matches(base: string, name: string)
  {
    var m := |base|;
    |name| >= m + 8 &&
    LowerStr(name[..m]) == LowerStr(base) && name[m] == '_' &&
    AllDigits(name[m + 1..m + 7]) && name[m + 7] == '.' &&
    (LetterExt(name[m + 8..]) ||
     (|name| > m + 8 && name[|name| - 1] == '\n' && LetterExt(name[m + 8..|name| - 1])))
  }

  /** int(match.group(1)) */
  function CounterOf(base: string, name: string): nat
    requires Matches(base, name)
  {
    DecVal(name[|base| + 1..|base| + 7])
  }

  /** f"{base}_{counter:06d}{ext}" */
  function Name(base: string, c: nat, ext: string): string
  {
    base + "_" + Pad6(c) + ext
  }

  /** two counters give the same name (same base, same extension) only when they are equal */
  lemma NameInjective(base: string, c: nat, d: nat, ext: string)
    requires Name(base, c, ext) == Name(base, d, ext)
    ensures c == d
  {
    var m := |base| + 1;
    var s := Name(base, c, ext);
    assert |Pad6(c)| == |Pad6(d)|;
    assert s[m..m + |Pad6(c)|] == Pad6(c);
    assert Name(base, d, ext)[m..m + |Pad6(d)|] == Pad6(d);
    Pad6RoundTrip(c);
    Pad6RoundTrip(d);
  }

  /** a generated name with a counter below 1,000,000 and a 3-4 letter
      extension matches the pattern, and the pattern reads the counter back */
  lemma NameMatches(base: string, c: nat, letters: string)
    requires c < 1000000 && LetterExt(letters)
    ensures Matches(base, Name(base, c, "." + letters))
    ensures CounterOf(base, Name(base, c, "." + letters)) == c
  {
    var s := Name(base, c, "." + letters);
    var m := |base|;
    Pad6Width(c);
    Pad6RoundTrip(c);
    assert s[..m] == base;
    assert s[m + 1..m + 7] == Pad6(c);
    assert s[m + 8..] == letters;
  }

  /** from 1,000,000 on, {counter:06d} is seven digits wide and the name no
      longer matches the six-digit pattern */
  lemma WideCounterNoMatch(base: string, c: nat, ext: string)
    requires c >= 1000000
    ensures !Matches(base, Name(base, c, ext))
  {
    var s := Name(base, c, ext);
    var m := |base|;
    Pad6Width(c);
    assert |Pad6(c)| >= 7;
    assert s[m + 7] == Pad6(c)[6];
  }

  // --------------------------------------------------------- max_counter

  /** max_counter over the names: the largest counter among the names that
      match, or 0 when none does (MaxMatchIsMax) */
  function MaxMatch(names: seq<string>, base: string): nat
  {
    MaxUpTo(names, base, |names|)
  }

  /** the same over the first n names */
  function MaxUpTo(names: seq<string>, base: string, n: nat): nat
    requires n <= |names|
  {
    if n == 0 then 0
    else
      var m := MaxUpTo(names, base, n - 1);
      if Matches(base, names[n - 1]) && CounterOf(base, names[n - 1]) > m then CounterOf(base, names[n - 1]) else m
  }

  /** mx is max_counter of the names: no matching name has a larger
      counter, and mx is 0 or the counter of a matching name */
  ghost predicate IsMaxCounter(names: seq<string>, base: string, mx: nat)
  {
    (forall i :: 0 <= i < |names| && Matches(base, names[i]) ==> CounterOf(base, names[i]) <= mx) &&
    (mx == 0 || exists i :: 0 <= i < |names| && Matches(base, names[i]) && CounterOf(base, names[i]) == mx)
  }

  /** MaxMatch is that maximum */
  lemma MaxMatchIsMax(names: seq<string>, base: string)
    ensures IsMaxCounter(names, base, MaxMatch(names, base))
  {
    MaxUpToIsMax(names, base, |names|);
  }

  lemma {:induction false} MaxUpToIsMax(names: seq<string>, base: string, n: nat)
    requires n <= |names|
    ensures var mx := MaxUpTo(names, base, n);
      (forall i :: 0 <= i < n && Matches(base, names[i]) ==> CounterOf(base, names[i]) <= mx) &&
      (mx == 0 || exists i :: 0 <= i < n && Matches(base, names[i]) && CounterOf(base, names[i]) == mx)
  {
    if n > 0 {
      MaxUpToIsMax(names, base, n - 1);
    }
  }

  /** the loop over all list names that computes max_counter */
  method MaxCounter(names: seq<string>, base: string) returns (mx: nat)
    ensures mx == MaxMatch(names, base)
  {
    mx := 0;
    for i := 0 to |names|
      invariant mx == MaxUpTo(names, base, i)
    {
      if Matches(base, names[i]) {
        var c := CounterOf(base, names[i]);
        if c > mx {
          mx := c;
        }
      }
    }
  }

  // ------------------------------------------------------ the next free counter

  /** c is the first counter from `from` on whose name is not in used */
  ghost predicate LeastFree(used: set<string>, base: string, ext: string, from: nat, c: nat)
  {
    from <= c && Name(base, c, ext) !in used &&
    forall d :: from <= d < c ==> Name(base, d, ext) in used
  }

  /** the names in used that some counter from c on would produce */
  ghost function Ahead(used: set<string>, base: string, ext: string, c: nat): set<string>
  {
    set u | u in used && exists d: nat :: d >= c && u == Name(base, d, ext)
  }

  lemma AheadShrinks(used: set<string>, base: string, ext: string, c: nat)
    requires Name(base, c, ext) in used
    ensures |Ahead(used, base, ext, c + 1)| < |Ahead(used, base, ext, c)|
  {
    var n := Name(base, c, ext);
    var A, B := Ahead(used, base, ext, c + 1), Ahead(used, base, ext, c);
    assert n in B;
    if n in A {
      var d: nat :| d >= c + 1 && n == Name(base, d, ext);
      NameInjective(base, c, d, ext);
    }
    assert A <= B - {n};
    SubsetCard(A, B - {n});
  }

  lemma {:induction false} SubsetCard<T>(A: set<T>, B: set<T>)
    requires A <= B
    ensures |A| <= |B|
    decreases |B|
  {
    if A != {} {
      var x :| x in A;
      SubsetCard(A - {x}, B - {x});
    }
  }

  /** `while new_name in used_names: counter += 1`: the first counter from
      `from` on whose name is free */
  method NextFree(used: set<string>, base: string, ext: string, from: nat) returns (c: nat)
    ensures from <= c && Name(base, c, ext) !in used
    ensures forall d :: from <= d < c ==> Name(base, d, ext) in used
  {
    c := from;
    while Name(base, c, ext) in used
      invariant from <= c && forall d :: from <= d < c ==> Name(base, d, ext) in used
      decreases |Ahead(used, base, ext, c)|
    {
      AheadShrinks(used, base, ext, c);
      c := c + 1;
    }
  }

  /** the names f"{base}_{counter:06d}{ext}" of a batch, one per counter */
  function Labels(base: string, counters: seq<nat>, exts: seq<string>): (r: seq<string>)
    requires |counters| <= |exts|
    ensures |r| == |counters| && forall k :: 0 <= k < |counters| ==> r[k] == Name(base, counters[k], exts[k])
  {
    seq(|counters|, k requires 0 <= k < |counters| => Name(base, counters[k], exts[k]))
  }

  function ToSet(s: seq<string>): set<string> { set x | x in s }

  /** os.path.splitext(path)[1] of each name */
  function Exts(names: seq<string>): (r: seq<string>)
    ensures |r| == |names| && forall i :: 0 <= i < |names| ==> r[i] == Ext(names[i])
  {
    seq(|names|, i requires 0 <= i < |names| => Ext(names[i]))
  }

  /** where the search for the counter of item k starts: `from` for the
      first item, one past the previous counter after that */
  function NextStart(from: nat, counters: seq<nat>, k: nat): nat
    requires k <= |counters|
  {
    if k == 0 then from else counters[k - 1] + 1
  }

  /** the names given to the first k items of the batch, as a set */
  function Given(base: string, counters: seq<nat>, exts: seq<string>, k: nat): set<string>
    requires k <= |counters| <= |exts|
  {
    if k == 0 then {} else Given(base, counters, exts, k - 1) + {Name(base, counters[k - 1], exts[k - 1])}
  }

  /** item k of the batch gets the counter the loop of rename_selected
      picks for it: the first counter from NextStart on whose name is
      neither a list name (used) nor a name given earlier in the batch */
  ghost predicate PickedAt(used: set<string>, base: string, exts: seq<string>, from: nat, counters: seq<nat>, k: nat)
    requires k < |counters| <= |exts|
  {
    LeastFree(used + Given(base, counters, exts, k), base, exts[k], NextStart(from, counters, k), counters[k])
  }

  /** the whole batch is the one the loop picks */
  ghost predicate Generated(used: set<string>, base: string, exts: seq<string>, from: nat, counters: seq<nat>)
    requires |counters| <= |exts|
  {
    forall k :: 0 <= k < |counters| ==> PickedAt(used, base, exts, from, counters, k)
  }

  /** each name of the first k items is in Given */
  lemma {:induction false} GivenHas(base: string, counters: seq<nat>, exts: seq<string>, k: nat, j: nat)
    requires j < k <= |counters| <= |exts|
    ensures Name(base, counters[j], exts[j]) in Given(base, counters, exts, k)
  {
    if j < k - 1 {
      GivenHas(base, counters, exts, k - 1, j);
    }
  }

  /** a counter put at the end leaves the names of the first k items as they were */
  lemma {:induction false} GivenExtend(base: string, counters: seq<nat>, exts: seq<string>, c: nat, k: nat)
    requires k <= |counters| < |exts|
    ensures Given(base, counters + [c], exts, k) == Given(base, counters, exts, k)
  {
    if k > 0 {
      GivenExtend(base, counters, exts, c, k - 1);
      assert (counters + [c])[k - 1] == counters[k - 1];
    }
  }

  /** the counters of a batch strictly increase and start at `from` or later */
  lemma GeneratedIncreasing(used: set<string>, base: string, exts: seq<string>, from: nat, counters: seq<nat>)
    requires |counters| <= |exts| && Generated(used, base, exts, from, counters)
    ensures forall k :: 0 <= k < |counters| ==> from <= counters[k]
    ensures forall j, k :: 0 <= j < k < |counters| ==> counters[j] < counters[k]
  {
    IncreasingUpTo(used, base, exts, from, counters, |counters|);
  }

  lemma {:induction false} IncreasingUpTo(used: set<string>, base: string, exts: seq<string>, from: nat, counters: seq<nat>, n: nat)
    requires n <= |counters| <= |exts| && Generated(used, base, exts, from, counters)
    ensures forall k :: 0 <= k < n ==> from <= counters[k]
    ensures forall j, k :: 0 <= j < k < n ==> counters[j] < counters[k]
  {
    if n > 0 {
      IncreasingUpTo(used, base, exts, from, counters, n - 1);
      assert PickedAt(used, base, exts, from, counters, n - 1);
      assert counters[n - 1] >= NextStart(from, counters, n - 1);
    }
  }

  /** the counters the loop of rename_selected gives a batch of items with
      the given extensions: used_names starts as the list's names and takes
      in each new name */
  method Batch(used: set<string>, base: string, exts: seq<string>, from: nat) returns (counters: seq<nat>)
    ensures |counters| == |exts| && Generated(used, base, exts, from, counters)
  {
    counters := [];
    var taken := used;
    var c := from;
    while |counters| < |exts|
      invariant |counters| <= |exts| && Generated(used, base, exts, from, counters)
      invariant taken == used + Given(base, counters, exts, |counters|)
      invariant c == NextStart(from, counters, |counters|)
    {
      var k := |counters|;
      c := NextFree(taken, base, exts[k], c);
      BatchStep(used, base, exts, from, counters, c);
      counters := counters + [c];
      taken := taken + {Name(base, c, exts[k])};
      c := c + 1;
    }
  }

  /** the loop's next counter extends the batch by one name */
  lemma BatchStep(used: set<string>, base: string, exts: seq<string>, from: nat, counters: seq<nat>, c: nat)
    requires |counters| < |exts| && Generated(used, base, exts, from, counters)
    requires LeastFree(used + Given(base, counters, exts, |counters|), base, exts[|counters|], NextStart(from, counters, |counters|), c)
    ensures Generated(used, base, exts, from, counters + [c])
    ensures Given(base, counters + [c], exts, |counters| + 1) == Given(base, counters, exts, |counters|) + {Name(base, c, exts[|counters|])}
  {
    var n := |counters|;
    var more := counters + [c];
    forall k | 0 <= k <= n ensures PickedAt(used, base, exts, from, more, k) {
      GivenExtend(base, counters, exts, c, k);
      assert more[k] == if k < n then counters[k] else c;
      if k > 0 {
        assert more[k - 1] == counters[k - 1];
      }
      if k < n {
        assert PickedAt(used, base, exts, from, counters, k);
      }
    }
    GivenExtend(base, counters, exts, c, n);
    assert more[n] == c;
  }

  /** every generated name is new: not a list name and not an earlier name of the batch */
  lemma GeneratedFresh(used: set<string>, base: string, exts: seq<string>, from: nat, counters: seq<nat>)
    requires |counters| <= |exts| && Generated(used, base, exts, from, counters)
    ensures var names := Labels(base, counters, exts);
      forall k :: 0 <= k < |names| ==> names[k] !in used && forall j :: 0 <= j < k ==> names[j] != names[k]
  {
    FreshUpTo(used, base, exts, from, counters, |counters|);
  }

  lemma FreshUpTo(used: set<string>, base: string, exts: seq<string>, from: nat, counters: seq<nat>, n: nat)
    requires n <= |counters| <= |exts| && Generated(used, base, exts, from, counters)
    ensures forall k :: 0 <= k < n ==> Name(base, counters[k], exts[k]) !in used
    ensures forall j, k :: 0 <= j < k < n ==> Name(base, counters[j], exts[j]) != Name(base, counters[k], exts[k])
  {
    forall j, k | 0 <= j < k < n ensures Name(base, counters[j], exts[j]) != Name(base, counters[k], exts[k]) {
      assert PickedAt(used, base, exts, from, counters, k);
      GivenHas(base, counters, exts, k, j);
    }
    forall k | 0 <= k < n ensures Name(base, counters[k], exts[k]) !in used {
      assert PickedAt(used, base, exts, from, counters, k);
    }
  }

  // ---------------------------------------------------- where the block goes

  predicate NoneMatch(w: seq<string>, base: string)
  {
    forall i :: 0 <= i < |w| ==> !Matches(base, w[i])
  }

  /** p is the end of the first run of names that match: w[p-1] matches,
      w[p] does not (or the list ends), and from the first match up to p-1
      every name matches */
  predicate RunEnd(w: seq<string>, base: string, p: nat)
  {
    0 < p <= |w| && Matches(base, w[p - 1]) && (p == |w| || !Matches(base, w[p])) &&
    forall i, j :: 0 <= i < j < p && Matches(base, w[i]) ==> Matches(base, w[j])
  }

  /** p is the first row whose natural_key is greater than the sample's, or the end */
  predicate Above(w: seq<string>, sample: string, p: nat)
  {
    p <= |w| && (forall i :: 0 <= i < p ==> !NatLess(sample, w[i])) && (p < |w| ==> NatLess(sample, w[p]))
  }

  /** the first loop after the renamed rows are taken out: insert_at becomes
      the end of the first run of matching names, or stays 0 when no name
      matches */
  method FirstRunEnd(w: seq<string>, base: string) returns (p: nat)
    ensures if NoneMatch(w, base) then p == 0 else RunEnd(w, base, p)
  {
    p := 0;
    var i := 0;
    while i < |w|
      invariant i <= |w| && p <= i
      invariant p == 0 <==> forall j :: 0 <= j < i ==> !Matches(base, w[j])
      invariant p > 0 ==> Matches(base, w[p - 1]) && p == i
      invariant forall a, b :: 0 <= a < b < p && Matches(base, w[a]) ==> Matches(base, w[b])
    {
      if Matches(base, w[i]) {
        p := i + 1;
      } else if p > 0 {
        break;
      }
      i := i + 1;
    }
  }

  /** the second loop, used when no name matched: the first row whose
      natural_key is greater than the sample's, or the end of the list */
  method FirstAbove(w: seq<string>, sample: string) returns (p: nat)
    ensures Above(w, sample, p)
  {
    p := 0;
    while p < |w| && !NatLess(sample, w[p])
      invariant p <= |w| && forall j :: 0 <= j < p ==> !NatLess(sample, w[j])
    {
      // row p is the one the guard just compared; the rows before it are
      // covered by the invariant (the split keeps natural_key unexpanded)
      forall j | 0 <= j < p + 1
        ensures !NatLess(sample, w[j])
      {
        if j == p {
        }
      }
      p := p + 1;
    }
  }

  /** both loops together: after the first run of matching names, or, when
      no name matches, in natural_key order of the sample */
  method InsertionPoint(w: seq<string>, base: string, sample: string) returns (p: nat)
    ensures p <= |w|
    ensures if NoneMatch(w, base) then Above(w, sample, p) else RunEnd(w, base, p)
  {
    p := FirstRunEnd(w, base);
    if p == 0 {
      p := FirstAbove(w, sample);
    }
  }

  /** placing a name before the first greater one keeps a list sorted by
      natural_key sorted */
  lemma FirstAboveKeepsSorted(w: seq<string>, sample: string, p: nat)
    requires SortedByKey(w) && Above(w, sample, p)
    ensures SortedByKey(w[..p] + [sample] + w[p..])
  {
    var r := w[..p] + [sample] + w[p..];
    forall i, j | 0 <= i < j < |r| ensures !NatLess(r[j], r[i]) {
      InsertedAt(w, sample, p, i);
      InsertedAt(w, sample, p, j);
      if i == p {
        SampleBelowLater(w, sample, p, j - 1);
      }
    }
  }

  lemma InsertedAt(w: seq<string>, x: string, p: nat, i: nat)
    requires p <= |w| && i <= |w|
    ensures (w[..p] + [x] + w[p..])[i] == if i < p then w[i] else if i == p then x else w[i - 1]
  {
  }

  /** no name at or after the place found is below the sample */
  lemma SampleBelowLater(w: seq<string>, sample: string, p: nat, k: nat)
    requires SortedByKey(w) && p <= k < |w|
    requires NatLess(sample, w[p])
    ensures !NatLess(w[k], sample)
  {
    if NatLess(w[k], sample) {
      NatLessTransitive(w[k], sample, w[p]);
      if k == p { NatLessIrreflexive(w[p]); }
    }
  }
}
