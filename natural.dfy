/** natural_key (main/main.py:27-28), the order Python's `<` puts on its
    results, the sort by that key and the SUPPORTED_EXT filter that together
    make up the folder scan of load_folder_contents. */
module Natural {
  import opened Strings

  // ------------------------------------------------ re.split(r'(\d+)', s)

  function NonDigitPrefix(s: string): (k: nat)
    ensures k <= |s| && NoDigits(s[..k]) && (k < |s| ==> IsDigit(s[k]))
  {
    if s == [] || IsDigit(s[0]) then 0
    else
      var k := 1 + NonDigitPrefix(s[1..]);
      assert s[..k] == [s[0]] + s[1..][..k - 1];
      k
  }

  function DigitPrefix(s: string): (k: nat)
    ensures k <= |s| && AllDigits(s[..k]) && (k < |s| ==> !IsDigit(s[k]))
  {
    if s == [] || !IsDigit(s[0]) then 0
    else
      var k := 1 + DigitPrefix(s[1..]);
      assert s[..k] == [s[0]] + s[1..][..k - 1];
      k
  }

  function Concat(chunks: seq<string>): string
  {
    if chunks == [] then "" else chunks[0] + Concat(chunks[1..])
  }

  /** the shape re.split(r'(\d+)', s) gives: odd length, maximal runs of
      digits at the odd positions, digit-free text at the even positions,
      non-empty except possibly at both ends */
  predicate ChunkShape(r: seq<string>)
  {
    |r| % 2 == 1 &&
    (forall i :: 0 <= i < |r| && i % 2 == 0 ==> NoDigits(r[i])) &&
    (forall i :: 0 <= i < |r| && i % 2 == 1 ==> r[i] != [] && AllDigits(r[i])) &&
    (forall i :: 0 < i < |r| - 1 && i % 2 == 0 ==> r[i] != [])
  }

  lemma ChunkShapeCons(text: string, digits: string, tail: seq<string>)
    requires NoDigits(text) && digits != [] && AllDigits(digits)
    requires ChunkShape(tail) && (|tail| > 1 ==> tail[0] != [])
    ensures ChunkShape([text, digits] + tail)
  {
    var r := [text, digits] + tail;
    forall i | 2 <= i < |r| ensures r[i] == tail[i - 2] && (i % 2 == (i - 2) % 2) { }
  }

  lemma ConcatCons(text: string, digits: string, tail: seq<string>)
    ensures Concat([text, digits] + tail) == text + (digits + Concat(tail))
  {
    var r := [text, digits] + tail;
    assert r[1..] == [digits] + tail && r[1..][1..] == tail;
  }

  lemma ConcatHeadPrefix(chunks: seq<string>)
    requires |chunks| > 1 && chunks[1] != []
    ensures Concat(chunks) != []
  {
    assert Concat(chunks) == chunks[0] + Concat(chunks[1..]);
    assert Concat(chunks[1..]) == chunks[1] + Concat(chunks[2..]);
  }

  /** one step of the split: the text before the first digit, the run of
      digits after it, then the chunks of what follows */
  lemma ChunksCons(s: string, t: nat, d: nat, tail: seq<string>)
    requires t == NonDigitPrefix(s) < |s| && d == DigitPrefix(s[t..])
    requires ChunkShape(tail) && Concat(tail) == s[t..][d..]
    requires s[t..][d..] != [] && !IsDigit(s[t..][d..][0]) ==> tail[0] != []
    ensures d > 0
    ensures ChunkShape([s[..t], s[t..][..d]] + tail)
    ensures Concat([s[..t], s[t..][..d]] + tail) == s
  {
    var rest := s[t..];
    assert d > 0;
    assert |tail| > 1 ==> rest[d..] != [] by {
      if |tail| > 1 { ConcatHeadPrefix(tail); }
    }
    assert ChunkShape([s[..t], rest[..d]] + tail) by {
      ChunkShapeCons(s[..t], rest[..d], tail);
    }
    assert Concat([s[..t], rest[..d]] + tail) == s by {
      ConcatCons(s[..t], rest[..d], tail);
      assert s == s[..t] + (rest[..d] + rest[d..]);
    }
  }

  /** re.split(r'(\d+)', s): the chunks have that shape and joined back
      together give s again */
  function Chunks(s: string): (r: seq<string>)
    ensures ChunkShape(r) && Concat(r) == s
    ensures s != [] && !IsDigit(s[0]) ==> r[0] != []
    decreases |s|
  {
    var t := NonDigitPrefix(s);
    if t == |s| then
      assert s[..t] == s;
      [s]
    else
      var d := DigitPrefix(s[t..]);
      var tail := Chunks(s[t..][d..]);
      ChunksCons(s, t, d, tail);
      [s[..t], s[t..][..d]] + tail
  }

  // ------------------------------------------------------------ natural_key

  /** one element of a natural_key list: a lower-cased text chunk or an int */
  datatype KeyPart = Str(s: string) | Int(n: nat)

  /** odd length, str at the even positions (lower case, no digits), int at the odd ones */
  predicate WellFormedKey(k: seq<KeyPart>)
  {
    |k| % 2 == 1 &&
    forall i :: 0 <= i < |k| ==>
      (k[i].Str? <==> i % 2 == 0) && (k[i].Str? ==> NoDigits(k[i].s) && NoUpper(k[i].s))
  }

  /** natural_key(s): `int(c) if c.isdigit() else c.lower()` over the chunks */
  function NaturalKey(name: string): (k: seq<KeyPart>)
    ensures WellFormedKey(k)
    ensures |k| == |Chunks(name)|
  {
    var c := Chunks(name);
    seq(|c|, i requires 0 <= i < |c| =>
      if i % 2 == 0 then Str(LowerStr(c[i])) else Int(DecVal(c[i])))
  }

  // ------------------------------------------------ Python's `<` on keys

  /** `a < b` on Python strings: lexicographic by code point */
  predicate StrLess(a: string, b: string)
    decreases |a|
  {
    if a == [] then b != []
    else b != [] && (if a[0] == b[0] then StrLess(a[1..], b[1..]) else a[0] < b[0])
  }

  /** `<` on two elements of the same Python type */
  predicate PartLess(x: KeyPart, y: KeyPart)
    requires x.Str? == y.Str?
  {
    if x.Str? then StrLess(x.s, y.s) else x.n < y.n
  }

  /** `a < b` on two lists, from position i on: the first unequal elements
      decide, and a list that runs out first is the smaller. Well-formed keys
      have the same type at every common position, so `<` never meets a str
      and an int. */
  predicate KeyLessFrom(a: seq<KeyPart>, b: seq<KeyPart>, i: nat)
    requires WellFormedKey(a) && WellFormedKey(b) && i <= |a| && i <= |b|
    decreases |a| - i
  {
    if i == |a| then i < |b|
    else if i == |b| then false
    else if a[i] == b[i] then KeyLessFrom(a, b, i + 1)
    else PartLess(a[i], b[i])
  }

  /** natural_key(a) < natural_key(b) */
  predicate NatLess(a: string, b: string)
  {
    KeyLessFrom(NaturalKey(a), NaturalKey(b), 0)
  }

  lemma {:induction false} StrLessIrreflexive(a: string)
    ensures !StrLess(a, a)
  {
    if a != [] { StrLessIrreflexive(a[1..]); }
  }

  lemma {:induction false} StrLessTransitive(a: string, b: string, c: string)
    requires StrLess(a, b) && StrLess(b, c)
    ensures StrLess(a, c)
    decreases |a|
  {
    if a != [] && a[0] == b[0] && b[0] == c[0] {
      StrLessTransitive(a[1..], b[1..], c[1..]);
    }
  }

  lemma {:induction false} StrLessTotal(a: string, b: string)
    requires a != b
    ensures StrLess(a, b) || StrLess(b, a)
    decreases |a|
  {
    if a != [] && b != [] && a[0] == b[0] {
      assert a == [a[0]] + a[1..] && b == [b[0]] + b[1..];
      StrLessTotal(a[1..], b[1..]);
    }
  }

  lemma {:induction false} KeyLessIrreflexive(a: seq<KeyPart>, i: nat)
    requires WellFormedKey(a) && i <= |a|
    ensures !KeyLessFrom(a, a, i)
    decreases |a| - i
  {
    if i < |a| { KeyLessIrreflexive(a, i + 1); }
  }

  lemma {:induction false} KeyLessTransitive(a: seq<KeyPart>, b: seq<KeyPart>, c: seq<KeyPart>, i: nat)
    requires WellFormedKey(a) && WellFormedKey(b) && WellFormedKey(c)
    requires i <= |a| && i <= |b| && i <= |c|
    requires KeyLessFrom(a, b, i) && KeyLessFrom(b, c, i)
    ensures KeyLessFrom(a, c, i)
    decreases |a| - i
  {
    if i < |a| && i < |b| && i < |c| {
      if a[i] == b[i] && b[i] == c[i] {
        KeyLessTransitive(a, b, c, i + 1);
      } else if a[i] != b[i] && b[i] != c[i] {
        if a[i].Str? {
          StrLessTransitive(a[i].s, b[i].s, c[i].s);
          StrLessIrreflexive(a[i].s);
        }
      }
    }
  }

  lemma {:induction false} KeyLessTotal(a: seq<KeyPart>, b: seq<KeyPart>, i: nat)
    requires WellFormedKey(a) && WellFormedKey(b) && i <= |a| && i <= |b|
    requires a[i..] != b[i..]
    ensures KeyLessFrom(a, b, i) || KeyLessFrom(b, a, i)
    decreases |a| - i
  {
    if i < |a| && i < |b| {
      if a[i] == b[i] {
        assert a[i..] == [a[i]] + a[i + 1..] && b[i..] == [b[i]] + b[i + 1..];
        KeyLessTotal(a, b, i + 1);
      } else if a[i].Str? {
        StrLessTotal(a[i].s, b[i].s);
      }
    }
  }

  lemma NatLessIrreflexive(a: string)
    ensures !NatLess(a, a)
  {
    KeyLessIrreflexive(NaturalKey(a), 0);
  }

  lemma NatLessTransitive(a: string, b: string, c: string)
    requires NatLess(a, b) && NatLess(b, c)
    ensures NatLess(a, c)
  {
    KeyLessTransitive(NaturalKey(a), NaturalKey(b), NaturalKey(c), 0);
  }

  /** the comparison is total: two names are ordered one way or the other
      unless their keys are equal */
  lemma NatLessTotal(a: string, b: string)
    ensures NatLess(a, b) || NatLess(b, a) || NaturalKey(a) == NaturalKey(b)
  {
    var ka, kb := NaturalKey(a), NaturalKey(b);
    assert ka[0..] == ka && kb[0..] == kb;
    if ka != kb { KeyLessTotal(ka, kb, 0); }
  }

  /** not-less is transitive too, which is what sortedness needs */
  lemma NotLessTransitive(a: string, b: string, c: string)
    requires !NatLess(b, a) && !NatLess(c, b)
    ensures !NatLess(c, a)
  {
    if NatLess(c, a) {
      NatLessTotal(a, b);
      if NatLess(a, b) {
        NatLessTransitive(c, a, b);
      }
    }
  }

  // --------------------------------------------------- files.sort(key=natural_key)

  predicate SortedByKey(s: seq<string>)
  {
    forall i, j :: 0 <= i < j < |s| ==> !NatLess(s[j], s[i])
  }

  lemma SortedCons(x: string, t: seq<string>)
    requires SortedByKey(t)
    requires forall y :: y in t ==> !NatLess(y, x)
    ensures SortedByKey([x] + t)
  {
    var r := [x] + t;
    forall i, j | 0 <= i < j < |r| ensures !NatLess(r[j], r[i]) {
      assert r[j] == t[j - 1];
      if i > 0 { assert r[i] == t[i - 1]; }
    }
  }

  lemma SmallerThanSorted(x: string, s: seq<string>)
    requires SortedByKey(s) && s != [] && NatLess(x, s[0])
    ensures forall y :: y in s ==> !NatLess(y, x)
  {
    forall y | y in s ensures !NatLess(y, x) {
      if NatLess(y, x) {
        var j :| 0 <= j < |s| && s[j] == y;
        NatLessTransitive(y, x, s[0]);
        if j == 0 { NatLessIrreflexive(y); }
      }
    }
  }

  /** x goes before the first element whose key is greater than its own */
  function InsertByKey(x: string, s: seq<string>): (r: seq<string>)
    ensures multiset(r) == multiset(s) + multiset{x}
  {
    if s == [] then [x]
    else if NatLess(x, s[0]) then [x] + s
    else
      assert s == [s[0]] + s[1..];
      [s[0]] + InsertByKey(x, s[1..])
  }

  /** every element of a sorted list's tail, and anything not smaller than its head, is not smaller than the head */
  lemma HeadBelowInsert(x: string, s: seq<string>)
    requires SortedByKey(s) && s != [] && !NatLess(x, s[0])
    ensures forall y :: y in InsertByKey(x, s[1..]) ==> !NatLess(y, s[0])
  {
    var t := InsertByKey(x, s[1..]);
    forall y | y in t ensures !NatLess(y, s[0]) {
      assert y in multiset(t);
      if y != x {
        assert y in multiset(s[1..]);
        var j :| 1 <= j < |s| && s[j] == y;
      }
    }
  }

  lemma {:induction false} InsertByKeySorted(x: string, s: seq<string>)
    requires SortedByKey(s)
    ensures SortedByKey(InsertByKey(x, s))
  {
    if s == [] {
    } else if NatLess(x, s[0]) {
      SmallerThanSorted(x, s);
      SortedCons(x, s);
    } else {
      assert SortedByKey(s[1..]);
      InsertByKeySorted(x, s[1..]);
      HeadBelowInsert(x, s);
      SortedCons(s[0], InsertByKey(x, s[1..]));
    }
  }

  /** a stable insertion sort: ordered by natural_key, and a permutation */
  function SortByKey(s: seq<string>): (r: seq<string>)
    ensures multiset(r) == multiset(s) && SortedByKey(r)
  {
    if s == [] then []
    else
      assert s == s[..|s| - 1] + [s[|s| - 1]];
      InsertByKeySorted(s[|s| - 1], SortByKey(s[..|s| - 1]));
      InsertByKey(s[|s| - 1], SortByKey(s[..|s| - 1]))
  }

  // ------------------------------------- SUPPORTED_EXT and the folder scan

  const SupportedExt: set<string> := {".jpg", ".jpeg", ".png", ".bmp", ".gif", ".tiff", ".webp", ".tif"}

  /** os.path.splitext(f)[1].lower() in SUPPORTED_EXT */
  predicate IsSupported(name: string)
  {
    LowerStr(Ext(name)) in SupportedExt
  }

  /** the list comprehension: each supported name as often as listed, in listing order */
  function SupportedNames(listing: seq<string>): (r: seq<string>)
    ensures forall n :: multiset(r)[n] == if IsSupported(n) then multiset(listing)[n] else 0
  {
    if listing == [] then []
    else
      assert listing == [listing[0]] + listing[1..];
      (if IsSupported(listing[0]) then [listing[0]] else []) + SupportedNames(listing[1..])
  }

  /** the names load_folder_contents shows for a directory listing: exactly the
      listed names with a supported extension, ordered by natural_key */
  function ImageFiles(listing: seq<string>): (r: seq<string>)
    ensures SortedByKey(r)
    ensures forall n :: multiset(r)[n] == if IsSupported(n) then multiset(listing)[n] else 0
    ensures forall n :: n in r <==> n in listing && IsSupported(n)
  {
    var r := SortByKey(SupportedNames(listing));
    assert forall n :: n in r <==> multiset(r)[n] > 0;
    assert forall n :: n in listing <==> multiset(listing)[n] > 0;
    r
  }
}
