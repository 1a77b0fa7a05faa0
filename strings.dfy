/** The small pieces of Python's str and os.path behaviour that the organizer
    relies on, restricted to ASCII: case folding, str.isdigit, str.strip, the
    `in` operator on strings, decimal formatting and parsing, and the extension
    part of os.path.splitext applied to a bare file name. */
module Strings {

  predicate IsDigit(c: char) { '0' <= c <= '9' }

  predicate IsLetter(c: char) { 'a' <= c <= 'z' || 'A' <= c <= 'Z' }

  /** str.isspace() on ASCII: space, \t \n \v \f \r and the separators 0x1C-0x1F */
  predicate IsSpace(c: char) { c == ' ' || 9 <= c as int <= 13 || 28 <= c as int <= 31 }

  predicate AllDigits(s: string) { forall i :: 0 <= i < |s| ==> IsDigit(s[i]) }

  predicate NoDigits(s: string) { forall i :: 0 <= i < |s| ==> !IsDigit(s[i]) }

  predicate AllSpace(s: string) { forall i :: 0 <= i < |s| ==> IsSpace(s[i]) }

  predicate NoUpper(s: string) { forall i :: 0 <= i < |s| ==> !('A' <= s[i] <= 'Z') }

  function Lower(c: char): char { if 'A' <= c <= 'Z' then (c as int + 32) as char else c }

  /** str.lower(): same length, no upper-case letter left, digits untouched */
  function LowerStr(s: string): (r: string)
    ensures |r| == |s| && NoUpper(r)
    ensures forall i :: 0 <= i < |s| ==> (IsDigit(r[i]) <==> IsDigit(s[i]))
  {
    seq(|s|, i requires 0 <= i < |s| => Lower(s[i]))
  }

  // ---------------------------------------------------------------- str.strip()

  function LeadingSpaces(s: string): (k: nat)
    ensures k <= |s| && AllSpace(s[..k]) && (k < |s| ==> !IsSpace(s[k]))
  {
    if s != [] && IsSpace(s[0]) then
      var k := 1 + LeadingSpaces(s[1..]);
      assert s[..k] == [s[0]] + s[1..][..k - 1];
      k
    else 0
  }

  function TrailingSpaces(s: string): (k: nat)
    ensures k <= |s| && AllSpace(s[|s| - k..]) && (k < |s| ==> !IsSpace(s[|s| - k - 1]))
  {
    if s != [] && IsSpace(s[|s| - 1]) then
      var k := 1 + TrailingSpaces(s[..|s| - 1]);
      assert s[|s| - k..] == s[..|s| - 1][|s| - k..] + [s[|s| - 1]];
      k
    else 0
  }

  /** str.strip(): s is whitespace, then the result, then whitespace, and the
      result neither starts nor ends with whitespace */
  function Strip(s: string): (r: string)
  {
    var t := s[LeadingSpaces(s)..];
    t[..|t| - TrailingSpaces(t)]
  }

  lemma StripSpec(s: string)
    ensures var r := Strip(s);
    (r == [] <==> AllSpace(s)) &&
    (r != [] ==> !IsSpace(r[0]) && !IsSpace(r[|r| - 1])) &&
    AllSpace(s[..LeadingSpaces(s)]) && r <= s[LeadingSpaces(s)..] &&
    AllSpace(s[LeadingSpaces(s) + |r|..])
  {
    StripSlices(s);
    StripBlank(s);
  }

  /** what strip() keeps is a prefix of what follows the leading blanks,
      and only blanks come after it */
  lemma StripSlices(s: string)
    ensures var r := Strip(s);
      r <= s[LeadingSpaces(s)..] && AllSpace(s[LeadingSpaces(s) + |r|..]) &&
      (r != [] ==> !IsSpace(r[0]) && !IsSpace(r[|r| - 1]))
  {
    var a := LeadingSpaces(s);
    var t := s[a..];
    var b := TrailingSpaces(t);
    var r := t[..|t| - b];
    assert Strip(s) == r;
    assert s[a + |r|..] == t[|t| - b..];
    if r != [] {
      assert r[0] == s[a];
    }
  }

  /** strip() gives nothing exactly when s is all blanks */
  lemma StripBlank(s: string)
    ensures Strip(s) == [] <==> AllSpace(s)
  {
    var a := LeadingSpaces(s);
    var t := s[a..];
    var r := t[..|t| - TrailingSpaces(t)];
    assert Strip(s) == r;
    if r == [] {
      // the leading blanks already cover all of s
      assert a == |s| && s[..a] == s;
    } else {
      assert r[0] == s[a];
    }
  }

  // ------------------------------------------------------- the `in` operator

  /** `needle in hay` for Python strings: needle occurs at some offset of hay */
  predicate Contains(hay: string, needle: string)
    decreases |hay|
  {
    needle <= hay || (hay != [] && Contains(hay[1..], needle))
  }

  lemma {:induction false} ContainsAt(hay: string, needle: string)
    ensures Contains(hay, needle) <==>
      exists i :: 0 <= i <= |hay| - |needle| && needle <= hay[i..]
    decreases |hay|
  {
    assert hay[0..] == hay;
    if hay != [] {
      ContainsAt(hay[1..], needle);
      if Contains(hay[1..], needle) && !(needle <= hay) {
        var i :| 0 <= i <= |hay[1..]| - |needle| && needle <= hay[1..][i..];
        assert hay[1..][i..] == hay[i + 1..];
      }
      if i :| 0 <= i <= |hay| - |needle| && needle <= hay[i..] {
        if i > 0 { assert hay[i..] == hay[1..][i - 1..]; }
      }
    }
  }

  // ----------------------------------------------- decimal text and int()

  function DigitChar(d: nat): char
    requires d < 10
  {
    ('0' as int + d) as char
  }

  function DigitValue(c: char): nat
    requires IsDigit(c)
  {
    c as int - '0' as int
  }

  /** f"{n}" / str(n) for a non-negative int */
  function Decimal(n: nat): (r: string)
    ensures r != [] && AllDigits(r)
  {
    if n < 10 then [DigitChar(n)] else Decimal(n / 10) + [DigitChar(n % 10)]
  }

  /** int(s) for a string of ASCII digits */
  function DecVal(s: string): nat
    requires AllDigits(s)
  {
    if s == [] then 0 else DecVal(s[..|s| - 1]) * 10 + DigitValue(s[|s| - 1])
  }

  lemma {:induction false} DecimalRoundTrip(n: nat)
    ensures DecVal(Decimal(n)) == n
  {
    if n >= 10 {
      DecimalRoundTrip(n / 10);
      var s := Decimal(n);
      assert s[..|s| - 1] == Decimal(n / 10);
    }
  }

  function Pow10(k: nat): nat { if k == 0 then 1 else 10 * Pow10(k - 1) }

  /** n has at most k decimal digits exactly when n < 10^k */
  lemma {:induction false} DecimalWidth(n: nat, k: nat)
    requires k >= 1
    ensures |Decimal(n)| <= k <==> n < Pow10(k)
  {
    if n >= 10 {
      if k == 1 {
        assert Pow10(1) == 10;
      } else {
        DecimalWidth(n / 10, k - 1);
        assert n / 10 < Pow10(k - 1) <==> n < 10 * Pow10(k - 1);
      }
    } else {
      PowAtLeastTen(k);
    }
  }

  lemma {:induction false} PowAtLeastTen(k: nat)
    requires k >= 1
    ensures Pow10(k) >= 10
  {
    if k > 1 { PowAtLeastTen(k - 1); }
  }

  /** f"{n:06d}": zero-padded to six digits, wider when n needs more */
  function Pad6(n: nat): (r: string)
    ensures AllDigits(r) && |r| >= 6
  {
    ZeroPad(Decimal(n), 6)
  }

  /** d with '0's put in front until it is w characters wide */
  function ZeroPad(d: string, w: nat): (r: string)
    requires AllDigits(d)
    ensures AllDigits(r) && |r| == if |d| >= w then |d| else w
    decreases w - |d|
  {
    if |d| >= w then d else ZeroPad(['0'] + d, w)
  }

  /** a leading '0' does not change the value */
  lemma {:induction false} DecValLeadingZero(s: string)
    requires AllDigits(s)
    ensures DecVal(['0'] + s) == DecVal(s)
    decreases |s|
  {
    if s != [] {
      DecValLeadingZero(s[..|s| - 1]);
      assert (['0'] + s)[..|s|] == ['0'] + s[..|s| - 1];
    }
  }

  lemma {:induction false} DecValZeroPad(d: string, w: nat)
    requires AllDigits(d)
    ensures DecVal(ZeroPad(d, w)) == DecVal(d)
    decreases w - |d|
  {
    if |d| < w {
      DecValZeroPad(['0'] + d, w);
      DecValLeadingZero(d);
    }
  }

  /** the counter written by f"{n:06d}" reads back as n */
  lemma Pad6RoundTrip(n: nat)
    ensures DecVal(Pad6(n)) == n
  {
    DecimalRoundTrip(n);
    DecValZeroPad(Decimal(n), 6);
  }

  /** f"{n:06d}" is exactly six characters wide below 1,000,000 and wider from there on */
  lemma Pad6Width(n: nat)
    ensures |Pad6(n)| == 6 <==> n < 1000000
  {
    DecimalWidth(n, 6);
    assert Pow10(6) == 1000000;
  }

  // --------------------------------------------------- os.path.splitext

  /** index of the last '.' in s, or -1 */
  function LastDot(s: string): (d: int)
    ensures -1 <= d < |s|
    ensures d >= 0 ==> s[d] == '.'
    ensures forall i :: d < i < |s| ==> s[i] != '.'
  {
    if s == [] then -1 else if s[|s| - 1] == '.' then |s| - 1 else LastDot(s[..|s| - 1])
  }

  predicate HasNonDot(s: string) { exists i :: 0 <= i < |s| && s[i] != '.' }

  /** shape of every extension: empty, or a '.' followed by no other '.' */
  predicate IsExt(e: string) { e == [] || (e[0] == '.' && forall i :: 1 <= i < |e| ==> e[i] != '.') }

  /** os.path.splitext(name)[1] for a name without directory separators:
      from the last '.', provided some character before it is not a '.'
      (leading dots do not start an extension) */
  function Ext(name: string): (e: string)
    ensures IsExt(e)
    ensures |e| <= |name| && name[|name| - |e|..] == e
    ensures e != [] ==> HasNonDot(name[..|name| - |e|])
    ensures e != [] <==> exists i, j :: 0 <= i < j < |name| && name[i] != '.' && name[j] == '.'
  {
    var d := LastDot(name);
    ExtExists(name, d);
    if d >= 1 && HasNonDot(name[..d]) then name[d..] else ""
  }

  /** a non-dot character followed later by a '.' exists exactly when the
      last '.' has a non-dot character before it */
  lemma ExtExists(name: string, d: int)
    requires d == LastDot(name)
    ensures (d >= 1 && HasNonDot(name[..d])) <==>
      exists i, j :: 0 <= i < j < |name| && name[i] != '.' && name[j] == '.'
  {
    if i, j :| 0 <= i < j < |name| && name[i] != '.' && name[j] == '.' {
      assert j <= d;
      assert name[..d][i] == name[i];
    }
    if d >= 1 && HasNonDot(name[..d]) {
      var i :| 0 <= i < |name[..d]| && name[..d][i] != '.';
      assert name[i] != '.' && name[d] == '.';
    }
  }

  /** a digit string followed by an extension has exactly that extension */
  lemma ExtAfterDigits(d: string, e: string)
    requires d != [] && AllDigits(d) && IsExt(e)
    ensures Ext(d + e) == e
  {
    var s := d + e;
    var x := LastDot(s);
    if e == [] {
      assert s == d;
    } else {
      assert s[|d|] == '.';
      assert forall i :: |d| < i < |s| ==> s[i] == e[i - |d|];
      assert s[..x] == d && d[0] != '.';
      assert s[x..] == e;
    }
  }
}
