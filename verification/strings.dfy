/** The JavaScript string operations the application relies on, stated over `seq<char>`:
    `indexOf`, `includes`, `substring`, `trim`, `slice`, `split(...)[0]`, `join` and the decimal
    rendering of a page number inside a template literal. */
module Strings {

  /** `p` is a prefix of `s`. */
  predicate IsPrefix(p: string, s: string) {
    |p| <= |s| && s[..|p|] == p
  }

  /** `pat` occurs in `s` starting at position `i`. */
  predicate OccursAt(s: string, pat: string, i: int) {
    0 <= i && i + |pat| <= |s| && s[i..i + |pat|] == pat
  }

  /** `pat` occurs somewhere in `s`. */
  predicate Occurs(s: string, pat: string) {
    exists i :: 0 <= i <= |s| && OccursAt(s, pat, i)
  }

  /** The first position at or after `from` where `pat` occurs, or -1. */
  function IndexFrom(s: string, pat: string, from: nat): (r: int)
    ensures r == -1 || (from <= r <= |s| && OccursAt(s, pat, r))
    ensures r == -1 ==> forall j :: from <= j <= |s| ==> !OccursAt(s, pat, j)
    ensures r != -1 ==> forall j :: from <= j < r ==> !OccursAt(s, pat, j)
    decreases |s| + 1 - from
  {
    if from > |s| then -1
    else if OccursAt(s, pat, from) then from
    else IndexFrom(s, pat, from + 1)
  }

  /** JavaScript `s.indexOf(pat)`: the first occurrence, or -1 when there is none. */
  function IndexOf(s: string, pat: string): (r: int)
    ensures r == -1 <==> !Occurs(s, pat)
    ensures r != -1 ==> 0 <= r <= |s| && OccursAt(s, pat, r)
    ensures r != -1 ==> forall j :: 0 <= j < r ==> !OccursAt(s, pat, j)
  {
    IndexFrom(s, pat, 0)
  }

  /** The first occurrence is the one position where `pat` occurs with no occurrence before it. */
  lemma IndexOfIs(s: string, pat: string, i: int)
    requires OccursAt(s, pat, i)
    requires forall j :: 0 <= j < i ==> !OccursAt(s, pat, j)
    ensures IndexOf(s, pat) == i
  {
  }

  /** A pattern that occurs nowhere has index -1. */
  lemma IndexOfAbsent(s: string, pat: string)
    requires forall j :: 0 <= j <= |s| ==> !OccursAt(s, pat, j)
    ensures IndexOf(s, pat) == -1
  {
  }

  /** JavaScript `s.includes(pat)`. */
  predicate Includes(s: string, pat: string) {
    IndexOf(s, pat) != -1
  }

  function Clamp(x: int, lo: int, hi: int): (r: int)
    requires lo <= hi
    ensures lo <= r <= hi
    ensures lo <= x <= hi ==> r == x
  {
    if x < lo then lo else if x > hi then hi else x
  }

  /** JavaScript `s.substring(a, b)`: both bounds are clamped into [0, |s|] (a negative index becomes 0)
      and the smaller one is taken as the start. */
  function Substring(s: string, a: int, b: int): (r: string)
    ensures |r| <= |s|
    ensures 0 <= a <= b <= |s| ==> r == s[a..b]
    ensures a < 0 && 0 <= b <= |s| ==> r == s[..b]
    ensures 0 <= b <= a <= |s| ==> r == s[b..a]
    ensures 0 <= a <= |s| < b ==> r == s[a..]
    ensures 0 <= b <= |s| < a ==> r == s[b..]
    ensures b < 0 && 0 <= a <= |s| ==> r == s[..a]
    ensures (a < 0 && b > |s|) || (b < 0 && a > |s|) ==> r == s
    ensures (a < 0 && b < 0) || (a > |s| && b > |s|) ==> r == ""
  {
    var lo := Clamp(a, 0, |s|);
    var hi := Clamp(b, 0, |s|);
    if lo <= hi then s[lo..hi] else s[hi..lo]
  }

  /** The characters JavaScript's `trim` and the regular-expression class `\s` treat as white space:
      WhiteSpace and LineTerminator of section 12.2 and 12.3 of ECMA-262. */
  predicate IsWhite(c: char) {
    || c == ' ' || c == '\t' || c == '\n' || c == '\r' || c == '\U{000B}' || c == '\U{000C}'
    || c == '\U{00A0}' || c == '\U{1680}' || ('\U{2000}' <= c <= '\U{200A}')
    || c == '\U{2028}' || c == '\U{2029}' || c == '\U{202F}' || c == '\U{205F}'
    || c == '\U{3000}' || c == '\U{FEFF}'
  }

  predicate AllWhite(s: string) {
    forall i :: 0 <= i < |s| ==> IsWhite(s[i])
  }

  /** Leading white space removed: the longest suffix of `s` that does not start with white space. */
  function TrimStart(s: string): (r: string)
    ensures |r| <= |s| && r == s[|s| - |r|..]
    ensures AllWhite(s[..|s| - |r|])
    ensures |r| == 0 || !IsWhite(r[0])
  {
    if |s| > 0 && IsWhite(s[0]) then TrimStart(s[1..]) else s
  }

  /** Trailing white space removed: the longest prefix of `s` that does not end with white space. */
  function TrimEnd(s: string): (r: string)
    ensures |r| <= |s| && r == s[..|r|]
    ensures AllWhite(s[|r|..])
    ensures |r| == 0 || !IsWhite(r[|r| - 1])
  {
    if |s| > 0 && IsWhite(s[|s| - 1]) then TrimEnd(s[..|s| - 1]) else s
  }

  /** JavaScript `s.trim()`. */
  function Trim(s: string): (r: string)
    ensures |r| <= |s|
    ensures |r| == 0 || (!IsWhite(r[0]) && !IsWhite(r[|r| - 1]))
    ensures AllWhite(s) <==> |r| == 0
  {
    var t := TrimStart(s);
    var u := TrimEnd(t);
    assert AllWhite(s) ==> |t| == 0;
    assert |u| == 0 ==> AllWhite(s) by {
      assert |u| == 0 ==> s[..|s| - |t|] == s;
    }
    u
  }

  /** `r` is what is left of `s` once `i` white characters are cut from the front and the rest of
      the surplus, also white, from the back. */
  predicate WhitePadded(s: string, r: string, i: int) {
    0 <= i <= |s| - |r| && r == s[i..i + |r|] && AllWhite(s[..i]) && AllWhite(s[i + |r|..])
  }

  /** What `trim` removes is white space at the two ends and nothing else. */
  lemma TrimIsSlice(s: string)
    ensures exists i :: WhitePadded(s, Trim(s), i)
  {
    var t := TrimStart(s);
    var u := TrimEnd(t);
    var i := |s| - |t|;
    assert t == s[i..];
    assert u == t[..|u|];
    SliceOfSlice(s, i, |u|);
    assert u == s[i..i + |u|];
    assert t[|u|..] == s[i + |u|..];
    assert u == Trim(s);
    assert WhitePadded(s, u, i);
  }

  lemma SliceOfSlice<T>(s: seq<T>, i: nat, k: nat)
    requires i + k <= |s|
    ensures s[i..][..k] == s[i..i + k] && s[i..][k..] == s[i + k..]
  {
  }

  /** Text that neither starts nor ends with white space is its own trim. */
  lemma TrimUnpadded(s: string)
    requires |s| == 0 || (!IsWhite(s[0]) && !IsWhite(s[|s| - 1]))
    ensures Trim(s) == s
  {
  }

  /** JavaScript `s.slice(n)` for `n >= 0`. */
  function Drop(s: string, n: nat): (r: string)
    ensures |r| == if n <= |s| then |s| - n else 0
  {
    if n <= |s| then s[n..] else []
  }

  /** The longest prefix of `s` none of whose characters is in `stops`. */
  function TakeUntil(s: string, stops: set<char>): (r: string)
    ensures IsPrefix(r, s)
    ensures forall i :: 0 <= i < |r| ==> r[i] !in stops
    ensures |r| < |s| ==> s[|r|] in stops
  {
    if |s| == 0 || s[0] in stops then [] else [s[0]] + TakeUntil(s[1..], stops)
  }

  /** JavaScript `s.split(c)[0]`: the text before the first `c`, or all of `s`. */
  function BeforeFirst(s: string, c: char): (r: string)
    ensures IsPrefix(r, s)
    ensures c !in r
    ensures |r| < |s| ==> s[|r|] == c
  {
    TakeUntil(s, {c})
  }

  /** JavaScript `parts.join(sep)`. */
  function Join(parts: seq<string>, sep: string): (r: string)
    ensures |parts| == 0 ==> r == ""
    ensures |parts| == 1 ==> r == parts[0]
  {
    if |parts| == 0 then ""
    else if |parts| == 1 then parts[0]
    else Join(parts[..|parts| - 1], sep) + sep + parts[|parts| - 1]
  }

  /** Joining two non-empty runs of parts puts one separator between their joins. */
  lemma {:induction false} JoinConcat(a: seq<string>, b: seq<string>, sep: string)
    requires |a| > 0 && |b| > 0
    ensures Join(a + b, sep) == Join(a, sep) + sep + Join(b, sep)
  {
    var ab := a + b;
    if |b| == 1 {
      assert ab[..|ab| - 1] == a;
    } else {
      var init := b[..|b| - 1];
      assert ab[..|ab| - 1] == a + init;
      JoinConcat(a, init, sep);
    }
  }

  function SumLengths(parts: seq<string>): nat {
    if |parts| == 0 then 0 else SumLengths(parts[..|parts| - 1]) + |parts[|parts| - 1]|
  }

  /** A join holds every part once and one separator between each neighbouring pair. */
  lemma {:induction false} JoinLength(parts: seq<string>, sep: string)
    requires |parts| > 0
    ensures |Join(parts, sep)| == SumLengths(parts) + (|parts| - 1) * |sep|
  {
    if |parts| > 1 {
      var init, k := parts[..|parts| - 1], |parts| - 1;
      JoinLength(init, sep);
      assert |Join(parts, sep)| == |Join(init, sep)| + |sep| + |parts[k]|;
      assert SumLengths(parts) == SumLengths(init) + |parts[k]|;
      MulStep(k, |sep|);
    }
  }

  lemma MulStep(k: int, n: int)
    ensures (k - 1) * n + n == k * n
  {
  }

  predicate IsDigit(c: char) {
    '0' <= c <= '9'
  }

  function DigitChar(d: nat): (c: char)
    requires d < 10
    ensures IsDigit(c)
  {
    (48 + d) as char
  }

  function DigitValue(c: char): (d: nat)
    requires IsDigit(c)
    ensures d < 10 && DigitChar(d) == c
  {
    (c as int - 48) as nat
  }

  /** The decimal rendering of a natural number, as in a template literal `${n}`. */
  function NatToString(n: nat): (s: string)
    ensures |s| >= 1
    ensures n >= 10 ==> |s| >= 2
    ensures forall i :: 0 <= i < |s| ==> IsDigit(s[i])
  {
    if n < 10 then [DigitChar(n)] else NatToString(n / 10) + [DigitChar(n % 10)]
  }

  /** Distinct numbers render differently, so a page marker names exactly one page. */
  lemma {:induction false} NatToStringInjective(a: nat, b: nat)
    requires NatToString(a) == NatToString(b)
    ensures a == b
  {
    var sa, sb := NatToString(a), NatToString(b);
    if a >= 10 && b >= 10 {
      assert sa[|sa| - 1] == DigitChar(a % 10) && sb[|sb| - 1] == DigitChar(b % 10);
      assert DigitValue(DigitChar(a % 10)) == a % 10;
      assert sa[..|sa| - 1] == NatToString(a / 10);
      assert sb[..|sb| - 1] == NatToString(b / 10);
      NatToStringInjective(a / 10, b / 10);
    } else if a < 10 && b < 10 {
      assert DigitChar(a) == DigitChar(b);
      assert DigitValue(DigitChar(a)) == a;
    }
  }

  // ----- Lengths as JavaScript counts them -----

  /** The UTF-16 code units JavaScript counts for one character: two for a character outside the
      Basic Multilingual Plane (a surrogate pair), one otherwise. */
  function CodeUnits(c: char): nat {
    if c as int >= 0x1_0000 then 2 else 1
  }

  /** JavaScript `s.length`: the length of `s` in UTF-16 code units. */
  function Utf16Length(s: string): (n: nat)
    ensures |s| <= n <= 2 * |s|
  {
    if |s| == 0 then 0 else Utf16Length(s[..|s| - 1]) + CodeUnits(s[|s| - 1])
  }

  /** Code-unit lengths add up over concatenation. */
  lemma {:induction false} Utf16LengthConcat(a: string, b: string)
    ensures Utf16Length(a + b) == Utf16Length(a) + Utf16Length(b)
  {
    if |b| > 0 {
      var ab := a + b;
      assert ab[..|ab| - 1] == a + b[..|b| - 1];
      Utf16LengthConcat(a, b[..|b| - 1]);
    } else {
      assert a + b == a;
    }
  }

  /** Every character of `s` lies in the Basic Multilingual Plane. */
  predicate Bmp(s: string) {
    forall i :: 0 <= i < |s| ==> s[i] as int < 0x1_0000
  }

  /** On text of the Basic Multilingual Plane JavaScript counts characters. */
  lemma {:induction false} Utf16LengthBmp(s: string)
    requires Bmp(s)
    ensures Utf16Length(s) == |s|
  {
    if |s| > 0 {
      Utf16LengthBmp(s[..|s| - 1]);
    }
  }

  /** JavaScript `s.substring(0, n)` counted in code units, up to a cut inside a surrogate pair: the
      longest prefix of `s` whose UTF-16 length is at most `n`. */
  function PrefixUnits(s: string, n: nat): (r: string)
    ensures IsPrefix(r, s)
    ensures Utf16Length(r) <= n
    ensures |r| < |s| ==> Utf16Length(r) + CodeUnits(s[|r|]) > n
  {
    if |s| == 0 || CodeUnits(s[0]) > n then []
    else
      var rest := PrefixUnits(s[1..], n - CodeUnits(s[0]));
      Utf16LengthConcat([s[0]], rest);
      assert Utf16Length([s[0]]) == CodeUnits(s[0]) by {
        assert [s[0]][..0] == [];
      }
      assert |rest| < |s| - 1 ==> s[1..][|rest|] == s[|rest| + 1];
      [s[0]] + rest
  }

  /** A text within the limit is kept whole. */
  lemma PrefixUnitsShort(s: string, n: nat)
    ensures Utf16Length(s) <= n ==> PrefixUnits(s, n) == s
  {
    var r := PrefixUnits(s, n);
    if |r| < |s| {
      PrefixGrowth(s, |r|);
    }
  }

  /** A prefix followed by one more character counts that character's code units on top. */
  lemma PrefixGrowth(s: string, k: nat)
    requires k < |s|
    ensures Utf16Length(s) >= Utf16Length(s[..k]) + CodeUnits(s[k])
  {
    assert s == s[..k] + [s[k]] + s[k + 1..];
    Utf16LengthConcat(s[..k] + [s[k]], s[k + 1..]);
    Utf16LengthConcat(s[..k], [s[k]]);
    assert Utf16Length([s[k]]) == CodeUnits(s[k]) by {
      assert [s[k]][..0] == [];
    }
  }

  /** On text of the Basic Multilingual Plane the cut is `substring(0, n)` exactly. */
  lemma PrefixUnitsBmp(s: string, n: nat)
    ensures Bmp(s) ==> PrefixUnits(s, n) == Substring(s, 0, n)
  {
    if !Bmp(s) {
      return;
    }
    var r := PrefixUnits(s, n);
    Utf16LengthBmp(r);
    if |r| < |s| {
      assert s[..|r|] == r;
      assert |r| == n;
    } else {
      assert r == s;
      Utf16LengthBmp(s);
    }
  }
}
