/**
 * The JavaScript string operations the application relies on, stated on `seq<char>`:
 * ASCII case mapping, `String.prototype.trim`, `indexOf`, `includes`, `replace`,
 * `slice(0, n)`, `join` and the `<` order on strings.
 */
module Strings {
  import opened Wrappers

  // ---------------------------------------------------------------------------
  // Case mapping (ASCII letters only)
  // ---------------------------------------------------------------------------

  predicate IsLowerLetter(c: char) { 'a' <= c <= 'z' }

  predicate IsUpperLetter(c: char) { 'A' <= c <= 'Z' }

  function UpperChar(c: char): (u: char)
    ensures !IsLowerLetter(u)
    ensures IsLowerLetter(c) ==> u as int == c as int - 32
    ensures !IsLowerLetter(c) ==> u == c
  {
    if IsLowerLetter(c) then (c as int - 32) as char else c
  }

  function LowerChar(c: char): (l: char)
    ensures !IsUpperLetter(l)
    ensures IsUpperLetter(c) ==> l as int == c as int + 32
    ensures !IsUpperLetter(c) ==> l == c
  {
    if IsUpperLetter(c) then (c as int + 32) as char else c
  }

  /** `s.toUpperCase()` on the ASCII letters. */
  function ToUpper(s: string): (r: string)
    ensures |r| == |s|
    ensures forall i :: 0 <= i < |s| ==> r[i] == UpperChar(s[i])
  {
    seq(|s|, i requires 0 <= i < |s| => UpperChar(s[i]))
  }

  /** `s.toLowerCase()` on the ASCII letters. */
  function ToLower(s: string): (r: string)
    ensures |r| == |s|
    ensures forall i :: 0 <= i < |s| ==> r[i] == LowerChar(s[i])
  {
    seq(|s|, i requires 0 <= i < |s| => LowerChar(s[i]))
  }

  /** Upper-casing commutes with slicing. */
  lemma UpperSlice(s: string, a: nat, b: nat)
    requires a <= b <= |s|
    ensures ToUpper(s[a..b]) == ToUpper(s)[a..b]
  {
  }

  /** A string that upper-casing leaves unchanged has no lower-case letter. */
  predicate IsUpperCased(s: string) {
    forall i :: 0 <= i < |s| ==> !IsLowerLetter(s[i])
  }

  lemma UpperIsUpperCased(s: string)
    ensures IsUpperCased(ToUpper(s))
    ensures ToUpper(ToUpper(s)) == ToUpper(s)
  {
  }

  lemma UpperCasedIsFixpoint(s: string)
    requires IsUpperCased(s)
    ensures ToUpper(s) == s
  {
  }

  // ---------------------------------------------------------------------------
  // Substring search: `indexOf`, `includes`
  // ---------------------------------------------------------------------------

  /** `pat` occurs in `s` starting at index `i`. */
  predicate OccursAt(s: string, pat: string, i: nat) {
    i + |pat| <= |s| && s[i..i + |pat|] == pat
  }

  /** `s.includes(pat)`. */
  predicate Contains(s: string, pat: string) {
    exists i :: 0 <= i <= |s| && OccursAt(s, pat, i)
  }

  /** `s.indexOf(pat, from)`, with JavaScript's -1 rendered as `None`. */
  function IndexOf(s: string, pat: string, from: nat): (r: Option<nat>)
    decreases |s| - from
    ensures r.Some? ==> from <= r.value && OccursAt(s, pat, r.value)
    ensures r.Some? ==> forall j :: from <= j < r.value ==> !OccursAt(s, pat, j)
    ensures r.None? <==> forall j :: from <= j ==> !OccursAt(s, pat, j)
  {
    if from + |pat| > |s| then None
    else if OccursAt(s, pat, from) then Some(from)
    else IndexOf(s, pat, from + 1)
  }

  /** The search from `from` finds the first occurrence at or after `from`. */
  lemma IndexOfAt(s: string, pat: string, from: nat, i: nat)
    requires from <= i && OccursAt(s, pat, i)
    requires forall j :: from <= j < i ==> !OccursAt(s, pat, j)
    ensures IndexOf(s, pat, from) == Some(i)
  {
  }

  lemma IndexOfFindsContains(s: string, pat: string)
    ensures IndexOf(s, pat, 0).Some? <==> Contains(s, pat)
  {
    var r := IndexOf(s, pat, 0);
    if r.Some? {
      assert OccursAt(s, pat, r.value);
    }
  }

  /** Upper-casing keeps every occurrence of an upper-cased pattern. */
  lemma ContainsUpper(s: string, pat: string)
    requires IsUpperCased(pat)
    requires Contains(s, pat)
    ensures Contains(ToUpper(s), pat)
  {
    var i :| 0 <= i <= |s| && OccursAt(s, pat, i);
    assert ToUpper(s)[i..i + |pat|] == ToUpper(s[i..i + |pat|]);
    UpperCasedIsFixpoint(pat);
    assert OccursAt(ToUpper(s), pat, i);
  }

  // ---------------------------------------------------------------------------
  // `String.prototype.trim`
  // ---------------------------------------------------------------------------

  /** ECMAScript WhiteSpace and LineTerminator code points. */
  predicate IsSpace(c: char) {
    || c == '\t' || c == '\n' || c == '\U{000B}' || c == '\U{000C}' || c == '\r'
    || c == ' ' || c == '\U{00A0}' || c == '\U{1680}'
    || ('\U{2000}' <= c <= '\U{200A}')
    || c == '\U{2028}' || c == '\U{2029}' || c == '\U{202F}' || c == '\U{205F}'
    || c == '\U{3000}' || c == '\U{FEFF}'
  }

  /** Every character of `s` at an index in `[lo, hi)` is white space. */
  predicate SpaceBetween(s: string, lo: int, hi: int) {
    forall i :: lo <= i < hi && 0 <= i < |s| ==> IsSpace(s[i])
  }

  /** How many white-space characters `trim` removes from the front of `s`. */
  function TrimOffset(s: string): (k: nat)
    ensures k <= |s| && SpaceBetween(s, 0, k)
    ensures k < |s| ==> !IsSpace(s[k])
  {
    if |s| > 0 && IsSpace(s[0]) then 1 + TrimOffset(s[1..]) else 0
  }

  /** The index just after the last character of `s` that is not white space, or 0. */
  function TrimEndIndex(s: string): (e: nat)
    ensures e <= |s| && SpaceBetween(s, e, |s|)
    ensures e > 0 ==> !IsSpace(s[e - 1])
  {
    if |s| > 0 && IsSpace(s[|s| - 1]) then TrimEndIndex(s[..|s| - 1]) else |s|
  }

  /** `s.trim()`: the longest slice of `s` with no white space at either end. */
  function Trim(s: string): (r: string)
    ensures r == [] || (!IsSpace(r[0]) && !IsSpace(r[|r| - 1]))
  {
    var a, e := TrimOffset(s), TrimEndIndex(s);
    if a < e then s[a..e] else []
  }

  /** What trimming removes is white space, and what it keeps is one slice of `s`. */
  lemma TrimSlice(s: string)
    ensures TrimOffset(s) + |Trim(s)| <= |s|
    ensures Trim(s) == s[TrimOffset(s)..TrimOffset(s) + |Trim(s)|]
    ensures SpaceBetween(s, 0, TrimOffset(s)) && SpaceBetween(s, TrimOffset(s) + |Trim(s)|, |s|)
  {
    var a, e := TrimOffset(s), TrimEndIndex(s);
    if a >= e {
      assert SpaceBetween(s, 0, |s|) by {
        forall i | 0 <= i < |s| ensures IsSpace(s[i]) { if a <= i { assert e <= i; } }
      }
    }
  }

  /** Trimming yields the empty string exactly when `s` is all white space. */
  lemma TrimEmpty(s: string)
    ensures Trim(s) == [] <==> SpaceBetween(s, 0, |s|)
  {
    TrimSlice(s);
    if Trim(s) != [] {
      assert Trim(s)[0] == s[TrimOffset(s)];
    }
  }

  lemma TrimIdempotent(s: string)
    ensures Trim(Trim(s)) == Trim(s)
  {
    var r := Trim(s);
    if r != [] {
      TrimOfUnpadded(r);
    }
  }

  /** A string with no white space at either end is its own trim. */
  lemma TrimOfUnpadded(s: string)
    requires |s| > 0 && !IsSpace(s[0]) && !IsSpace(s[|s| - 1])
    ensures Trim(s) == s && TrimOffset(s) == 0
  {
    assert s[..|s|] == s;
  }

  /** A character that is not white space survives trimming, at its index less the removed prefix. */
  lemma TrimKeepsInner(s: string, i: nat)
    requires i < |s| && !IsSpace(s[i])
    ensures TrimOffset(s) <= i < TrimOffset(s) + |Trim(s)|
    ensures Trim(s)[i - TrimOffset(s)] == s[i]
  {
    var a, e := TrimOffset(s), TrimEndIndex(s);
    assert a <= i < e;
    assert Trim(s) == s[a..e];
  }

  /** Trimming keeps only characters of the input. */
  lemma TrimKeepsChars(s: string, c: char)
    requires c in Trim(s)
    ensures c in s
  {
    var r := Trim(s);
    var k :| 0 <= k < |r| && r[k] == c;
    TrimSlice(s);
    assert s[TrimOffset(s) + k] == c;
  }

  // ---------------------------------------------------------------------------
  // `replace` with a one-character string pattern: first occurrence only
  // ---------------------------------------------------------------------------

  /** The index of the first `c` in `s`, or `|s|` when there is none. */
  function FirstIndex(s: string, c: char): (k: nat)
    ensures k <= |s|
    ensures k < |s| ==> s[k] == c
    ensures forall i :: 0 <= i < k ==> s[i] != c
    ensures k == |s| <==> c !in s
  {
    if s == [] then 0 else if s[0] == c then 0 else 1 + FirstIndex(s[1..], c)
  }

  /** `s.replace(c, d)` where `c` and `d` are one-character strings: only the first `c` changes. */
  function ReplaceFirst(s: string, c: char, d: char): (r: string)
    ensures |r| == |s|
    ensures forall i :: 0 <= i < |s| ==> r[i] == if i == FirstIndex(s, c) then d else s[i]
  {
    var k := FirstIndex(s, c);
    if k == |s| then s else s[..k] + [d] + s[k + 1..]
  }

  /** Replaces every occurrence of `c` by the string `sub` (a global `replace`). */
  function ReplaceAll(s: string, c: char, sub: string): (r: string)
    ensures c !in sub ==> c !in r
    ensures c !in s ==> r == s
  {
    if s == [] then [] else (if s[0] == c then sub else [s[0]]) + ReplaceAll(s[1..], c, sub)
  }

  // ---------------------------------------------------------------------------
  // `slice(0, n)`, `join`
  // ---------------------------------------------------------------------------

  /** `s.slice(0, n)`: the first `n` characters, or all of `s` when it is shorter. */
  function Prefix(s: string, n: nat): (r: string)
    ensures |r| == if |s| < n then |s| else n
    ensures r == s[..|r|]
  {
    if |s| <= n then s else s[..n]
  }

  /** `parts.join(sep)`. */
  function Join(parts: seq<string>, sep: string): string
  {
    if |parts| == 0 then ""
    else if |parts| == 1 then parts[0]
    else parts[0] + sep + Join(parts[1..], sep)
  }

  // ---------------------------------------------------------------------------
  // `a < b` on strings: lexicographic order of the characters
  // ---------------------------------------------------------------------------

  predicate Less(a: string, b: string) {
    if |a| == 0 then |b| > 0
    else if |b| == 0 then false
    else if a[0] != b[0] then a[0] < b[0]
    else Less(a[1..], b[1..])
  }

  /** No string is below itself. */
  lemma {:induction false} LessIrreflexive(a: string)
    ensures !Less(a, a)
  {
    if |a| > 0 { LessIrreflexive(a[1..]); }
  }

  /** The order is transitive. */
  lemma {:induction false} LessTransitive(a: string, b: string, c: string)
    requires Less(a, b) && Less(b, c)
    ensures Less(a, c)
  {
    if |a| > 0 && |b| > 0 && |c| > 0 && a[0] == b[0] && b[0] == c[0] {
      LessTransitive(a[1..], b[1..], c[1..]);
    }
  }

  /** Two different strings are ordered one way or the other. */
  lemma {:induction false} LessTotal(a: string, b: string)
    requires a != b
    ensures Less(a, b) || Less(b, a)
  {
    if |a| > 0 && |b| > 0 && a[0] == b[0] {
      assert a == [a[0]] + a[1..] && b == [b[0]] + b[1..];
      LessTotal(a[1..], b[1..]);
    }
  }

  /** Two strings are never ordered both ways. */
  lemma {:induction false} LessAsymmetric(a: string, b: string)
    requires Less(a, b)
    ensures !Less(b, a)
  {
    if |a| > 0 && |b| > 0 && a[0] == b[0] {
      LessAsymmetric(a[1..], b[1..]);
    }
  }

  /** If `a` is below `c`, any `b` is above `a` or below `c`. */
  lemma LessNegativeTransitive(a: string, b: string, c: string)
    requires Less(a, c)
    ensures Less(a, b) || Less(b, c)
  {
    if a != b {
      LessTotal(a, b);
      if Less(b, a) { LessTransitive(b, a, c); }
    }
  }
}
