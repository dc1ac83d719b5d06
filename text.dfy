/**
 * The JavaScript string primitives the electives core relies on, over
 * `string` (a sequence of Unicode scalar values):
 * `indexOf`, `includes`, `trim`, the regular-expression class `\s`,
 * `toLowerCase` (ASCII letters only), an ASCII case-insensitive prefix test
 * (what a `/i` regular expression without the `u` flag does with the letters
 * of a pattern) and the code-point lexicographic order used by `sort()`.
 */
module Text {

  /** ECMAScript WhiteSpace and LineTerminator code points: the characters
      `String.prototype.trim` removes and a regular-expression `\s` matches. */
  const WhiteSpace: set<char> := {
    '\t', '\n', '\U{B}', '\U{C}', '\r', ' ', '\U{A0}', '\U{1680}',
    '\U{2000}', '\U{2001}', '\U{2002}', '\U{2003}', '\U{2004}', '\U{2005}',
    '\U{2006}', '\U{2007}', '\U{2008}', '\U{2009}', '\U{200A}',
    '\U{2028}', '\U{2029}', '\U{202F}', '\U{205F}', '\U{3000}', '\U{FEFF}'
  }

  predicate IsSpace(c: char) {
    c in WhiteSpace
  }

  predicate IsUpper(c: char) { 'A' <= c <= 'Z' }

  /** ASCII case folding to lower case; every other character is unchanged. */
  function LowerChar(c: char): (r: char)
    ensures IsUpper(c) ==> r as int == c as int + 32
    ensures !IsUpper(c) ==> r == c
  {
    if IsUpper(c) then (c as int + 32) as char else c
  }

  /** `s.toLowerCase()`, restricted to ASCII letters. */
  function ToLower(s: string): (r: string)
    ensures |r| == |s|
    ensures forall i :: 0 <= i < |s| ==> r[i] == LowerChar(s[i])
  {
    if s == [] then [] else [LowerChar(s[0])] + ToLower(s[1..])
  }

  /** `pat` occurs in `s` starting at index `k`. */
  predicate OccursAt(s: string, pat: string, k: int) {
    0 <= k && k + |pat| <= |s| && s[k..k + |pat|] == pat
  }

  /** `s.indexOf(pat)`: the first index at which `pat` occurs in `s`, or -1. */
  function IndexOf(s: string, pat: string): (r: int)
    ensures r == -1 || OccursAt(s, pat, r)
    ensures forall k :: 0 <= k && (r == -1 || k < r) ==> !OccursAt(s, pat, k)
  {
    IndexFrom(s, pat, 0)
  }

  /** The first occurrence of `pat` in `s` at an index at least `from`, or -1. */
  function IndexFrom(s: string, pat: string, from: nat): (r: int)
    ensures r == -1 || (from <= r && OccursAt(s, pat, r))
    ensures forall k :: from <= k && (r == -1 || k < r) ==> !OccursAt(s, pat, k)
    decreases |s| - from
  {
    if from + |pat| > |s| then -1
    else if s[from..from + |pat|] == pat then from
    else IndexFrom(s, pat, from + 1)
  }

  /** `indexOf` finds an occurrence at `k` when a character of `pat` does
      not appear early enough in `s` for any earlier occurrence. */
  lemma IndexOfAt(s: string, pat: string, k: int, j: int)
    requires OccursAt(s, pat, k)
    requires 0 <= j < |pat| && pat[j] !in s[..k + j]
    ensures IndexOf(s, pat) == k
  {
    var r := IndexOf(s, pat);
    if r != -1 && r < k {
      assert false;
    }
  }

  /** `indexOf` finds nothing when a character of `pat` does not appear in `s`. */
  lemma IndexOfAbsent(s: string, pat: string, j: int)
    requires 0 <= j < |pat| && pat[j] !in s
    ensures IndexOf(s, pat) == -1
  {
    var r := IndexOf(s, pat);
    if r != -1 {
      assert false;
    }
  }

  /** `s.includes(sub)`. */
  predicate Includes(s: string, sub: string) {
    IndexOf(s, sub) >= 0
  }

  lemma IncludesIffOccurs(s: string, sub: string)
    ensures Includes(s, sub) <==> exists k :: OccursAt(s, sub, k)
  {
    if !Includes(s, sub) {
      forall k ensures !OccursAt(s, sub, k) {
        if 0 <= k { assert !OccursAt(s, sub, k); }
      }
    }
  }

  /** The end of the run of white space that starts at `from`: the first
      index at or after `from` that does not hold white space (or `|s|`). */
  function SpaceEnd(s: string, from: nat): (j: nat)
    requires from <= |s|
    ensures from <= j <= |s|
    ensures forall i :: from <= i < j ==> IsSpace(s[i])
    ensures j == |s| || !IsSpace(s[j])
    decreases |s| - from
  {
    if from < |s| && IsSpace(s[from]) then SpaceEnd(s, from + 1) else from
  }

  /** The start of the run of white space that ends at `to`, looking no
      further back than `lo`. */
  function SpaceStart(s: string, lo: nat, to: nat): (j: nat)
    requires lo <= to <= |s|
    ensures lo <= j <= to
    ensures forall i :: j <= i < to ==> IsSpace(s[i])
    ensures j == lo || !IsSpace(s[j - 1])
  {
    if lo < to && IsSpace(s[to - 1]) then SpaceStart(s, lo, to - 1) else to
  }

  /** `s.trim()`: `s` without its leading and trailing white space. */
  function Trim(s: string): (r: string)
    ensures r == [] || (!IsSpace(r[0]) && !IsSpace(r[|r| - 1]))
  {
    s[SpaceEnd(s, 0)..SpaceStart(s, SpaceEnd(s, 0), |s|)]
  }

  /** Trimming keeps the middle: the result is a slice of `s` with nothing
      but white space outside it. */
  lemma TrimKeepsMiddle(s: string)
    ensures exists lo, hi ::
      && 0 <= lo <= hi <= |s| && Trim(s) == s[lo..hi]
      && (forall i :: 0 <= i < lo ==> IsSpace(s[i]))
      && (forall i :: hi <= i < |s| ==> IsSpace(s[i]))
  {
    var lo := SpaceEnd(s, 0);
    var hi := SpaceStart(s, lo, |s|);
    assert Trim(s) == s[lo..hi];
  }

  /** Trimming only removes white space: a string without white space at
      either end is its own trim, and so trimming twice is trimming once. */
  lemma {:induction false} TrimFixesTrimmed(s: string)
    requires s == [] || (!IsSpace(s[0]) && !IsSpace(s[|s| - 1]))
    ensures Trim(s) == s
  {
    if s != [] {
      assert SpaceEnd(s, 0) == 0;
      assert SpaceStart(s, 0, |s|) == |s|;
    }
  }

  lemma TrimIdempotent(s: string)
    ensures Trim(Trim(s)) == Trim(s)
  {
    TrimFixesTrimmed(Trim(s));
  }

  /** `s` begins with `word`, comparing ASCII letters without regard to case:
      how an anchored `/i` pattern without the `u` flag matches its letters. */
  predicate StartsWithIgnoreCase(s: string, word: string) {
    |word| <= |s| && forall i :: 0 <= i < |word| ==> LowerChar(s[i]) == LowerChar(word[i])
  }

  /** Code-point lexicographic order on strings: a proper prefix comes
      first, otherwise the first differing character decides. */
  predicate LexLess(a: string, b: string) {
    if a == [] then b != []
    else if b == [] then false
    else if a[0] != b[0] then a[0] < b[0]
    else LexLess(a[1..], b[1..])
  }

  /** A three-way comparison in the order of `LexLess`. */
  function LexCompare(a: string, b: string): (r: int)
    ensures r == -1 || r == 0 || r == 1
    ensures r == 0 <==> a == b
  {
    LexTrichotomy(a, b);
    if LexLess(a, b) then -1 else if a == b then 0 else 1
  }

  lemma {:induction false} LexIrreflexive(a: string)
    ensures !LexLess(a, a)
  {
    if a != [] { LexIrreflexive(a[1..]); }
  }

  lemma {:induction false} LexTransitive(a: string, b: string, c: string)
    requires LexLess(a, b) && LexLess(b, c)
    ensures LexLess(a, c)
  {
    if a != [] && b != [] && c != [] && a[0] == b[0] == c[0] {
      LexTransitive(a[1..], b[1..], c[1..]);
    }
  }

  /** Exactly one of `a < b`, `a == b`, `b < a` holds. */
  lemma {:induction false} LexTrichotomy(a: string, b: string)
    ensures LexLess(a, b) || a == b || LexLess(b, a)
    ensures !(LexLess(a, b) && LexLess(b, a))
    ensures a == b ==> !LexLess(a, b)
  {
    if a != [] && b != [] && a[0] == b[0] {
      LexTrichotomy(a[1..], b[1..]);
      if a[1..] == b[1..] {
        assert a == [a[0]] + a[1..] && b == [b[0]] + b[1..];
      }
    } else if a == b {
      LexIrreflexive(a);
    }
  }

  lemma LexCompareAntisymmetric(a: string, b: string)
    ensures LexCompare(a, b) == -LexCompare(b, a)
  {
    LexTrichotomy(a, b);
  }

  lemma LexCompareTransitive(a: string, b: string, c: string)
    requires LexCompare(a, b) <= 0 && LexCompare(b, c) <= 0
    ensures LexCompare(a, c) <= 0
    ensures LexCompare(a, b) < 0 || LexCompare(b, c) < 0 ==> LexCompare(a, c) < 0
  {
    LexTrichotomy(a, b);
    LexTrichotomy(b, c);
    LexTrichotomy(a, c);
    if LexLess(a, b) && LexLess(b, c) { LexTransitive(a, b, c); }
  }
}
