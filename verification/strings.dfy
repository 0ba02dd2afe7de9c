/** String helpers shared by the model: substring search, ASCII lower-casing,
    JavaScript's `trim`, and the case-insensitive comparison a regular expression
    with the `i` flag performs on ASCII text. */
module Strings {
  import opened Wrappers

  /** `pat` occurs in `s` starting at index `i`. */
  predicate OccursAt(s: string, pat: string, i: int) {
    0 <= i && i + |pat| <= |s| && s[i..i + |pat|] == pat
  }

  /** First index at or after `from` where `pat` occurs (JavaScript `indexOf`). */
  function IndexFrom(s: string, pat: string, from: nat): (r: Option<nat>)
    decreases |s| - from
    ensures r.Some? ==> from <= r.value && OccursAt(s, pat, r.value)
    ensures r.Some? ==> forall j :: from <= j < r.value ==> !OccursAt(s, pat, j)
    ensures r.None? ==> forall j :: from <= j ==> !OccursAt(s, pat, j)
  {
    if from + |pat| > |s| then None
    else if s[from..from + |pat|] == pat then Some(from)
    else IndexFrom(s, pat, from + 1)
  }

  function IndexOf(s: string, pat: string): (r: Option<nat>)
    ensures r.Some? ==> OccursAt(s, pat, r.value) && forall j :: 0 <= j < r.value ==> !OccursAt(s, pat, j)
    ensures r.None? ==> forall j :: !OccursAt(s, pat, j)
  {
    IndexFrom(s, pat, 0)
  }

  /** The first occurrence is the one with none before it. */
  lemma IndexOfFirst(s: string, pat: string, i: nat)
    requires OccursAt(s, pat, i) && forall j :: 0 <= j < i ==> !OccursAt(s, pat, j)
    ensures IndexOf(s, pat) == Some(i)
  {
  }

  /** JavaScript `includes`. */
  predicate Contains(s: string, pat: string) {
    IndexOf(s, pat).Some?
  }

  lemma ContainsIff(s: string, pat: string)
    ensures Contains(s, pat) <==> exists i :: OccursAt(s, pat, i)
  {
    if !Contains(s, pat) {
      forall i ensures !OccursAt(s, pat, i) { }
    }
  }

  lemma ContainsEmpty(s: string)
    ensures Contains(s, "")
  {
    assert OccursAt(s, "", 0);
    ContainsIff(s, "");
  }

  /** `pat` occurs in `a` at `i`, so it also occurs at `i` in any extension of `a`. */
  lemma OccursInPrefix(a: string, b: string, pat: string, i: int)
    requires OccursAt(a, pat, i)
    ensures OccursAt(a + b, pat, i)
  {
    assert (a + b)[i..i + |pat|] == a[i..i + |pat|];
  }

  /** ASCII lower-casing of one character; every other character is unchanged. */
  function LowerChar(c: char): char {
    if 'A' <= c <= 'Z' then (c as int + 32) as char else c
  }

  /** ASCII lower-casing of a string (JavaScript `toLowerCase` restricted to ASCII). */
  function Lower(s: string): (r: string)
    ensures |r| == |s|
    ensures forall i :: 0 <= i < |s| ==> r[i] == LowerChar(s[i])
  {
    seq(|s|, i requires 0 <= i < |s| => LowerChar(s[i]))
  }

  /** No ASCII upper-case letter in `s`. */
  predicate NoUpper(s: string) {
    forall i :: 0 <= i < |s| ==> !('A' <= s[i] <= 'Z')
  }

  /** Text without upper-case letters is its own lower case. */
  lemma LowerFixesLowerCase(s: string)
    requires NoUpper(s)
    ensures Lower(s) == s
  {
  }

  lemma LowerAppend(a: string, b: string)
    ensures Lower(a + b) == Lower(a) + Lower(b)
  {
  }

  lemma LowerIdempotent(s: string)
    ensures Lower(Lower(s)) == Lower(s)
  {
  }

  /** Lower-casing commutes with taking a slice. */
  lemma LowerSlice(s: string, i: nat, j: nat)
    requires i <= j <= |s|
    ensures Lower(s)[i..j] == Lower(s[i..j])
  {
  }

  /** A text that occurs in `s` also occurs, lower-cased, in the lower-cased `s`. */
  lemma LowerKeepsOccurrence(s: string, pat: string, i: int)
    requires OccursAt(s, pat, i)
    ensures OccursAt(Lower(s), Lower(pat), i)
  {
    LowerSlice(s, i, i + |pat|);
  }

  /** Case-insensitive literal match at `i` as a regular expression with the `i`
      flag (and no `u` flag) performs it: `lit` is lower-case ASCII, and a subject
      character matches when its ASCII lower-case form equals the literal's. */
  predicate CiAt(s: string, i: int, lit: string) {
    0 <= i && i + |lit| <= |s| && forall k :: 0 <= k < |lit| ==> LowerChar(s[i + k]) == lit[k]
  }

  /** Whether `lit` starts at `k` depends only on the text it spans. */
  lemma CiAtWithin(s: string, a: nat, b: nat, k: nat, lit: string)
    requires a <= k && k + |lit| <= b <= |s|
    ensures CiAt(s, k, lit) <==> CiAt(s[a..b], k - a, lit)
  {
    assert forall x :: k - a <= x < k - a + |lit| ==> s[a..b][x] == s[a + x];
  }

  /** A case-insensitive match fixes every character up to case. */
  lemma CiAtChar(s: string, i: int, lit: string, k: int)
    requires CiAt(s, i, lit) && 0 <= k < |lit|
    ensures LowerChar(s[i + k]) == lit[k]
  {
    assert Lower(s[i..i + |lit|])[k] == LowerChar(s[i + k]);
  }

  /** One character that differs even after lower-casing rules a match out. */
  lemma CiMismatch(s: string, i: int, lit: string, k: int)
    requires 0 <= i && 0 <= k < |lit| && i + k < |s|
    requires LowerChar(s[i + k]) != lit[k]
    ensures !CiAt(s, i, lit)
  {
  }

  /** The characters JavaScript's `trim` removes: WhiteSpace and LineTerminator of
      ECMAScript (section 12.2 and 12.3 of ECMA-262), listing the Zs category. */
  predicate IsJsSpace(c: char) {
    c == '\t' || c == '\n' || c == '\U{0B}' || c == '\U{0C}' || c == '\r' || c == ' '
    || c == '\U{A0}' || c == '\U{1680}' || ('\U{2000}' <= c <= '\U{200A}')
    || c == '\U{2028}' || c == '\U{2029}' || c == '\U{202F}' || c == '\U{205F}'
    || c == '\U{3000}' || c == '\U{FEFF}'
  }

  predicate AllSpace(s: string) {
    forall i :: 0 <= i < |s| ==> IsJsSpace(s[i])
  }

  /** Number of white-space characters at the start of `s`. */
  function LeadingSpaces(s: string): (n: nat)
    ensures n <= |s| && AllSpace(s[..n])
    ensures n < |s| ==> !IsJsSpace(s[n])
  {
    if s == [] || !IsJsSpace(s[0]) then 0
    else
      var n := LeadingSpaces(s[1..]);
      assert s[..n + 1] == [s[0]] + s[1..][..n];
      n + 1
  }

  /** Number of white-space characters at the end of `s`. */
  function TrailingSpaces(s: string): (n: nat)
    ensures n <= |s| && AllSpace(s[|s| - n..])
    ensures n < |s| ==> !IsJsSpace(s[|s| - n - 1])
  {
    if s == [] || !IsJsSpace(s[|s| - 1]) then 0
    else
      var n := TrailingSpaces(s[..|s| - 1]);
      SpaceSuffixGrows(s, n);
      n + 1
  }

  /** A white-space suffix of `s` without its last character, followed by a
      white-space last character, is a white-space suffix of `s`. */
  lemma SpaceSuffixGrows(s: string, n: nat)
    requires n < |s| && AllSpace(s[..|s| - 1][|s| - 1 - n..]) && IsJsSpace(s[|s| - 1])
    ensures AllSpace(s[|s| - n - 1..])
  {
    var t := s[|s| - n - 1..];
    forall k | 0 <= k < |t| ensures IsJsSpace(t[k]) {
      if k < n {
        assert t[k] == s[..|s| - 1][|s| - 1 - n..][k];
      } else {
        assert t[k] == s[|s| - 1];
      }
    }
  }

  /** JavaScript `trim`: the text with leading and trailing white space removed. */
  function Trim(s: string): (r: string)
    ensures r == [] <==> AllSpace(s)
    ensures r != [] ==> !IsJsSpace(r[0]) && !IsJsSpace(r[|r| - 1])
  {
    if AllSpace(s) then []
    else
      var a := LeadingSpaces(s);
      var b := TrailingSpaces(s);
      assert a < |s|;
      assert a < |s| - b;
      s[a..|s| - b]
  }

  /** Trim removes exactly the surrounding white space: padding a text that neither
      starts nor ends with white space gives that text back. */
  lemma TrimPadded(pre: string, x: string, post: string)
    requires AllSpace(pre) && AllSpace(post)
    requires x != [] && !IsJsSpace(x[0]) && !IsJsSpace(x[|x| - 1])
    ensures Trim(pre + x + post) == x
  {
    var s := pre + x + post;
    assert s[|pre|] == x[0];
    var a := LeadingSpaces(s);
    var b := TrailingSpaces(s);
    assert s[|s| - |post| - 1] == x[|x| - 1];
    assert a == |pre|;
    assert b == |post|;
    assert s[a..|s| - b] == x;
  }
}
