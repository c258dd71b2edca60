/**
  The Python string primitives the front end relies on, over `string`
  (`seq<char>`): `str.strip()` with no argument, `str.lower()` as far as the
  comparison with "exit" needs it, and `str.replace(old, '')`.
 */
module PyText {

  /** The characters for which Python's `str.isspace()` holds, which are the
      characters `str.strip()` removes when called without an argument. */
  predicate IsSpace(c: char) {
    || c == ' '
    || ('\t' <= c && c <= '\r')
    || ('\U{1C}' <= c && c <= '\U{1F}')
    || c == '\U{85}' || c == '\U{A0}' || c == '\U{1680}'
    || ('\U{2000}' <= c && c <= '\U{200A}')
    || c == '\U{2028}' || c == '\U{2029}' || c == '\U{202F}'
    || c == '\U{205F}' || c == '\U{3000}'
  }

  /** `u` occurs in `s` starting at index `p`. */
  predicate OccursAt(s: string, u: string, p: int) {
    0 <= p && p + |u| <= |s| && s[p..p + |u|] == u
  }

  /** Python's `u in s`. */
  predicate Occurs(s: string, u: string) {
    exists p | 0 <= p <= |s| :: OccursAt(s, u, p)
  }

  /** Index of the first non-whitespace character of `s` at or after `i`,
      `|s|` when there is none. */
  function SkipSpaces(s: string, i: nat): (j: nat)
    requires i <= |s|
    ensures i <= j <= |s|
    ensures j == |s| || !IsSpace(s[j])
    ensures forall k :: i <= k < j ==> IsSpace(s[k])
    decreases |s| - i
  {
    if i < |s| && IsSpace(s[i]) then SkipSpaces(s, i + 1) else i
  }

  /** End of `s[lo..j]` once the whitespace at its back is dropped. */
  function SkipSpacesBack(s: string, lo: nat, j: nat): (e: nat)
    requires lo <= j <= |s|
    ensures lo <= e <= j
    ensures e == lo || !IsSpace(s[e - 1])
    ensures forall k :: e <= k < j ==> IsSpace(s[k])
    decreases j
  {
    if lo < j && IsSpace(s[j - 1]) then SkipSpacesBack(s, lo, j - 1) else j
  }

  /** Where the stripped text begins in `s`. */
  function StripStart(s: string): nat {
    SkipSpaces(s, 0)
  }

  /** `r` is the slice `s[i..i + |r|]` of `s` and everything outside that
      slice is whitespace. */
  predicate StrippedAt(s: string, r: string, i: int) {
    && 0 <= i && i + |r| <= |s| && s[i..i + |r|] == r
    && (forall k :: 0 <= k < i ==> IsSpace(s[k]))
    && (forall k :: i + |r| <= k < |s| ==> IsSpace(s[k]))
  }

  /** Python's `s.strip()`: the result has no whitespace at either end, and it
      is a contiguous slice of `s` (interior whitespace is kept) outside of
      which `s` holds only whitespace. */
  function Strip(s: string): (r: string)
    ensures |r| <= |s|
    ensures r == [] || (!IsSpace(r[0]) && !IsSpace(r[|r| - 1]))
    ensures StrippedAt(s, r, StripStart(s))
  {
    var i := SkipSpaces(s, 0);
    s[i..SkipSpacesBack(s, i, |s|)]
  }

  /** Stripping keeps a tail that begins and ends with a non-space. */
  lemma {:induction false} StripKeepsTail(x: string, w: string)
    requires |w| > 0 && !IsSpace(w[0]) && !IsSpace(w[|w| - 1])
    ensures |Strip(x + w)| >= |w| && Strip(x + w)[|Strip(x + w)| - |w|..] == w
  {
    var s := x + w;
    var r := Strip(s);
    var i := StripStart(s);
    assert StrippedAt(s, r, i);
    assert s[|s| - 1] == w[|w| - 1];
    assert i + |r| == |s|;
    assert s[|x|] == w[0];
    assert i <= |x|;
    assert r == s[i..];
    assert r[|r| - |w|..] == s[|x|..] == w;
  }

  /** Stripping is idempotent. */
  lemma StripIdempotent(s: string)
    ensures Strip(Strip(s)) == Strip(s)
  {
    StripOfStripped(Strip(s));
  }

  /** A string with no whitespace at either end is its own strip. */
  lemma StripOfStripped(s: string)
    requires s == [] || (!IsSpace(s[0]) && !IsSpace(s[|s| - 1]))
    ensures Strip(s) == s
  {
    if s != [] {
      assert SkipSpaces(s, 0) == 0;
      assert SkipSpacesBack(s, 0, |s|) == |s|;
    }
  }

  /** Lower-casing of one character, over the ASCII letters. */
  function LowerChar(c: char): char {
    if 'A' <= c && c <= 'Z' then (c as int + 32) as char else c
  }

  /** Python's `s.lower()`, over the ASCII letters. */
  function Lower(s: string): string {
    seq(|s|, i requires 0 <= i < |s| => LowerChar(s[i]))
  }

  /** `s.lower() == 'exit'`. */
  predicate IsExit(s: string) {
    Lower(s) == "exit"
  }

  /** "exit" is recognised in any mix of cases, and nothing else is. */
  lemma IsExitCaseInsensitive(s: string)
    ensures IsExit(s) <==>
      && |s| == 4
      && (s[0] == 'e' || s[0] == 'E') && (s[1] == 'x' || s[1] == 'X')
      && (s[2] == 'i' || s[2] == 'I') && (s[3] == 't' || s[3] == 'T')
  {
    if |s| == 4 {
      assert Lower(s) == [LowerChar(s[0]), LowerChar(s[1]), LowerChar(s[2]), LowerChar(s[3])];
    }
  }

  /** Python's `s.replace(u, '')`: deletes the occurrences of `u` found by a
      left-to-right scan, resuming after each one (non-overlapping). Replacing
      the empty string by the empty string leaves `s` as it is. */
  function Remove(s: string, u: string): (r: string)
    ensures |r| <= |s|
    decreases |s|
  {
    if |u| == 0 || |s| < |u| then s
    else if s[..|u|] == u then Remove(s[|u|..], u)
    else [s[0]] + Remove(s[1..], u)
  }

  /** When `u` does not occur in `s`, removing it changes nothing. */
  lemma {:induction false} RemoveAbsent(s: string, u: string)
    requires !Occurs(s, u)
    ensures Remove(s, u) == s
    decreases |s|
  {
    if |u| == 0 || |s| < |u| {
    } else {
      assert !OccursAt(s, u, 0);
      assert s[..|u|] != u;
      forall p ensures !OccursAt(s[1..], u, p) {
        if OccursAt(s[1..], u, p) {
          assert s[1..][p..p + |u|] == s[p + 1..p + 1 + |u|];
          assert OccursAt(s, u, p + 1);
        }
      }
      RemoveAbsent(s[1..], u);
      assert s == [s[0]] + s[1..];
    }
  }

  /** When a non-empty `u` occurs in `s`, removing it deletes at least `|u|`
      characters. */
  lemma {:induction false} RemoveShrinks(s: string, u: string, p: int)
    requires |u| > 0 && OccursAt(s, u, p)
    ensures |Remove(s, u)| + |u| <= |s|
    decreases |s|
  {
    if s[..|u|] == u {
    } else {
      assert p != 0;
      assert s[1..][p - 1..p - 1 + |u|] == s[p..p + |u|];
      RemoveShrinks(s[1..], u, p - 1);
    }
  }

  /** Removal copies a prefix in which no occurrence of `u` starts. */
  lemma {:induction false} RemoveKeepsPrefix(s: string, u: string, n: nat)
    requires |u| > 0 && n <= |s|
    requires forall q :: 0 <= q < n ==> !OccursAt(s, u, q)
    ensures Remove(s, u) == s[..n] + Remove(s[n..], u)
    decreases n
  {
    if n > 0 && |s| >= |u| {
      assert !OccursAt(s, u, 0);
      forall q | 0 <= q < n - 1 ensures !OccursAt(s[1..], u, q) {
        if OccursAt(s[1..], u, q) {
          assert s[1..][q..q + |u|] == s[q + 1..q + 1 + |u|];
          assert OccursAt(s, u, q + 1);
        }
      }
      RemoveKeepsPrefix(s[1..], u, n - 1);
      assert s[1..][..n - 1] == s[1..n];
      assert s[1..][n - 1..] == s[n..];
      assert s[..n] == [s[0]] + s[1..n];
    } else if n > 0 {
      assert Remove(s[n..], u) == s[n..];
      assert s == s[..n] + s[n..];
    }
  }

  /** An occurrence begins with the first character of what occurs. */
  lemma OccurrenceStartsWithFirst(s: string, u: string)
    ensures forall q :: OccursAt(s, u, q) && |u| > 0 ==> s[q] == u[0]
  {
    forall q | OccursAt(s, u, q) && |u| > 0 ensures s[q] == u[0] {
      assert s[q..q + |u|][0] == s[q];
    }
  }

  /** Removal copies a prefix without the first character of `u`, then
      deletes the occurrence of `u` that follows it. */
  lemma {:induction false} RemoveAfterPrefix(a: string, u: string, rest: string)
    requires |u| > 0
    requires forall k :: 0 <= k < |a| ==> a[k] != u[0]
    ensures Remove(a + u + rest, u) == a + Remove(rest, u)
  {
    var s := a + u + rest;
    OccurrenceStartsWithFirst(s, u);
    forall q | 0 <= q < |a| ensures !OccursAt(s, u, q) { assert s[q] == a[q]; }
    RemoveKeepsPrefix(s, u, |a|);
    assert s[..|a|] == a && s[|a|..] == u + rest;
    assert (u + rest)[..|u|] == u && (u + rest)[|u|..] == rest;
  }

  /** Removing `u` from a text where its first character appears only at
      the start of one occurrence leaves the text around that occurrence. */
  lemma {:induction false} RemoveOnlyOccurrence(a: string, u: string, b: string)
    requires |u| > 0
    requires forall k :: 0 <= k < |a| ==> a[k] != u[0]
    requires forall k :: 0 <= k < |b| ==> b[k] != u[0]
    ensures Remove(a + u + b, u) == a + b
  {
    RemoveAfterPrefix(a, u, b);
    OccurrenceStartsWithFirst(b, u);
    RemoveKeepsPrefix(b, u, |b|);
    assert b[..|b|] == b && b[|b|..] == [];
  }

  /** Two occurrences of `u` in a text that has no other first character of
      `u` are both removed by the one pass of `str.replace`. */
  lemma {:induction false} RemoveBothOccurrences(a: string, u: string, m: string, b: string)
    requires |u| > 0
    requires forall k :: 0 <= k < |a| ==> a[k] != u[0]
    requires forall k :: 0 <= k < |m| ==> m[k] != u[0]
    requires forall k :: 0 <= k < |b| ==> b[k] != u[0]
    ensures Remove(a + u + m + u + b, u) == a + m + b
  {
    assert a + u + m + u + b == a + u + (m + u + b);
    RemoveAfterPrefix(a, u, m + u + b);
    RemoveOnlyOccurrence(m, u, b);
  }
}
