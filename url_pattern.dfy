/**
  The pattern `https?://(?:[-\w.]|(?:%[\da-fA-F]{2}))+` as Python's `re`
  engine applies it, and `re.findall` over it: a left-to-right scan that
  tries every position, takes the greedy match where one starts, and resumes
  the scan where that match ends.
 */
module UrlPattern {
  import opened Wrappers
  import opened PyText

  /** `\w` over ASCII: letters, digits and underscore. */
  predicate IsWordChar(c: char) {
    ('a' <= c && c <= 'z') || ('A' <= c && c <= 'Z') || ('0' <= c && c <= '9') || c == '_'
  }

  /** `[\da-fA-F]` over ASCII. */
  predicate IsHexDigit(c: char) {
    ('0' <= c && c <= '9') || ('a' <= c && c <= 'f') || ('A' <= c && c <= 'F')
  }

  /** The character class `[-\w.]`. */
  predicate IsUnitChar(c: char) {
    c == '-' || c == '.' || IsWordChar(c)
  }

  /** A percent escape `%[\da-fA-F]{2}` starts at index `j` of `s`. */
  predicate IsEscapeAt(s: string, j: int) {
    0 <= j && j + 2 < |s| && s[j] == '%' && IsHexDigit(s[j + 1]) && IsHexDigit(s[j + 2])
  }

  /** End of the greedy run of units that starts at `j`: one unit is either a
      `[-\w.]` character or a percent escape, and the run stops at the first
      index where neither begins. */
  function UnitsEnd(s: string, j: nat): (e: nat)
    requires j <= |s|
    ensures j <= e <= |s|
    ensures e == |s| || (!IsUnitChar(s[e]) && !IsEscapeAt(s, e))
    decreases |s| - j
  {
    if j < |s| && IsUnitChar(s[j]) then UnitsEnd(s, j + 1)
    else if IsEscapeAt(s, j) then UnitsEnd(s, j + 3)
    else j
  }

  /** The eight characters `https://` start at index `i` of `s`. */
  predicate HttpsAt(s: string, i: nat) {
    && i + 8 <= |s| && s[i] == 'h' && s[i + 1] == 't' && s[i + 2] == 't' && s[i + 3] == 'p'
    && s[i + 4] == 's' && s[i + 5] == ':' && s[i + 6] == '/' && s[i + 7] == '/'
  }

  /** The seven characters `http://` start at index `i` of `s`. */
  predicate HttpAt(s: string, i: nat) {
    && i + 7 <= |s| && s[i] == 'h' && s[i + 1] == 't' && s[i + 2] == 't' && s[i + 3] == 'p'
    && s[i + 4] == ':' && s[i + 5] == '/' && s[i + 6] == '/'
  }

  /** End of the scheme `https?://` when it starts at `i`. The optional `s`
      is tried first; without it the next character must be the colon. */
  function SchemeEnd(s: string, i: nat): (k: Option<nat>)
    requires i <= |s|
    ensures k.Some? ==> k.value <= |s|
  {
    if HttpsAt(s, i) then Some(i + 8)
    else if HttpAt(s, i) then Some(i + 7)
    else None
  }

  /** End of the match that starts at `i`, if the pattern matches there: the
      scheme followed by a non-empty greedy run of units. */
  function MatchAt(s: string, i: nat): (m: Option<nat>)
    requires i <= |s|
    ensures m.Some? ==> i < m.value <= |s|
  {
    match SchemeEnd(s, i)
    case None => None
    case Some(k) => if UnitsEnd(s, k) > k then Some(UnitsEnd(s, k)) else None
  }

  /** `re.findall` from index `p` on. */
  function FindFrom(s: string, p: nat): seq<string>
    requires p <= |s|
    decreases |s| - p
  {
    if p == |s| then []
    else match MatchAt(s, p)
      case Some(e) => [s[p..e]] + FindFrom(s, e)
      case None => FindFrom(s, p + 1)
  }

  /** `re.findall(pattern, s)`. */
  function FindAll(s: string): seq<string> {
    FindFrom(s, 0)
  }

  /** The text between the matches from index `p` on, when the current gap
      began at `g`: one more gap than there are matches. */
  function GapsFrom(s: string, g: nat, p: nat): seq<string>
    requires g <= p <= |s|
    decreases |s| - p
  {
    if p == |s| then [s[g..]]
    else match MatchAt(s, p)
      case Some(e) => [s[g..p]] + GapsFrom(s, e, e)
      case None => GapsFrom(s, g, p + 1)
  }

  /** The pieces of `s` that lie outside every match, in order. */
  function Gaps(s: string): seq<string> {
    GapsFrom(s, 0, 0)
  }

  /** `gaps[0] + ms[0] + gaps[1] + ms[1] + ... + gaps[|ms|]`. */
  function Weave(gaps: seq<string>, ms: seq<string>): string
    requires |gaps| == |ms| + 1
  {
    if ms == [] then gaps[0] else gaps[0] + ms[0] + Weave(gaps[1..], ms[1..])
  }

  /** The concatenation of `parts`. */
  function Concat(parts: seq<string>): string {
    if parts == [] then [] else parts[0] + Concat(parts[1..])
  }

  /** `u` is a sequence of units: `(?:[-\w.]|(?:%[\da-fA-F]{2}))*` matches
      all of it. */
  predicate IsUnitRun(u: string)
    decreases |u|
  {
    || u == []
    || (IsUnitChar(u[0]) && IsUnitRun(u[1..]))
    || (|u| >= 3 && u[0] == '%' && IsHexDigit(u[1]) && IsHexDigit(u[2]) && IsUnitRun(u[3..]))
  }

  /** Length of the scheme `t` starts with, 0 when it has none. */
  function SchemeLength(t: string): nat {
    if HttpsAt(t, 0) then 8
    else if HttpAt(t, 0) then 7
    else 0
  }

  /** `t` is a whole match of the pattern: `http://` or `https://` followed by
      one or more units. */
  predicate IsUrlToken(t: string) {
    SchemeLength(t) > 0 && |t| > SchemeLength(t) && IsUnitRun(t[SchemeLength(t)..])
  }

  /** The greedy run from `j` to `UnitsEnd(s, j)` consists of units. */
  lemma {:induction false} UnitsEndIsRun(s: string, j: nat)
    requires j <= |s|
    ensures IsUnitRun(s[j..UnitsEnd(s, j)])
    decreases |s| - j
  {
    var e := UnitsEnd(s, j);
    if j < |s| && IsUnitChar(s[j]) {
      UnitsEndIsRun(s, j + 1);
      assert s[j..e][1..] == s[j + 1..e];
    } else if IsEscapeAt(s, j) {
      UnitsEndIsRun(s, j + 3);
      assert s[j..e][3..] == s[j + 3..e];
    } else {
      assert s[j..e] == [];
    }
  }

  /** Every character of a unit run is a `[-\w.]` character, `%` or a hex
      digit; in particular no `/`, `?` or whitespace. */
  lemma {:induction false} UnitRunChars(u: string)
    requires IsUnitRun(u)
    ensures forall k :: 0 <= k < |u| ==> IsUnitChar(u[k]) || u[k] == '%'
    decreases |u|
  {
    if u == [] {
    } else if IsUnitChar(u[0]) && IsUnitRun(u[1..]) {
      UnitRunChars(u[1..]);
      forall k | 1 <= k < |u| ensures IsUnitChar(u[k]) || u[k] == '%' {
        assert u[k] == u[1..][k - 1];
      }
    } else {
      UnitRunChars(u[3..]);
      forall k | 3 <= k < |u| ensures IsUnitChar(u[k]) || u[k] == '%' {
        assert u[k] == u[3..][k - 3];
      }
    }
  }

  /** A match of the pattern at `i` is a URL token, and it is greedy: the text
      right after it neither continues with a unit character nor with a
      percent escape. */
  lemma MatchIsMaximalToken(s: string, i: nat)
    requires i <= |s| && MatchAt(s, i).Some?
    ensures IsUrlToken(s[i..MatchAt(s, i).value])
    ensures var e := MatchAt(s, i).value;
      e == |s| || (!IsUnitChar(s[e]) && !IsEscapeAt(s, e))
  {
    var k := SchemeEnd(s, i).value;
    var e := MatchAt(s, i).value;
    var t := s[i..e];
    UnitsEndIsRun(s, k);
    SchemeOfCopy(s, i, t);
    assert t[k - i..] == s[k..e];
  }

  /** No match found by `findall` contains `/`, `?` or whitespace after its
      scheme. */
  lemma TokenHasNoPathQueryOrSpace(t: string)
    requires IsUrlToken(t)
    ensures forall k :: SchemeLength(t) <= k < |t| ==> t[k] != '/' && t[k] != '?' && !IsSpace(t[k])
  {
    var n := SchemeLength(t);
    UnitRunChars(t[n..]);
    forall k | n <= k < |t| ensures t[k] != '/' && t[k] != '?' && !IsSpace(t[k]) {
      assert t[k] == t[n..][k - n];
    }
  }

  /** Every string `findall` returns is a URL token. */
  lemma {:induction false} FindFromTokens(s: string, p: nat)
    requires p <= |s|
    ensures forall k :: 0 <= k < |FindFrom(s, p)| ==> IsUrlToken(FindFrom(s, p)[k])
    decreases |s| - p
  {
    if p < |s| {
      match MatchAt(s, p)
      case Some(e) =>
        MatchIsMaximalToken(s, p);
        FindFromTokens(s, e);
      case None =>
        FindFromTokens(s, p + 1);
    }
  }

  /** `findall` from `p` finds nothing exactly when the pattern matches at no
      index from `p` on. */
  lemma {:induction false} FindFromEmpty(s: string, p: nat)
    requires p <= |s|
    ensures FindFrom(s, p) == [] <==> forall q :: p <= q < |s| ==> MatchAt(s, q).None?
    decreases |s| - p
  {
    if p < |s| && MatchAt(s, p).None? {
      FindFromEmpty(s, p + 1);
    }
  }

  /** The first string `findall` returns is the match at the leftmost index
      where the pattern matches. */
  lemma {:induction false} FindFromFirst(s: string, p: nat) returns (q: nat)
    requires p <= |s| && FindFrom(s, p) != []
    ensures p <= q < |s| && MatchAt(s, q).Some?
    ensures FindFrom(s, p)[0] == s[q..MatchAt(s, q).value]
    ensures forall r :: p <= r < q ==> MatchAt(s, r).None?
    decreases |s| - p
  {
    if MatchAt(s, p).Some? {
      q := p;
    } else {
      q := FindFromFirst(s, p + 1);
    }
  }

  /** Every match is non-empty. */
  lemma {:induction false} FindFromNonEmpty(s: string, p: nat)
    requires p <= |s|
    ensures forall k :: 0 <= k < |FindFrom(s, p)| ==> |FindFrom(s, p)[k]| > 0
    decreases |s| - p
  {
    if p < |s| {
      match MatchAt(s, p)
      case Some(e) => FindFromNonEmpty(s, e);
      case None => FindFromNonEmpty(s, p + 1);
    }
  }

  /** The text from `g` on is exactly its gaps interleaved with its matches:
      every match is cut out whole and nothing else is. */
  lemma {:induction false} WeaveGapsFrom(s: string, g: nat, p: nat)
    requires g <= p <= |s|
    ensures |GapsFrom(s, g, p)| == |FindFrom(s, p)| + 1
    ensures Weave(GapsFrom(s, g, p), FindFrom(s, p)) == s[g..]
    decreases |s| - p
  {
    if p < |s| {
      match MatchAt(s, p)
      case Some(e) =>
        WeaveGapsFrom(s, e, e);
        WeaveAtMatch(s, g, p, e);
      case None =>
        WeaveGapsFrom(s, g, p + 1);
    }
  }

  /** A match at `p` adds its gap and itself in front of the weave that
      resumes where the match ends. */
  lemma {:induction false} WeaveAtMatch(s: string, g: nat, p: nat, e: nat)
    requires g <= p < |s| && MatchAt(s, p) == Some(e)
    requires |GapsFrom(s, e, e)| == |FindFrom(s, e)| + 1
    requires Weave(GapsFrom(s, e, e), FindFrom(s, e)) == s[e..]
    ensures |GapsFrom(s, g, p)| == |FindFrom(s, p)| + 1
    ensures Weave(GapsFrom(s, g, p), FindFrom(s, p)) == s[g..]
  {
    var gs, ms := GapsFrom(s, e, e), FindFrom(s, e);
    assert GapsFrom(s, g, p) == [s[g..p]] + gs;
    assert FindFrom(s, p) == [s[p..e]] + ms;
    WeaveCons(s[g..p], s[p..e], gs, ms);
    assert s[g..] == s[g..p] + s[p..e] + s[e..];
  }

  /** Weaving one more gap and match in front. */
  lemma {:induction false} WeaveCons(x: string, m: string, gs: seq<string>, ms: seq<string>)
    requires |gs| == |ms| + 1
    ensures Weave([x] + gs, [m] + ms) == x + m + Weave(gs, ms)
  {
    assert ([x] + gs)[1..] == gs && ([m] + ms)[1..] == ms;
  }

  /** Woven text is as long as its gaps and its matches together. */
  lemma {:induction false} WeaveLength(gaps: seq<string>, ms: seq<string>)
    requires |gaps| == |ms| + 1
    ensures |Weave(gaps, ms)| == |Concat(gaps)| + |Concat(ms)|
    decreases |ms|
  {
    if ms != [] {
      WeaveLength(gaps[1..], ms[1..]);
    }
  }

  /** A URL token occurring anywhere in `s` makes the pattern match there,
      so `findall` finds something. */
  lemma TokenOccurrenceIsFound(s: string, u: string, p: int)
    requires IsUrlToken(u) && OccursAt(s, u, p)
    ensures MatchAt(s, p).Some?
    ensures FindAll(s) != []
  {
    var n := SchemeLength(u);
    SchemeOfCopy(s, p, u);
    var u1 := u[n..];
    assert u1[0] == s[p + n];
    assert IsUnitChar(u1[0]) || (|u1| >= 3 && u1[0] == '%' && IsHexDigit(u1[1]) && IsHexDigit(u1[2]));
    if !IsUnitChar(u1[0]) {
      assert s[p + n + 1] == u1[1] && s[p + n + 2] == u1[2];
      assert IsEscapeAt(s, p + n);
    }
    assert UnitsEnd(s, p + n) > p + n;
    FindFromEmpty(s, 0);
  }

  /** No unit, and so no longer match, begins at index `e`. */
  predicate EndsMatch(s: string, e: int) {
    e == |s| || (0 <= e < |s| && !IsUnitChar(s[e]) && !IsEscapeAt(s, e))
  }

  /** The pattern only matches where an `h` starts. */
  lemma MatchStartsWithH(s: string, p: nat)
    requires p <= |s| && MatchAt(s, p).Some?
    ensures s[p] == 'h'
  {
  }

  /** `findall` passes over text without an `h`. */
  lemma {:induction false} FindFromSkip(s: string, p: nat, r: nat)
    requires p <= r <= |s|
    requires forall q :: p <= q < r ==> s[q] != 'h'
    ensures FindFrom(s, p) == FindFrom(s, r)
    decreases r - p
  {
    if p < r {
      if MatchAt(s, p).Some? {
        MatchStartsWithH(s, p);
      }
      FindFromSkip(s, p + 1, r);
    }
  }

  /** A run of units followed by a place where no unit begins is exactly what
      the greedy scan consumes. */
  lemma {:induction false} UnitsEndOfRun(s: string, j: nat, e: nat)
    requires j <= e <= |s| && IsUnitRun(s[j..e]) && EndsMatch(s, e)
    ensures UnitsEnd(s, j) == e
    decreases e - j
  {
    var u := s[j..e];
    if j < e {
      if IsUnitChar(u[0]) {
        assert u[1..] == s[j + 1..e];
        UnitsEndOfRun(s, j + 1, e);
      } else {
        assert u[3..] == s[j + 3..e];
        assert IsEscapeAt(s, j) by {
          assert s[j] == u[0] && s[j + 1] == u[1] && s[j + 2] == u[2];
        }
        UnitsEndOfRun(s, j + 3, e);
      }
    }
  }

  /** A copy of `t` at index `p` of `s` starts with the same scheme as `t`,
      as far as `t` reaches. */
  lemma SchemeOfCopy(s: string, p: nat, t: string)
    requires OccursAt(s, t, p)
    ensures SchemeLength(t) > 0 ==> SchemeEnd(s, p) == Some(p + SchemeLength(t))
    ensures SchemeEnd(s, p).Some? && SchemeEnd(s, p).value <= p + |t| ==>
      SchemeLength(t) == SchemeEnd(s, p).value - p
  {
    forall k | 0 <= k < |t| ensures s[p + k] == t[k] {
      assert s[p..p + |t|][k] == s[p + k];
    }
  }

  /** A URL token that ends where no unit begins is the match `findall` takes
      at its index. */
  lemma {:induction false} FindFromToken(s: string, p: nat, t: string)
    requires OccursAt(s, t, p) && IsUrlToken(t) && EndsMatch(s, p + |t|)
    ensures MatchAt(s, p) == Some(p + |t|)
    ensures FindFrom(s, p) == [t] + FindFrom(s, p + |t|)
  {
    TokenMatchAt(s, p, t);
    FindAtMatch(s, p, p + |t|);
  }

  /** A match at `p` is the next string `findall` returns. */
  lemma FindAtMatch(s: string, p: nat, e: nat)
    requires p < |s| && MatchAt(s, p) == Some(e)
    ensures FindFrom(s, p) == [s[p..e]] + FindFrom(s, e)
  {
  }

  /** The pattern matches an occurring URL token exactly, when no unit
      follows it. */
  lemma TokenMatchAt(s: string, p: nat, t: string)
    requires OccursAt(s, t, p) && IsUrlToken(t) && EndsMatch(s, p + |t|)
    ensures MatchAt(s, p) == Some(p + |t|)
  {
    var n := SchemeLength(t);
    SchemeOfCopy(s, p, t);
    assert s[p + n..p + |t|] == t[n..];
    UnitsEndOfRun(s, p + n, p + |t|);
  }

  /** `x` has no `h`, so no match starts in it. */
  predicate HasNoH(x: string) {
    forall k :: 0 <= k < |x| ==> x[k] != 'h'
  }

  lemma {:induction false} NoHInSlice(s: string, lo: nat, hi: nat)
    requires lo <= hi <= |s| && HasNoH(s[lo..hi])
    ensures forall q :: lo <= q < hi ==> s[q] != 'h'
  {
    forall q | lo <= q < hi ensures s[q] != 'h' { assert s[q] == s[lo..hi][q - lo]; }
  }

  lemma {:induction false} EndsMatchBefore(x: string, b: string)
    requires b == [] || (!IsUnitChar(b[0]) && !IsEscapeAt(b, 0))
    ensures EndsMatch(x + b, |x|)
  {
    var s := x + b;
    if b != [] {
      assert s[|x|] == b[0];
      if |b| >= 3 { assert s[|x| + 1] == b[1] && s[|x| + 2] == b[2]; }
    }
  }

  /** The gaps pass over text without an `h` as the scan does. */
  lemma {:induction false} GapsSkip(s: string, g: nat, p: nat, r: nat)
    requires g <= p <= r <= |s|
    requires forall q :: p <= q < r ==> s[q] != 'h'
    ensures GapsFrom(s, g, p) == GapsFrom(s, g, r)
    decreases r - p
  {
    if p < r {
      if MatchAt(s, p).Some? {
        MatchStartsWithH(s, p);
      }
      GapsSkip(s, g, p + 1, r);
    }
  }

  /** The scan and the gaps pass over indices where the pattern does not
      match. */
  lemma {:induction false} NoMatchSkip(s: string, g: nat, p: nat, r: nat)
    requires g <= p <= r <= |s|
    requires forall q :: p <= q < r ==> MatchAt(s, q).None?
    ensures FindFrom(s, p) == FindFrom(s, r)
    ensures GapsFrom(s, g, p) == GapsFrom(s, g, r)
    decreases r - p
  {
    if p < r {
      NoMatchSkip(s, g, p + 1, r);
    }
  }

  /** Once the scan finds nothing more, the open gap runs to the end. */
  lemma {:induction false} LastGap(s: string, g: nat, p: nat)
    requires g <= p <= |s| && FindFrom(s, p) == []
    ensures GapsFrom(s, g, p) == [s[g..]]
  {
    FindFromEmpty(s, p);
    NoMatchSkip(s, g, p, |s|);
  }

  /**
   * A text in which `findall` finds exactly one URL `u` is the gap before
   * it, `u`, and the gap after it; the match sits at the leftmost index
   * where the pattern matches.
   */
  lemma {:induction false} OnlyMatchSplits(s: string, u: string) returns (r: nat)
    requires FindAll(s) == [u]
    ensures r + |u| <= |s| && MatchAt(s, r) == Some(r + |u|) && OccursAt(s, u, r)
    ensures forall q :: 0 <= q < r ==> MatchAt(s, q).None?
    ensures FindFrom(s, r + |u|) == []
    ensures Gaps(s) == [s[..r], s[r + |u|..]]
    ensures IsUrlToken(u) && s == s[..r] + u + s[r + |u|..]
  {
    FindFromTokens(s, 0);
    assert FindFrom(s, 0)[0] == u;
    r := FindFromFirst(s, 0);
    var e := MatchAt(s, r).value;
    NoMatchSkip(s, 0, 0, r);
    assert FindFrom(s, r) == [s[r..e]] + FindFrom(s, e);
    assert u == s[r..e] && FindFrom(s, e) == [];
    GapsAtMatch(s, 0, r);
    LastGap(s, e, e);
    assert s[0..r] == s[..r];
    assert s == s[..r] + s[r..e] + s[e..];
  }

  /** From `p`, the scan passes text with no `h` and then matches the URL
      token `t` found at `r`; the gap open since `g` closes at `r`. */
  lemma {:induction false} NextToken(s: string, g: nat, p: nat, r: nat, t: string)
    requires g <= p <= r <= |s| && HasNoH(s[p..r]) && OccursAt(s, t, r)
    requires IsUrlToken(t) && EndsMatch(s, r + |t|)
    ensures FindFrom(s, p) == [t] + FindFrom(s, r + |t|)
    ensures GapsFrom(s, g, p) == [s[g..r]] + GapsFrom(s, r + |t|, r + |t|)
  {
    NoHInSlice(s, p, r);
    TokenMatchAt(s, r, t);
    NextMatch(s, g, p, r, r + |t|);
  }

  /** From `p`, the scan passes text with no `h` and takes the match at
      `r`; the gap open since `g` closes there. */
  lemma {:induction false} NextMatch(s: string, g: nat, p: nat, r: nat, e: nat)
    requires g <= p <= r < |s| && forall q :: p <= q < r ==> s[q] != 'h'
    requires MatchAt(s, r) == Some(e)
    ensures FindFrom(s, p) == [s[r..e]] + FindFrom(s, e)
    ensures GapsFrom(s, g, p) == [s[g..r]] + GapsFrom(s, e, e)
  {
    FindFromSkip(s, p, r);
    FindAtMatch(s, r, e);
    GapsSkip(s, g, p, r);
    GapsAtMatch(s, g, r);
  }

  /** A match at `r` closes the gap open since `g`. */
  lemma GapsAtMatch(s: string, g: nat, r: nat)
    requires g <= r < |s| && MatchAt(s, r).Some?
    ensures var e := MatchAt(s, r).value;
      GapsFrom(s, g, r) == [s[g..r]] + GapsFrom(s, e, e)
  {
  }

  /** The scan finds nothing in a tail without an `h`, and the open gap
      runs to the end. */
  lemma {:induction false} NothingAfter(s: string, g: nat, p: nat)
    requires g <= p <= |s| && HasNoH(s[p..|s|])
    ensures FindFrom(s, p) == []
    ensures GapsFrom(s, g, p) == [s[g..|s|]]
  {
    NoHInSlice(s, p, |s|);
    FindFromSkip(s, p, |s|);
    GapsSkip(s, g, p, |s|);
    assert GapsFrom(s, g, |s|) == [s[g..]];
    assert s[g..] == s[g..|s|];
  }

  /** A text with no `h` outside one URL token that ends where the pattern
      must stop: one match, and the gaps on either side of it. */
  lemma {:induction false} ScanOneToken(s: string, r: nat, t: string)
    requires IsUrlToken(t) && r + |t| <= |s|
    requires HasNoH(s[0..r]) && OccursAt(s, t, r) && EndsMatch(s, r + |t|)
    requires HasNoH(s[r + |t|..|s|])
    ensures FindAll(s) == [t]
    ensures Gaps(s) == [s[0..r], s[r + |t|..|s|]]
  {
    LastToken(s, 0, r, t);
  }

  /** From `g`, one URL token at `r` and no `h` elsewhere. */
  lemma {:induction false} LastToken(s: string, g: nat, r: nat, t: string)
    requires IsUrlToken(t) && g <= r && r + |t| <= |s|
    requires HasNoH(s[g..r]) && OccursAt(s, t, r) && EndsMatch(s, r + |t|)
    requires HasNoH(s[r + |t|..|s|])
    ensures FindFrom(s, g) == [t]
    ensures GapsFrom(s, g, g) == [s[g..r], s[r + |t|..|s|]]
  {
    var e := r + |t|;
    NoHInSlice(s, g, r);
    NoHInSlice(s, e, |s|);
    TokenMatchAt(s, r, t);
    LastMatch(s, g, r, e);
    assert s[e..] == s[e..|s|];
  }

  /** From `g`, the scan passes text with no `h`, takes the match at `r`
      and finds nothing after it. */
  lemma {:induction false} LastMatch(s: string, g: nat, r: nat, e: nat)
    requires g <= r < |s| && MatchAt(s, r) == Some(e)
    requires forall q :: g <= q < r ==> s[q] != 'h'
    requires forall q :: e <= q < |s| ==> s[q] != 'h'
    ensures FindFrom(s, g) == [s[r..e]]
    ensures GapsFrom(s, g, g) == [s[g..r], s[e..]]
  {
    NextMatch(s, g, g, r, e);
    FindFromSkip(s, e, |s|);
    GapsSkip(s, e, e, |s|);
    assert FindFrom(s, e) == [] && GapsFrom(s, e, e) == [s[e..]];
  }

  /** From the start, two matches with no `h` anywhere else. */
  lemma {:induction false} TwoMatches(s: string, r1: nat, e1: nat, r2: nat, e2: nat)
    requires r1 <= e1 <= r2 < |s| && MatchAt(s, r1) == Some(e1) && MatchAt(s, r2) == Some(e2)
    requires forall q :: 0 <= q < r1 ==> s[q] != 'h'
    requires forall q :: e1 <= q < r2 ==> s[q] != 'h'
    requires forall q :: e2 <= q < |s| ==> s[q] != 'h'
    ensures FindAll(s) == [s[r1..e1], s[r2..e2]]
    ensures Gaps(s) == [s[0..r1], s[e1..r2], s[e2..|s|]]
  {
    NextMatch(s, 0, 0, r1, e1);
    LastMatch(s, e1, r2, e2);
    assert s[e2..] == s[e2..|s|];
  }

  /** The same with two URL tokens. */
  lemma {:induction false} ScanTwoTokens(s: string, r1: nat, t1: string, r2: nat, t2: string)
    requires IsUrlToken(t1) && IsUrlToken(t2) && r1 + |t1| <= r2 && r2 + |t2| <= |s|
    requires HasNoH(s[0..r1]) && OccursAt(s, t1, r1) && EndsMatch(s, r1 + |t1|)
    requires HasNoH(s[r1 + |t1|..r2]) && OccursAt(s, t2, r2) && EndsMatch(s, r2 + |t2|)
    requires HasNoH(s[r2 + |t2|..|s|])
    ensures FindAll(s) == [t1, t2]
    ensures Gaps(s) == [s[0..r1], s[r1 + |t1|..r2], s[r2 + |t2|..|s|]]
  {
    NoHInSlice(s, 0, r1);
    NoHInSlice(s, r1 + |t1|, r2);
    NoHInSlice(s, r2 + |t2|, |s|);
    TokenMatchAt(s, r1, t1);
    TokenMatchAt(s, r2, t2);
    TwoMatches(s, r1, r1 + |t1|, r2, r2 + |t2|);
  }

  /** `findall` finds exactly the one URL token of a text that has no other
      `h` and in which no unit follows the token. */
  lemma {:induction false} FindAllSingle(a: string, u: string, b: string)
    requires HasNoH(a) && HasNoH(b) && IsUrlToken(u)
    requires b == [] || (!IsUnitChar(b[0]) && !IsEscapeAt(b, 0))
    ensures FindAll(a + u + b) == [u]
    ensures Gaps(a + u + b) == [a, b]
  {
    var s := a + u + b;
    var e := |a| + |u|;
    assert s[0..|a|] == a && s[|a|..e] == u && s[e..|s|] == b;
    EndsMatchBefore(a + u, b);
    ScanOneToken(s, |a|, u);
  }

  /** Where the middle piece of `x + y + z` lies. */
  lemma {:induction false} MiddlePiece(s: string, x: string, y: string, z: string)
    requires s == x + y + z
    ensures s[|x|..|x| + |y|] == y
  {
  }

  /** Where the five pieces of `a + u + m + v + b` lie. */
  lemma {:induction false} FivePieces(a: string, u: string, m: string, v: string, b: string)
    ensures var s, r2 := a + u + m + v + b, |a| + |u| + |m|;
      && s[0..|a|] == a && s[|a|..|a| + |u|] == u && s[|a| + |u|..r2] == m
      && s[r2..r2 + |v|] == v && s[r2 + |v|..|s|] == b
  {
    var s := a + u + m + v + b;
    MiddlePiece(s, [], a, u + m + v + b);
    MiddlePiece(s, a, u, m + v + b);
    MiddlePiece(s, a + u, m, v + b);
    MiddlePiece(s, a + u + m, v, b);
    MiddlePiece(s, a + u + m + v, b, []);
  }

  /** Two URL tokens `u` and `v` with text around them that has no `h`:
      `findall` finds both, and the gaps are the three pieces of text. */
  lemma {:induction false} ScanFive(a: string, u: string, m: string, v: string, b: string)
    requires HasNoH(a) && HasNoH(m) && HasNoH(b) && IsUrlToken(u) && IsUrlToken(v)
    requires |m| > 0 && !IsUnitChar(m[0]) && m[0] != '%'
    requires b == [] || (!IsUnitChar(b[0]) && !IsEscapeAt(b, 0))
    ensures FindAll(a + u + m + v + b) == [u, v]
    ensures Gaps(a + u + m + v + b) == [a, m, b]
  {
    var s := a + u + m + v + b;
    var r2 := |a| + |u| + |m|;
    FivePieces(a, u, m, v, b);
    assert s[|a| + |u|] == m[0];
    EndsMatchBefore(a + u + m + v, b);
    ScanTwoTokens(s, |a|, u, r2, v);
  }

  /** `findall` finds the same URL token twice when it occurs twice, apart
      and followed by text with no other `h`. */
  lemma {:induction false} FindAllTwice(a: string, u: string, m: string, b: string)
    requires HasNoH(a) && HasNoH(m) && HasNoH(b) && IsUrlToken(u)
    requires |m| > 0 && !IsUnitChar(m[0]) && m[0] != '%'
    requires b == [] || (!IsUnitChar(b[0]) && !IsEscapeAt(b, 0))
    ensures FindAll(a + u + m + u + b) == [u, u]
    ensures Gaps(a + u + m + u + b) == [a, m, b]
  {
    ScanFive(a, u, m, u, b);
  }

  /** A URL token followed by more units is a longer URL token. */
  lemma {:induction false} TokenExtends(u: string, w: string)
    requires IsUrlToken(u) && forall k :: 0 <= k < |w| ==> IsUnitChar(w[k])
    ensures IsUrlToken(u + w)
  {
    var n := SchemeLength(u);
    SchemeOfCopy(u + w, 0, u);
    assert SchemeLength(u + w) == n;
    assert (u + w)[n..] == u[n..] + w;
    UnitCharsAreRun(w);
    UnitRunsJoin(u[n..], w);
  }

  /** Two runs of units side by side are one run. */
  lemma {:induction false} UnitRunsJoin(x: string, y: string)
    requires IsUnitRun(x) && IsUnitRun(y)
    ensures IsUnitRun(x + y)
    decreases |x|
  {
    if x != [] {
      assert (x + y)[0] == x[0];
      if IsUnitChar(x[0]) && IsUnitRun(x[1..]) {
        assert (x + y)[1..] == x[1..] + y;
        UnitRunsJoin(x[1..], y);
        assert IsUnitChar((x + y)[0]) && IsUnitRun((x + y)[1..]);
      } else {
        assert (x + y)[1] == x[1] && (x + y)[2] == x[2];
        assert (x + y)[3..] == x[3..] + y;
        UnitRunsJoin(x[3..], y);
        assert |x + y| >= 3 && (x + y)[0] == '%' && IsHexDigit((x + y)[1]) && IsHexDigit((x + y)[2]);
      }
    } else {
      assert x + y == y;
    }
  }

  /** A URL token `u` and, further on, `u` again continued by more units:
      `findall` finds `u` and then the longer URL `u + w`. */
  lemma {:induction false} FindAllShortThenLong(a: string, u: string, m: string, w: string)
    requires IsUrlToken(u) && HasNoH(a) && HasNoH(m) && HasNoH(w)
    requires |m| > 0 && !IsUnitChar(m[0]) && m[0] != '%'
    requires forall k :: 0 <= k < |w| ==> IsUnitChar(w[k])
    ensures FindAll(a + u + m + u + w) == [u, u + w]
    ensures Gaps(a + u + m + u + w) == [a, m, []]
  {
    TokenExtends(u, w);
    ScanFive(a, u, m, u + w, []);
    assert a + u + m + (u + w) + [] == a + u + m + u + w;
  }

  /** In "https:https://a//a" the first `https:` is no scheme (an `h`
      follows the colon), so `findall` finds only the URL after it. */
  lemma {:induction false} FindAllAfterFalseScheme(a: string, u: string, b: string)
    requires a == "https:" && u == "https://a" && b == "//a"
    ensures FindAll(a + u + b) == [u]
    ensures Gaps(a + u + b) == [a, b]
  {
    var s := a + u + b;
    assert s[..6] == a && s[6..15] == u && s[15..] == b;
    assert SchemeEnd(s, 0).None? by {
      assert s[4] == 's' && s[6] == 'h';
    }
    assert FindFrom(s, 0) == FindFrom(s, 1);
    assert GapsFrom(s, 0, 0) == GapsFrom(s, 0, 1);
    assert HasNoH(s[1..6]) by { assert s[1..6] == "ttps:"; }
    assert EndsMatch(s, 15) by { assert s[15] == '/'; }
    NextToken(s, 0, 1, 6, u);
    assert HasNoH(s[15..18]) by { assert s[15..18] == b; }
    NothingAfter(s, 15, 15);
    assert s[0..6] == a && s[15..|s|] == b;
  }

  /** A text that is one URL token is its only match. */
  lemma {:induction false} UrlAloneIsFound(u: string)
    requires IsUrlToken(u)
    ensures FindAll(u) == [u]
    ensures Gaps(u) == [[], []]
  {
    ScanOneToken(u, 0, u);
    assert u[0..0] == [] && u[|u|..|u|] == [];
  }

  /** Every URL token starts with `h`. */
  lemma TokenStartsWithH(t: string)
    requires IsUrlToken(t)
    ensures |t| > 0 && t[0] == 'h'
  {
  }

  /** Characters of the class `[-\w.]` alone form a unit run. */
  lemma {:induction false} UnitCharsAreRun(u: string)
    requires forall k :: 0 <= k < |u| ==> IsUnitChar(u[k])
    ensures IsUnitRun(u)
    decreases |u|
  {
    if u != [] {
      UnitCharsAreRun(u[1..]);
    }
  }

  /** `https://` followed by one or more `[-\w.]` characters is a URL token. */
  lemma HttpsHostIsToken(host: string)
    requires |host| > 0 && forall k :: 0 <= k < |host| ==> IsUnitChar(host[k])
    ensures IsUrlToken("https://" + host)
  {
    var t := "https://" + host;
    assert HttpsAt(t, 0);
    assert t[8..] == host;
    UnitCharsAreRun(host);
  }
}
