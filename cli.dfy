/**
  The console front end: reading the research query from successive input
  lines, and splitting a query into its reference URL and the question text
  left once every URL match is removed. Printing, the result display and the
  process exit codes are not modelled; `sys.exit(0)` on "exit" and the end of
  the input are outcomes of the reading loop.
 */
module Cli {
  import opened Wrappers
  import opened PyText
  import opened UrlPattern
  import Crew

  /** The text left after removing each of `urls` in turn with
      `str.replace(url, '')` and stripping after every removal. */
  function RemoveAll(c: string, urls: seq<string>): string
    decreases |urls|
  {
    if urls == [] then c
    else Strip(Remove(RemoveAll(c, urls[..|urls| - 1]), urls[|urls| - 1]))
  }

  /** With a single URL, the cleaned text is one removal, stripped. */
  lemma RemoveAllOne(c: string, u: string)
    ensures RemoveAll(c, [u]) == Strip(Remove(c, u))
  {
    assert [u][..0] == [];
  }

  /** With two matches, the loop removes the first, strips, then removes
      the second and strips again. */
  lemma RemoveAllPair(c: string, u: string, v: string)
    ensures RemoveAll(c, [u, v]) == Strip(Remove(Strip(Remove(c, u)), v))
  {
    assert [u, v][..1] == [u];
    RemoveAllOne(c, u);
  }

  /** `extract_urls(query)`: the first match, or `None`, and the cleaned query. */
  function Extract(query: string): (Option<string>, string) {
    var urls := FindAll(query);
    (if urls == [] then None else Some(urls[0]), RemoveAll(query, urls))
  }

  /** `extract_urls` as the source runs it: `re.findall`, then a loop that
      rebinds the cleaned query once per match. */
  method ExtractUrls(query: string) returns (url: Option<string>, clean: string)
    ensures (url, clean) == Extract(query)
    ensures url.None? <==> FindAll(query) == []
    ensures |clean| <= |query|
  {
    var urls := FindAll(query);
    clean := query;
    for i := 0 to |urls|
      invariant clean == RemoveAll(query, urls[..i])
    {
      assert urls[..i + 1][..i] == urls[..i];
      clean := Strip(Remove(clean, urls[i]));
    }
    assert urls[..|urls|] == urls;
    url := if urls == [] then None else Some(urls[0]);
    CleanQueryNoLonger(query, urls);
  }

  /** Removing and stripping never lengthens the text. */
  lemma {:induction false} CleanQueryNoLonger(c: string, urls: seq<string>)
    ensures |RemoveAll(c, urls)| <= |c|
    decreases |urls|
  {
    if urls != [] {
      CleanQueryNoLonger(c, urls[..|urls| - 1]);
    }
  }

  /** When the first URL occurs in the text, the removals delete at least its
      length. */
  lemma {:induction false} RemoveAllShrinks(c: string, urls: seq<string>, p: int)
    requires urls != [] && |urls[0]| > 0 && OccursAt(c, urls[0], p)
    ensures |RemoveAll(c, urls)| + |urls[0]| <= |c|
    decreases |urls|
  {
    var init := urls[..|urls| - 1];
    if |urls| == 1 {
      assert init == [];
      RemoveShrinks(c, urls[0], p);
    } else {
      assert init[0] == urls[0];
      RemoveAllShrinks(c, init, p);
    }
  }

  /** The reference URL is `None` exactly when the pattern matches nowhere in
      the query; otherwise it is the match at the leftmost index where the
      pattern matches, and it is a URL token. */
  lemma ExtractUrlIsLeftmostMatch(query: string)
    ensures Extract(query).0.None? <==> forall p :: 0 <= p < |query| ==> MatchAt(query, p).None?
    ensures Extract(query).0.Some? ==> IsUrlToken(Extract(query).0.value)
    ensures Extract(query).0.Some? ==> exists p ::
      && 0 <= p < |query| && MatchAt(query, p).Some?
      && Extract(query).0.value == query[p..MatchAt(query, p).value]
      && forall r :: 0 <= r < p ==> MatchAt(query, r).None?
  {
    FindFromEmpty(query, 0);
    if FindAll(query) != [] {
      var p := FindFromFirst(query, 0);
      FindFromTokens(query, 0);
    }
  }

  /** Every match `findall` returns starts with `http://` or `https://`,
      continues with one or more units and holds no `/`, `?` or whitespace
      after the scheme. */
  lemma MatchesAreBareHosts(query: string, k: int)
    requires 0 <= k < |FindAll(query)|
    ensures IsUrlToken(FindAll(query)[k])
    ensures var t := FindAll(query)[k];
      forall j :: SchemeLength(t) <= j < |t| ==> t[j] != '/' && t[j] != '?' && !IsSpace(t[j])
  {
    FindFromTokens(query, 0);
    TokenHasNoPathQueryOrSpace(FindAll(query)[k]);
  }

  /** With no match the query comes back as it is, not even stripped. */
  lemma NoMatchKeepsQuery(query: string)
    requires forall p :: 0 <= p < |query| ==> MatchAt(query, p).None?
    ensures Extract(query) == (None, query)
  {
    FindFromEmpty(query, 0);
  }

  /** With at least one match, the cleaned query is the last removal's text
      with only its end whitespace stripped: no whitespace at either end, the
      interior kept; and it is shorter than the query by at least the length
      of the reference URL. */
  lemma MatchedQueryIsStripped(query: string)
    requires FindAll(query) != []
    ensures var (url, clean) := Extract(query);
      && (clean == [] || (!IsSpace(clean[0]) && !IsSpace(clean[|clean| - 1])))
      && url.Some? && |clean| + |url.value| <= |query|
    ensures var urls := FindAll(query);
      var before := Remove(RemoveAll(query, urls[..|urls| - 1]), urls[|urls| - 1]);
      StrippedAt(before, Extract(query).1, StripStart(before))
  {
    var urls := FindAll(query);
    var p := FindFromFirst(query, 0);
    FindFromNonEmpty(query, 0);
    assert OccursAt(query, urls[0], p);
    RemoveAllShrinks(query, urls, p);
  }

  /** Where the pattern matches at the very start and runs to the end, the
      query is a bare URL: it is the reference URL and the cleaned query is
      empty. */
  lemma WholeUrlQuery(t: string)
    requires |t| > 0 && MatchAt(t, 0) == Some(|t|)
    ensures Extract(t) == (Some(t), "")
  {
    assert t[0..|t|] == t;
    assert FindFrom(t, |t|) == [];
    assert FindAll(t) == [t];
    RemoveAllOne(t, t);
    assert t[|t|..] == [];
    assert Remove(t, t) == [];
  }

  /** The inputs `main.run` constructs the crew with. */
  function CrewInputs(url: Option<string>, clean: string): map<string, Crew.Value> {
    map["url" := (if url.Some? then Crew.Str(url.value) else Crew.NoneValue), "query" := Crew.Str(clean)]
  }

  /** A query that is one bare URL leaves an empty cleaned query, so the crew's
      `run` raises `ValueError`; `main.run` has no handler for it but the
      generic one, which ends the loop with exit code 1. */
  lemma UrlOnlyQueryIsRejected(t: string, ws: Crew.WebSummarizer, kickoff: Crew.CrewSpec -> Crew.Outcome)
    requires |t| > 0 && MatchAt(t, 0) == Some(|t|)
    requires ws.crewInputs == CrewInputs(Extract(t).0, Extract(t).1)
    ensures Extract(t) == (Some(t), "")
    ensures ws.Run(kickoff) == Crew.ValueError(Crew.MissingQuery)
  {
    WholeUrlQuery(t);
    assert Crew.GetInput(ws.crewInputs, "query") == Crew.Str("");
  }

  /**
   * Any query in which `findall` finds exactly one URL: the query is the
   * text before the URL, the URL and the text after it, and `extract_urls`
   * gives that URL and the two pieces joined and stripped. `str.replace`
   * finds no other copy of the URL, since every copy would be a match.
   */
  lemma {:induction false} OneUrlQuery(q: string, u: string)
    requires FindAll(q) == [u]
    ensures |Gaps(q)| == 2 && q == Gaps(q)[0] + u + Gaps(q)[1]
    ensures Extract(q) == (Some(u), Strip(Gaps(q)[0] + Gaps(q)[1]))
  {
    var r := OnlyMatchSplits(q, u);
    var before, after := q[..r], q[r + |u|..];
    NoCopyBefore(q, u, r);
    NoCopyAfter(q, u, r + |u|);
    CutOnlyCopy(q, u, r);
    assert Remove(q, u) == before + after;
    RemoveAllOne(q, u);
    assert Extract(q).1 == Strip(before + after);
  }

  /** No copy of a URL starts before an index where nothing matches. */
  lemma {:induction false} NoCopyBefore(q: string, u: string, r: nat)
    requires IsUrlToken(u) && r <= |q|
    requires forall p :: 0 <= p < r ==> MatchAt(q, p).None?
    ensures forall p :: 0 <= p < r ==> !OccursAt(q, u, p)
  {
    forall p | 0 <= p < r ensures !OccursAt(q, u, p) {
      if OccursAt(q, u, p) { TokenOccurrenceIsFound(q, u, p); }
    }
  }

  /** No copy of a URL lies in the text where the scan finds nothing. */
  lemma {:induction false} NoCopyAfter(q: string, u: string, e: nat)
    requires IsUrlToken(u) && e <= |q| && FindFrom(q, e) == []
    ensures !Occurs(q[e..], u)
  {
    var after := q[e..];
    FindFromEmpty(q, e);
    forall p | 0 <= p <= |after| ensures !OccursAt(after, u, p) {
      if OccursAt(after, u, p) {
        assert q[e + p..e + p + |u|] == after[p..p + |u|];
        TokenOccurrenceIsFound(q, u, e + p);
      }
    }
  }

  /** `str.replace` cuts out the one copy of `u` and joins the two sides. */
  lemma {:induction false} CutOnlyCopy(q: string, u: string, r: nat)
    requires |u| > 0 && OccursAt(q, u, r)
    requires forall p :: 0 <= p < r ==> !OccursAt(q, u, p)
    requires !Occurs(q[r + |u|..], u)
    ensures Remove(q, u) == q[..r] + q[r + |u|..]
  {
    var after := q[r + |u|..];
    RemoveKeepsPrefix(q, u, r);
    assert q[r..] == u + after;
    assert (u + after)[..|u|] == u && (u + after)[|u|..] == after;
    assert Remove(u + after, u) == Remove(after, u);
    RemoveAbsent(after, u);
  }

  /** A query holding exactly one URL, with no other `h` around it to start
      a match, gives that URL and the text around it, stripped. */
  lemma {:induction false} ExtractSingleUrl(a: string, u: string, b: string)
    requires HasNoH(a) && HasNoH(b) && IsUrlToken(u)
    requires b == [] || (!IsUnitChar(b[0]) && !IsEscapeAt(b, 0))
    ensures Extract(a + u + b) == (Some(u), Strip(a + b))
  {
    FindAllSingle(a, u, b);
    OneUrlQuery(a + u + b, u);
  }

  /**
   * When the question names the same URL twice, both copies are removed:
   * the first pass of `str.replace` takes them both and the second finds
   * nothing left to take.
   */
  lemma {:induction false} RepeatedUrlRemovedEverywhere(a: string, u: string, m: string, b: string)
    requires HasNoH(a) && HasNoH(m) && HasNoH(b) && IsUrlToken(u)
    requires |m| > 0 && !IsUnitChar(m[0]) && m[0] != '%'
    requires b == [] || (!IsUnitChar(b[0]) && !IsEscapeAt(b, 0))
    ensures Extract(a + u + m + u + b) == (Some(u), Strip(a + m + b))
    ensures !Occurs(Extract(a + u + m + u + b).1, u)
  {
    var q := a + u + m + u + b;
    FindAllTwice(a, u, m, b);
    TokenStartsWithH(u);
    RemoveBothOccurrences(a, u, m, b);
    NoHJoin(a, m, b);
    CleanAfterTwo(q, u, u, a + m + b);
    NoHNoUrl(Extract(q).1, u);
  }

  /** Two matches whose first removal leaves text `x` without an `h`: the
      second removal finds nothing, and the question is `x` stripped. */
  lemma {:induction false} CleanAfterTwo(q: string, u: string, v: string, x: string)
    requires FindAll(q) == [u, v] && Remove(q, u) == x && HasNoH(x)
    requires |v| > 0 && v[0] == 'h'
    ensures Extract(q) == (Some(u), Strip(x))
    ensures HasNoH(Extract(q).1)
  {
    RemoveAllPair(q, u, v);
    NoHStrip(x);
    NoHNoUrl(Strip(x), v);
    RemoveAbsent(Strip(x), v);
    StripIdempotent(x);
  }

  /**
   * A URL followed later by a longer URL that starts with it ("example.com",
   * then "example.com.au"): the first pass of `str.replace` removes the
   * shorter URL inside the longer one as well, and the rest of the longer
   * URL, `w`, is left behind in the question.
   */
  lemma {:induction false} LongerUrlLeavesTail(a: string, u: string, m: string, w: string)
    requires IsUrlToken(u) && HasNoH(a) && HasNoH(m) && HasNoH(w)
    requires |m| > 0 && !IsUnitChar(m[0]) && m[0] != '%'
    requires |w| > 0 && forall k :: 0 <= k < |w| ==> IsUnitChar(w[k])
    ensures FindAll(a + u + m + u + w) == [u, u + w]
    ensures Extract(a + u + m + u + w) == (Some(u), Strip(a + m + w))
    ensures var c := Extract(a + u + m + u + w).1; |c| >= |w| && c[|c| - |w|..] == w
  {
    var q := a + u + m + u + w;
    FindAllShortThenLong(a, u, m, w);
    TokenStartsWithH(u);
    RemoveBothOccurrences(a, u, m, w);
    NoHJoin(a, m, w);
    CleanAfterTwo(q, u, u + w, a + m + w);
    assert IsUnitChar(w[0]) && IsUnitChar(w[|w| - 1]);
    StripKeepsTail(a + m, w);
  }

  /**
   * A query made only of two URLs, the second extending the first
   * ("https://a https://ab"), is not left empty: the longer URL's tail `w`
   * is the cleaned query, so the crew's `run` accepts it and hands `w` to
   * the crew as the research question.
   */
  lemma {:induction false} UrlListQueryReachesCrew(u: string, w: string, ws: Crew.WebSummarizer, kickoff: Crew.CrewSpec -> Crew.Outcome)
    requires IsUrlToken(u) && HasNoH(w)
    requires |w| > 0 && forall k :: 0 <= k < |w| ==> IsUnitChar(w[k])
    requires ws.crewInputs == CrewInputs(Extract(u + " " + u + w).0, Extract(u + " " + u + w).1)
    ensures Extract(u + " " + u + w) == (Some(u), w)
    ensures ws.Run(kickoff) == Crew.Returned(ws.HandleRequest(Crew.Str(u), w, kickoff))
  {
    UrlListLeavesTail(u, w);
    assert Crew.GetInput(ws.crewInputs, "query") == Crew.Str(w);
    assert Crew.GetInput(ws.crewInputs, "url") == Crew.Str(u);
  }

  /** "https://a https://ab" is cleaned to "b": the tail of the longer URL. */
  lemma {:induction false} UrlListLeavesTail(u: string, w: string)
    requires IsUrlToken(u) && HasNoH(w)
    requires |w| > 0 && forall k :: 0 <= k < |w| ==> IsUnitChar(w[k])
    ensures Extract(u + " " + u + w) == (Some(u), w)
  {
    var a, m := "", " ";
    assert a + u + m + u + w == u + " " + u + w;
    LongerUrlLeavesTail(a, u, m, w);
    assert a + m + w == " " + w;
    SpaceThenTail(w);
  }

  /** Stripping one leading space off a text with non-space ends. */
  lemma {:induction false} SpaceThenTail(w: string)
    requires |w| > 0 && forall k :: 0 <= k < |w| ==> IsUnitChar(w[k])
    ensures Strip(" " + w) == w
  {
    assert IsUnitChar(w[0]) && IsUnitChar(w[|w| - 1]);
    assert [' '] + w == " " + w;
    StripKeepsTail([' '], w);
    var c := Strip(" " + w);
    assert |c| >= |w| && c[|c| - |w|..] == w;
  }

  /** "compare https://example.com and https://example.com.au" is cleaned to
      "compare  and .au". */
  lemma SiblingDomainLeavesSuffix(a: string, host: string, m: string, w: string)
    requires a == "compare " && host == "example.com" && m == " and " && w == ".au"
    ensures Extract(a + ("https://" + host) + m + ("https://" + host) + w)
      == (Some("https://" + host), "compare  and .au")
  {
    HttpsHostIsToken(host);
    LongerUrlLeavesTail(a, "https://" + host, m, w);
    assert a + m + w == "compare  and .au";
    StripOfStripped(a + m + w);
  }

  /**
   * Removing a match can join the text around it into a new URL:
   * "https:https://a//a" matches only "https://a", and removing it leaves
   * "https:" + "//a", which is that same URL again.
   */
  lemma {:induction false} RemovalReassemblesUrl(a: string, u: string, b: string)
    requires a == "https:" && u == "https://" + "a" && b == "//a"
    ensures Extract(a + u + b) == (Some(u), u)
    ensures FindAll(Extract(a + u + b).1) == [u]
    ensures Extract(Extract(a + u + b).1).0 == Some(u)
  {
    var s := a + u + b;
    FindAllAfterFalseScheme(a, u, b);
    RemoveAllOne(s, u);
    RemoveAfterFalseScheme(a, u, b);
    assert a + b == u;
    StripOfStripped(u);
    HttpsHostIsToken("a");
    UrlAloneIsFound(u);
  }

  lemma {:induction false} RemoveAfterFalseScheme(a: string, u: string, b: string)
    requires a == "https:" && u == "https://a" && b == "//a"
    ensures Remove(a + u + b, u) == a + b
  {
    var s := a + u + b;
    assert s[..6] == a && s[6..] == u + b;
    OccurrenceStartsWithFirst(s, u);
    assert forall q :: 0 <= q < 6 ==> !OccursAt(s, u, q) by {
      assert !OccursAt(s, u, 0) by { assert s[6] != u[6]; }
      forall q | 1 <= q < 6 ensures s[q] != u[0] { assert s[1..6] == "ttps:"; assert s[q] == s[1..6][q - 1]; }
    }
    RemoveKeepsPrefix(s, u, 6);
    assert (u + b)[..|u|] == u && (u + b)[|u|..] == b;
    assert Remove(u + b, u) == Remove(b, u);
    NoHNoUrl(b, u);
    RemoveAbsent(b, u);
  }

  lemma {:induction false} NoHJoin(a: string, m: string, b: string)
    requires HasNoH(a) && HasNoH(m) && HasNoH(b)
    ensures HasNoH(a + m + b)
  {
    var x := a + m + b;
    forall k | 0 <= k < |x| ensures x[k] != 'h' {
      if k < |a| { assert x[k] == a[k]; }
      else if k < |a| + |m| { assert x[k] == m[k - |a|]; }
      else { assert x[k] == b[k - |a| - |m|]; }
    }
  }

  lemma {:induction false} NoHStrip(x: string)
    requires HasNoH(x)
    ensures HasNoH(Strip(x))
  {
    var c := Strip(x);
    var i := StripStart(x);
    assert StrippedAt(x, c, i);
    forall k | 0 <= k < |c| ensures c[k] != 'h' { assert c[k] == x[i..i + |c|][k] == x[i + k]; }
  }

  lemma {:induction false} NoHNoUrl(c: string, u: string)
    requires HasNoH(c) && |u| > 0 && u[0] == 'h'
    ensures !Occurs(c, u)
  {
    OccurrenceStartsWithFirst(c, u);
  }

  /**
   * The path of a URL is not part of the match and stays in the question:
   * "Analyze https://example.com/page" gives the URL "https://example.com"
   * and the question "Analyze /page".
   */
  lemma PathStaysInQuery(a: string, host: string, b: string)
    requires a == "Analyze " && host == "example.com" && b == "/page"
    ensures Extract(a + ("https://" + host) + b) == (Some("https://" + host), "Analyze /page")
  {
    HttpsHostIsToken(host);
    ExtractSingleUrl(a, "https://" + host, b);
    assert a + b == "Analyze /page";
    StripOfStripped(a + b);
  }

  /**
   * A URL between two words is cut out with nothing else: the spaces that
   * surrounded it both stay, so the question reads "Summarize  and ...".
   */
  lemma InteriorSpacesKept(a: string, u: string, b: string)
    requires HasNoH(a) && HasNoH(b) && IsUrlToken(u)
    requires |a| > 0 && !IsSpace(a[0]) && a[|a| - 1] == ' '
    requires |b| > 0 && b[0] == ' ' && !IsSpace(b[|b| - 1])
    ensures Extract(a + u + b) == (Some(u), a + b)
  {
    ExtractSingleUrl(a, u, b);
    StripOfStripped(a + b);
  }

  /** What one call of `get_research_query` ends in, given the lines `input()`
      returns: a query after reading `consumed` lines, `sys.exit(0)` after
      reading `consumed` lines, or the end of the input (`input()` raising
      `EOFError`). */
  datatype Prompt = Query(text: string, consumed: nat) | Exit(consumed: nat) | EndOfInput

  /** `get_research_query`: skips lines that strip to nothing, exits on a line
      that strips to "exit" in any case, and otherwise returns the first
      stripped, non-empty line. */
  method GetResearchQuery(lines: seq<string>) returns (r: Prompt)
    ensures r.Query? ==>
      && 0 < r.consumed <= |lines|
      && r.text == Strip(lines[r.consumed - 1])
      && r.text != [] && Strip(r.text) == r.text && !IsExit(r.text)
    ensures r.Exit? ==> 0 < r.consumed <= |lines| && IsExit(Strip(lines[r.consumed - 1]))
    ensures r.EndOfInput? ==> forall j :: 0 <= j < |lines| ==> Strip(lines[j]) == []
    ensures !r.EndOfInput? ==> forall j :: 0 <= j < r.consumed - 1 ==> Strip(lines[j]) == []
  {
    var i := 0;
    while i < |lines|
      invariant 0 <= i <= |lines|
      invariant forall j :: 0 <= j < i ==> Strip(lines[j]) == []
    {
      var query := Strip(lines[i]);
      if IsExit(query) {
        return Exit(i + 1);
      }
      if query != [] {
        StripIdempotent(lines[i]);
        return Query(query, i + 1);
      }
      i := i + 1;
    }
    return EndOfInput;
  }
}
