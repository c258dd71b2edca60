/**
 * URL extraction that removes each match as a whole span of the question,
 * and repeats until no URL is left. `Cli.Extract` follows `extract_urls` as
 * written, which deletes every occurrence of each match's text instead;
 * `LongerUrlLeavesTail` and `RemovalReassemblesUrl` there show where the two
 * part. The first URL is the same in both.
 */
module SpanCut {
  import opened Wrappers
  import opened PyText
  import opened UrlPattern
  import Cli
  import Crew

  /** One pass: keep the text between the matches, drop the matches, strip. */
  function CutMatches(q: string): string {
    if FindAll(q) == [] then q else Strip(Concat(Gaps(q)))
  }

  /** A pass that finds a match makes the question strictly shorter. */
  lemma CutShrinks(q: string)
    ensures |CutMatches(q)| <= |q|
    ensures FindAll(q) != [] ==> |CutMatches(q)| < |q|
  {
    var gaps, ms := Gaps(q), FindAll(q);
    WeaveGapsFrom(q, 0, 0);
    WeaveLength(gaps, ms);
    assert q[0..] == q;
    if ms != [] {
      FindFromNonEmpty(q, 0);
      assert |ms[0]| > 0;
      assert |Concat(ms)| >= |ms[0]|;
    }
  }

  /**
   * What a pass keeps: the question is its gaps with the matches woven
   * between them, and the pass keeps exactly the gaps, in order.
   */
  lemma CutKeepsGaps(q: string)
    ensures |Gaps(q)| == |FindAll(q)| + 1
    ensures q == Weave(Gaps(q), FindAll(q))
    ensures FindAll(q) != [] ==> CutMatches(q) == Strip(Concat(Gaps(q)))
    ensures FindAll(q) == [] ==> CutMatches(q) == q
  {
    WeaveGapsFrom(q, 0, 0);
    assert q[0..] == q;
  }

  /** Passes repeated until the scan finds nothing. */
  function Cleaned(q: string): (c: string)
    ensures FindAll(c) == []
    ensures |c| <= |q|
    ensures FindAll(q) == [] ==> c == q
    decreases |q|
  {
    if FindAll(q) == [] then q
    else
      CutShrinks(q);
      Cleaned(CutMatches(q))
  }

  /** The intended `extract_urls`: the first match and the cleaned question. */
  function ExtractCorrected(query: string): (Option<string>, string) {
    var urls := FindAll(query);
    (if urls == [] then None else Some(urls[0]), Cleaned(query))
  }

  /** The corrected extraction as a loop that cuts until nothing matches. */
  method ExtractUrlsCorrected(query: string) returns (url: Option<string>, clean: string)
    ensures (url, clean) == ExtractCorrected(query)
    ensures url == Cli.Extract(query).0
    ensures FindAll(clean) == [] && |clean| <= |query|
  {
    var urls := FindAll(query);
    url := if urls == [] then None else Some(urls[0]);
    clean := query;
    while FindAll(clean) != []
      invariant Cleaned(clean) == Cleaned(query)
      decreases |clean|
    {
      CutShrinks(clean);
      clean := CutMatches(clean);
    }
  }

  /** The corrected extraction is idempotent: its cleaned question has no
      URL left, so extracting again finds none and changes nothing. */
  lemma CorrectedIsIdempotent(q: string)
    ensures var c := ExtractCorrected(q).1;
      FindAll(c) == [] && ExtractCorrected(c) == (None, c)
  {
  }

  /** The front end fed by the corrected extraction: a question that is one
      URL and nothing else still leaves an empty question, which `run`
      rejects. */
  lemma CorrectedUrlOnlyQueryIsRejected(t: string, ws: Crew.WebSummarizer, kickoff: Crew.CrewSpec -> Crew.Outcome)
    requires IsUrlToken(t)
    requires ws.crewInputs == Cli.CrewInputs(ExtractCorrected(t).0, ExtractCorrected(t).1)
    ensures ExtractCorrected(t) == (Some(t), [])
    ensures ws.Run(kickoff) == Crew.ValueError(Crew.MissingQuery)
  {
    UrlAloneIsFound(t);
    LoneUrlIsCut(t);
    assert FindAll([]) == [];
    assert Cleaned(t) == Cleaned([]) == [];
    assert Crew.GetInput(ws.crewInputs, "query") == Crew.Str([]);
  }

  lemma Concat2(x: string, y: string)
    ensures Concat([x, y]) == x + y
  {
    assert [x, y][1..] == [y];
    assert [y][1..] == [];
    assert Concat([y]) == y + Concat([]) == y;
  }

  lemma Concat3(x: string, y: string, z: string)
    ensures Concat([x, y, z]) == x + y + z
  {
    assert [x, y, z][1..] == [y, z];
    Concat2(y, z);
  }

  /** With one URL and no `h` outside it, the corrected extraction agrees
      with the source's. Where an `h` lies outside the URL the two can
      differ, as "https:https://a//a" shows. */
  lemma {:induction false} CorrectedSingleUrl(a: string, u: string, b: string)
    requires HasNoH(a) && HasNoH(b) && IsUrlToken(u)
    requires b == [] || (!IsUnitChar(b[0]) && !IsEscapeAt(b, 0))
    ensures ExtractCorrected(a + u + b) == Cli.Extract(a + u + b) == (Some(u), Strip(a + b))
  {
    FindAllSingle(a, u, b);
    Cli.ExtractSingleUrl(a, u, b);
    Concat2(a, b);
    Settled(a + b);
  }

  /** With the same URL twice and no `h` outside its two copies, the
      corrected extraction agrees with the source's. */
  lemma {:induction false} CorrectedRepeatedUrl(a: string, u: string, m: string, b: string)
    requires HasNoH(a) && HasNoH(m) && HasNoH(b) && IsUrlToken(u)
    requires |m| > 0 && !IsUnitChar(m[0]) && m[0] != '%'
    requires b == [] || (!IsUnitChar(b[0]) && !IsEscapeAt(b, 0))
    ensures ExtractCorrected(a + u + m + u + b) == Cli.Extract(a + u + m + u + b)
  {
    FindAllTwice(a, u, m, b);
    Cli.RepeatedUrlRemovedEverywhere(a, u, m, b);
    Concat3(a, m, b);
    Cli.NoHJoin(a, m, b);
    Settled(a + m + b);
  }

  /**
   * A URL and a longer one that starts with it: the corrected extraction
   * removes both URLs whole, where the source leaves the tail `w` behind.
   */
  lemma {:induction false} CorrectedShortThenLong(a: string, u: string, m: string, w: string)
    requires IsUrlToken(u) && HasNoH(a) && HasNoH(m) && HasNoH(w)
    requires |m| > 0 && !IsUnitChar(m[0]) && m[0] != '%'
    requires |w| > 0 && forall k :: 0 <= k < |w| ==> IsUnitChar(w[k])
    ensures ExtractCorrected(a + u + m + u + w) == (Some(u), Strip(a + m))
  {
    FindAllShortThenLong(a, u, m, w);
    Concat3(a, m, []);
    assert a + m + [] == a + m;
    Cli.NoHJoin(a, m, []);
    Settled(a + m);
  }

  /** Two URLs separated by a space, the second extending the first: both
      are cut whole and nothing is left. */
  lemma {:induction false} CorrectedUrlListCut(u: string, w: string)
    requires IsUrlToken(u) && HasNoH(w)
    requires |w| > 0 && forall k :: 0 <= k < |w| ==> IsUnitChar(w[k])
    ensures ExtractCorrected(u + " " + u + w) == (Some(u), [])
  {
    var a, m := "", " ";
    assert a + u + m + u + w == u + " " + u + w;
    CorrectedShortThenLong(a, u, m, w);
    assert a + m == [' '];
    assert IsSpace(' ');
    assert Strip([' ']) == [];
  }

  /** With the corrected extraction, the query "https://a https://ab", which
      holds only URLs, leaves an empty question and `run` rejects it. */
  lemma {:induction false} CorrectedUrlListIsRejected(u: string, w: string, ws: Crew.WebSummarizer, kickoff: Crew.CrewSpec -> Crew.Outcome)
    requires IsUrlToken(u) && HasNoH(w)
    requires |w| > 0 && forall k :: 0 <= k < |w| ==> IsUnitChar(w[k])
    requires ws.crewInputs == Cli.CrewInputs(ExtractCorrected(u + " " + u + w).0, ExtractCorrected(u + " " + u + w).1)
    ensures ExtractCorrected(u + " " + u + w) == (Some(u), [])
    ensures ws.Run(kickoff) == Crew.ValueError(Crew.MissingQuery)
  {
    CorrectedUrlListCut(u, w);
    assert Crew.GetInput(ws.crewInputs, "query") == Crew.Str([]);
  }

  /** "https:https://a//a": the first pass rebuilds the URL, the second
      removes it, and nothing is left. */
  lemma {:induction false} CorrectedReassembly(a: string, u: string, b: string)
    requires a == "https:" && u == "https://" + "a" && b == "//a"
    ensures ExtractCorrected(a + u + b) == (Some(u), [])
  {
    FindAllAfterFalseScheme(a, u, b);
    FirstPassRebuilds(a, u, b);
    HttpsHostIsToken("a");
    LoneUrlIsCut(u);
    assert FindAll([]) == [];
    var s := a + u + b;
    assert Cleaned(s) == Cleaned(u);
    assert Cleaned(u) == Cleaned([]) == [];
  }

  lemma {:induction false} FirstPassRebuilds(a: string, u: string, b: string)
    requires a == "https:" && u == "https://a" && b == "//a"
    ensures CutMatches(a + u + b) == u
  {
    FindAllAfterFalseScheme(a, u, b);
    Concat2(a, b);
    assert a + b == u;
    StripOfStripped(u);
  }

  /** A question that is one URL and nothing else is cut to nothing. */
  lemma {:induction false} LoneUrlIsCut(u: string)
    requires IsUrlToken(u)
    ensures FindAll(u) != [] && CutMatches(u) == []
  {
    UrlAloneIsFound(u);
    Concat2([], []);
    assert Strip([]) == [];
  }

  /** A text with no `h` is one pass from the end: stripping it leaves no match. */
  lemma {:induction false} Settled(x: string)
    requires HasNoH(x)
    ensures Cleaned(Strip(x)) == Strip(x)
  {
    Cli.NoHStrip(x);
    var c := Strip(x);
    NoHInSlice(c, 0, |c|);
    assert c[0..|c|] == c;
    FindFromSkip(c, 0, |c|);
  }
}
