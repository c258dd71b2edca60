# Web summarizer research assistant: a Dafny model

This project models the decision logic of a console research assistant. The
assistant reads a research question from the user, takes out the web
addresses in it, and hands the question to a one-agent crewAI crew. The model
covers two parts.

- **The console front end** (`src/websummarizeragent/main.py`):
  - `get_research_query` reads input lines until one qualifies.
  - `extract_urls` runs `re.findall` with the pattern
    `https?://(?:[-\w.]|(?:%[\da-fA-F]{2}))+`. It returns the first match as
    the reference URL. It then removes each match with
    `str.replace(url, '')` and strips after each removal.
- **The crew** (`src/websummarizeragent/crew.py`, class `WebSummarizer`):
  - The constructor resolves the agent profile from the parsed agents
    configuration.
  - `run` validates the inputs.
  - `handle_request` builds the task and the crew and normalises the result
    into one of two record shapes.

The files:

- `wrappers.dfy`: `Option`.
- `pytext.dfy`: the Python string primitives the front end uses.
  - `str.strip()` uses Python's full list of whitespace code points.
  - `str.lower()` is compared with "exit".
  - `str.replace(u, '')` is a single left-to-right pass that does not
    overlap matches.
- `url_pattern.dfy`: the pattern as Python's `re` engine runs it.
  - It is greedy.
  - A scheme with no unit after it does not match.
  - The scan is `findall`: left to right, with no overlapping matches.
  - The `Gaps` function gives the text between the matches.
- `cli.dfy`:
  - `extract_urls` as written: a method with the source's `for` loop, proved
    against the function `Extract`.
  - `get_research_query`: a method with the source's `while` loop.
  - The inputs `main.run` passes to the crew.
- `crew.dfy`:
  - `WebSummarizer` is a class. Its fields are set once, by the constructor.
  - `run` and `handle_request` are functions over the outcome of
    `crew.kickoff()`. That outcome is abstract: `Ok(summary)` or
    `Raised(message)`.
- `span_cut.dfy`: the corrected extraction. It removes each match as a whole
    span of the text and repeats until no match is left (see "Findings").

Behaviour one might expect that the code does not have:

- With no URL in the query, `extract_urls` returns the query unchanged, not
  trimmed. The loop body never runs (`Cli.NoMatchKeepsQuery`). The front end
  has already stripped the line, so this matters only to other callers.
- The pattern's character class has no `/`, so a URL's path is never part of
  the match. "Analyze https://example.com/page" gives the URL
  "https://example.com" and the question "Analyze /page"
  (`Cli.PathStaysInQuery`).
- `run` rejects a query only when it is falsy (missing, `None` or `""`).
  A question made only of whitespace is accepted
  (`Crew.WhitespaceQueryAccepted`). The error raised is `ValueError("Query
  is required in crew_inputs")`.
- The extraction is not idempotent as written (`Cli.RemovalReassemblesUrl`).
  The corrected one is (`SpanCut.CorrectedIsIdempotent`).
- A query made only of URLs is not always rejected. "https://a https://ab"
  is cleaned to "b", and `run` hands "b" to the crew
  (`Cli.UrlListQueryReachesCrew`).

## Model

| member | source | states |
|---|---|---|
| PyText.Strip | src/websummarizeragent/main.py:48 | `strip()` leaves no whitespace at either end. The result is a contiguous slice of the text, so interior whitespace is kept, and the text outside the slice is only whitespace. |
| PyText.StripIdempotent | src/websummarizeragent/main.py:32 | Stripping a stripped line changes nothing. |
| PyText.StripOfStripped | src/websummarizeragent/main.py:48 | A text with no whitespace at either end is its own strip. |
| PyText.StripKeepsTail | src/websummarizeragent/main.py:48 | Stripping keeps a tail that begins and ends with non-whitespace. |
| PyText.IsExitCaseInsensitive | src/websummarizeragent/main.py:33 | `query.lower() == 'exit'` holds exactly for the four letters e, x, i, t, each in either case. |
| PyText.Remove | src/websummarizeragent/main.py:48 | `replace(url, '')` never lengthens the text. |
| PyText.RemoveAbsent | src/websummarizeragent/main.py:48 | Replacing text that does not occur changes nothing. |
| PyText.RemoveShrinks | src/websummarizeragent/main.py:48 | When the removed text occurs, at least its length is deleted. |
| PyText.RemoveKeepsPrefix | src/websummarizeragent/main.py:48 | A prefix in which no occurrence starts is copied unchanged. |
| PyText.RemoveAfterPrefix | src/websummarizeragent/main.py:48 | After a prefix without the first character of `u`, the occurrence of `u` that follows is deleted. |
| PyText.RemoveOnlyOccurrence | src/websummarizeragent/main.py:48 | The one occurrence is deleted and the text around it is joined. |
| PyText.RemoveBothOccurrences | src/websummarizeragent/main.py:48 | One pass deletes both occurrences of a repeated text. |
| UrlPattern.UnitsEnd | src/websummarizeragent/main.py:42 | The greedy unit run stops only where neither a `[-\w.]` character nor a percent escape begins. |
| UrlPattern.UnitsEndIsRun | src/websummarizeragent/main.py:42 | What the greedy run consumes is a sequence of units. |
| UrlPattern.MatchAt | src/websummarizeragent/main.py:42 | A match is non-empty and lies inside the text. |
| UrlPattern.MatchIsMaximalToken | src/websummarizeragent/main.py:42 | A match is a scheme plus one or more units, and the text right after it continues with no unit. |
| UrlPattern.TokenHasNoPathQueryOrSpace | src/websummarizeragent/main.py:42 | After the scheme, a match holds no `/`, no `?` and no whitespace. |
| UrlPattern.TokenStartsWithH | src/websummarizeragent/main.py:42 | Every match starts with `h`. |
| UrlPattern.MatchStartsWithH | src/websummarizeragent/main.py:42 | The pattern matches only where an `h` stands. |
| UrlPattern.FindFromTokens | src/websummarizeragent/main.py:43 | Every string `findall` returns is a match of the pattern. |
| UrlPattern.FindFromEmpty | src/websummarizeragent/main.py:43 | `findall` returns nothing exactly when the pattern matches at no index. |
| UrlPattern.FindFromFirst | src/websummarizeragent/main.py:43 | The first string `findall` returns is the match at the leftmost index where the pattern matches. |
| UrlPattern.FindFromNonEmpty | src/websummarizeragent/main.py:43 | No string `findall` returns is empty. |
| UrlPattern.FindFromSkip | src/websummarizeragent/main.py:43 | The scan passes over text with no `h` and finds nothing in it. |
| UrlPattern.WeaveGapsFrom | src/websummarizeragent/main.py:43 | The gaps and the matches, interleaved, give back the text, so the matches are in order and do not overlap. |
| UrlPattern.TokenOccurrenceIsFound | src/websummarizeragent/main.py:43 | Wherever a URL token occurs, the pattern matches, so `findall` returns something. |
| UrlPattern.FindFromToken | src/websummarizeragent/main.py:43 | A URL token that ends where no unit follows is exactly the match taken at its index. |
| UrlPattern.TokenExtends | src/websummarizeragent/main.py:42 | A URL token followed by more `[-\w.]` characters is a longer URL token. |
| UrlPattern.FindAllSingle | src/websummarizeragent/main.py:43 | A text with one URL token and no other `h` yields that token alone, with the text on either side as the gaps. |
| UrlPattern.OnlyMatchSplits | src/websummarizeragent/main.py:43 | When `findall` finds one URL, the pattern matches nowhere before it and finds nothing after it, and the gaps are the text before and after it. |
| UrlPattern.ScanFive | src/websummarizeragent/main.py:43 | Two URL tokens with text around them that has no `h` are the two matches, and the three pieces of text are the gaps. |
| UrlPattern.FindAllTwice | src/websummarizeragent/main.py:43 | The same URL twice, with no other `h`, is found twice. |
| UrlPattern.FindAllShortThenLong | src/websummarizeragent/main.py:43 | A URL and, later, a longer URL that starts with it are found as two different matches. |
| UrlPattern.FindAllAfterFalseScheme | src/websummarizeragent/main.py:43 | In "https:https://a//a" the first "https:" starts no match, and only "https://a" is found. |
| UrlPattern.UrlAloneIsFound | src/websummarizeragent/main.py:43 | A text that is one URL token is its only match. |
| UrlPattern.HttpsHostIsToken | src/websummarizeragent/main.py:42 | `https://` followed by one or more `[-\w.]` characters is a URL token. |
| Cli.RemoveAllOne | src/websummarizeragent/main.py:46-48 | With one match, the cleaned query is one removal, stripped. |
| Cli.RemoveAllPair | src/websummarizeragent/main.py:46-48 | With two matches, the loop removes and strips twice, in order. |
| Cli.ExtractUrls | src/websummarizeragent/main.py:39-50 | The loop computes `Extract`. The URL is `None` exactly when `findall` finds nothing, and the cleaned query is no longer than the query. |
| Cli.CleanQueryNoLonger | src/websummarizeragent/main.py:46-48 | Removing and stripping never lengthens the query. |
| Cli.RemoveAllShrinks | src/websummarizeragent/main.py:46-48 | When the first match occurs, the loop deletes at least its length. |
| Cli.ExtractUrlIsLeftmostMatch | src/websummarizeragent/main.py:43-50 | The URL is `None` exactly when the pattern matches nowhere. Otherwise it is the match at the leftmost matching index, and it is a URL token. |
| Cli.MatchesAreBareHosts | src/websummarizeragent/main.py:42-43 | Each match is a scheme, then units, with no `/`, `?` or whitespace. |
| Cli.NoMatchKeepsQuery | src/websummarizeragent/main.py:46-50 | With no match, the query comes back identical, not stripped. |
| Cli.MatchedQueryIsStripped | src/websummarizeragent/main.py:46-48 | With a match, the cleaned query has no end whitespace and keeps the interior of the last removal's text. It is shorter than the query by at least the URL's length. |
| Cli.WholeUrlQuery | src/websummarizeragent/main.py:43-50 | A query that is one bare URL gives that URL and an empty question. |
| Cli.UrlOnlyQueryIsRejected | src/websummarizeragent/main.py:63-73 | A query that is one bare URL leads `run` to raise `ValueError`. |
| Cli.OneUrlQuery | src/websummarizeragent/main.py:43-50 | For any query in which `findall` finds exactly one URL, the query is the text before it, the URL and the text after it. `extract_urls` gives that URL and the two pieces joined and stripped. |
| Cli.ExtractSingleUrl | src/websummarizeragent/main.py:43-50 | The case of `Cli.OneUrlQuery` with no other `h` around the URL: the URL and the text around it, stripped. |
| Cli.RepeatedUrlRemovedEverywhere | src/websummarizeragent/main.py:47-48 | When the same URL appears twice, both copies are removed, and the last match no longer occurs in the cleaned query. |
| Cli.CleanAfterTwo | src/websummarizeragent/main.py:47-48 | When the first removal leaves no `h`, the second removal finds nothing to remove. |
| Cli.PathStaysInQuery | src/websummarizeragent/main.py:42-48 | "Analyze https://example.com/page" gives "https://example.com" and "Analyze /page". |
| Cli.InteriorSpacesKept | src/websummarizeragent/main.py:47-48 | The spaces on both sides of a removed URL stay, as in "Analyze  and tell me about its main points". |
| Cli.LongerUrlLeavesTail | src/websummarizeragent/main.py:47-48 | As written, a URL followed by a longer URL that starts with it leaves the longer URL's tail in the question. |
| Cli.UrlListLeavesTail | src/websummarizeragent/main.py:47-48 | "https://a https://ab" and its like are cleaned to the longer URL's tail, "b". |
| Cli.UrlListQueryReachesCrew | src/websummarizeragent/main.py:63-73 | A query made only of such a pair of URLs is not rejected: `run` returns the response for the tail as the question. |
| Cli.SiblingDomainLeavesSuffix | src/websummarizeragent/main.py:47-48 | "compare https://example.com and https://example.com.au" is cleaned to "compare  and .au". |
| Cli.RemovalReassemblesUrl | src/websummarizeragent/main.py:47-48 | As written, "https:https://a//a" gives the URL "https://a" and the cleaned query "https://a". That cleaned query still matches, so extracting again finds a URL. |
| Cli.RemoveAfterFalseScheme | src/websummarizeragent/main.py:48 | In that query, `replace` deletes only the real match. |
| Cli.GetResearchQuery | src/websummarizeragent/main.py:31-37 | See the note below the table. |
| Crew.WebSummarizer.constructor | src/websummarizeragent/crew.py:37-80 | `crew_inputs or {}`. The LLM is "google", "gemini-pro" at 0.1. There are four tools, in order. The agent is built from the resolved profile. |
| Crew.ProfileFieldSources | src/websummarizeragent/crew.py:44-76 | Role, goal and backstory each come from the agent's entry when present. Otherwise they take their defaults. A missing entry gives all three defaults. |
| Crew.ProfileDependsOnlyOnOwnEntry | src/websummarizeragent/crew.py:44-45 | A missing entry acts as `{}`. Other agents' entries and the `llm` key do not affect the profile. |
| Crew.WebSummarizer.BuildCrew | src/websummarizeragent/crew.py:84-102 | The crew has one task, with the query as its description and the fixed expected output. The agent is the sole member and the manager, the process is hierarchical, `max_rpm` is 20 and `task_timeout` is 600. |
| Crew.WebSummarizer.HandleRequest | src/websummarizeragent/crew.py:82-117 | The response is a success exactly when kickoff returns, and it carries the result. Otherwise it is `Service error` with the exception's message, so nothing is raised. |
| Crew.WebSummarizer.Run | src/websummarizeragent/crew.py:119-126 | `run` raises `ValueError` exactly when the query is missing or falsy, with the source's message. Otherwise it returns `handle_request`'s response for that query. |
| Crew.RecordShapesDisjoint | src/websummarizeragent/crew.py:107-117 | The success and error records have disjoint key sets. `success` is true only in the success record. |
| Crew.UrlIsIgnored | src/websummarizeragent/crew.py:82-102 | The `url` argument does not affect the response. |
| Crew.RejectedRunNeverKicksOff | src/websummarizeragent/crew.py:121-123 | A rejected run does not depend on the crew's behaviour, so no crew is run. |
| Crew.AcceptedRunUsesOneCrew | src/websummarizeragent/crew.py:121-126 | An accepted run returns, and depends only on the outcome for the one crew built for the query. |
| Crew.WhitespaceQueryAccepted | src/websummarizeragent/crew.py:122 | A whitespace-only query passes validation. |
| Crew.NoInputsRejected | src/websummarizeragent/crew.py:121-123 | Empty inputs, which is what `None` becomes, always raise. |
| SpanCut.CutShrinks | src/websummarizeragent/main.py:46-48 | Corrected: a pass that finds a match makes the question strictly shorter. |
| SpanCut.CutKeepsGaps | src/websummarizeragent/main.py:43-48 | Corrected: the question is its gaps interleaved with its matches, and a pass keeps exactly the gaps, stripped. |
| SpanCut.Cleaned | src/websummarizeragent/main.py:46-48 | Corrected: no match is left. The result is no longer than the question, and a question without matches is unchanged. |
| SpanCut.ExtractUrlsCorrected | src/websummarizeragent/main.py:39-50 | Corrected: the loop computes `ExtractCorrected`. The URL is the source's first match, and no URL is left in the cleaned question. |
| SpanCut.CorrectedIsIdempotent | src/websummarizeragent/main.py:39-50 | Corrected: extracting from the cleaned question finds nothing and changes nothing. |
| SpanCut.CorrectedSingleUrl | src/websummarizeragent/main.py:43-50 | With one URL and no `h` outside it, the corrected extraction agrees with the source's. With an `h` outside, as in "https:https://a//a", they can differ. |
| SpanCut.CorrectedRepeatedUrl | src/websummarizeragent/main.py:47-48 | With one URL given twice and no `h` outside its two copies, the corrected extraction agrees with the source's. |
| SpanCut.CorrectedShortThenLong | src/websummarizeragent/main.py:47-48 | A URL and a longer one starting with it are both removed whole. |
| SpanCut.CorrectedUrlListCut | src/websummarizeragent/main.py:47-48 | Corrected: "https://a https://ab" and its like are cut to the empty question. |
| SpanCut.CorrectedUrlListIsRejected | src/websummarizeragent/main.py:63-73 | Corrected: that query of only URLs leads `run` to raise `ValueError`. |
| SpanCut.CorrectedReassembly | src/websummarizeragent/main.py:47-48 | "https:https://a//a" is cleaned to the empty question. |
| SpanCut.LoneUrlIsCut | src/websummarizeragent/main.py:47-48 | A question that is one URL is cut to nothing. |
| SpanCut.Settled | src/websummarizeragent/main.py:47-48 | A stripped text with no `h` is already clean. |
| SpanCut.CorrectedUrlOnlyQueryIsRejected | src/websummarizeragent/main.py:63-73 | With the corrected extraction, a URL-only query still reaches `run` empty and is rejected. |

`Cli.GetResearchQuery` states:

- A returned query is the stripped form of the line it consumed. It is
  non-empty, already stripped, and not "exit" in any case.
- Every earlier line stripped to nothing.
- "exit" ends the call at the line that holds it.
- The end of the input is reached only when every line is blank.

## Left out

- Unicode: `\w` and `\d` are over ASCII only. Python's `str` patterns
  accept all Unicode letters and digits, and the model does not list those
  tables.
- `str.lower()` is modelled over ASCII letters only. No other character
  lower-cases to one of e, x, i or t, so the comparison with "exit" is
  unaffected.
- Reading the YAML file and parsing it: the constructor receives the
  configuration already parsed, with string values. A document that does
  not parse, a `None` entry and values that are not strings are not
  modelled.
- `os.getenv`, `load_dotenv`, logging and the warnings filter: the API key
  is a constructor parameter.
- The construction of `ChatGoogleGenerativeAI`, of crewAI's `LLM` and of the
  four tools are foreign calls. The model keeps the settings passed to the
  LLM wrapper and the tool list in order.
- `crew.kickoff()`, including rate limiting and the task timeout: an
  abstract function from the crew to `Ok(summary)` or `Raised(message)`.
  An exception raised while the task or the crew is built is folded into
  that same outcome.
- `clear_chroma_collections`: vector-store I/O, and never called.
- `main.run`:
  - It is the console loop with printing. It is reduced to the inputs it
    builds for the crew (`Cli.CrewInputs`).
  - `KeyboardInterrupt`, the generic handler and the exit codes are not
    modelled. The `ValueError` for a URL-only query reaches that generic
    handler, which returns 1; the model proves only that `run` raises.
  - `sys.exit(0)` on "exit" and an end of input (`EOFError`) are outcomes
    of `Cli.GetResearchQuery`.
- The banner and prompts that `get_research_query` prints.
- `Cli.RepeatedUrlRemovedEverywhere`: proved for a query whose only `h`
  characters are inside the two copies of the URL. The general claim that
  the last match never occurs in the cleaned query is false; see
  `Cli.RemovalReassemblesUrl`.

## Findings

| source | as written | input that shows it | evidently intended | confidence | as-written member | corrected member |
|---|---|---|---|---|---|---|
| src/websummarizeragent/main.py:47-48 | Each match is deleted with `str.replace`. That deletes every occurrence of its text, including the start of a later, longer match. | "compare https://example.com and https://example.com.au" gives the cleaned query "compare  and .au". The query "https://a https://ab", made only of URLs, gives "b", which `run` accepts (`Cli.UrlListQueryReachesCrew`). | Each match is removed as a whole, giving "compare  and", and a query of only URLs is rejected (`SpanCut.CorrectedUrlListIsRejected`). | not executed | Cli.LongerUrlLeavesTail | SpanCut.CorrectedShortThenLong |
| src/websummarizeragent/main.py:47-48 | Deleting a match can join the text on its two sides into a new URL, which stays in the cleaned query. | "https:https://a//a" gives the URL "https://a" and the cleaned query "https://a". | No URL is left in the cleaned query, so a second extraction changes nothing. | not executed | Cli.RemovalReassemblesUrl | SpanCut.ExtractUrlsCorrected |
