# Crawl-and-score engine of the wealth-management intelligence crawlers

This project models, in Dafny, the engine shared by two Streamlit applications
that crawl a wealth-management firm's web site and score each page against a
catalogue of intelligence questions:

- `msci-intelligence-v2.py`, the v2 engine, is modelled by the `Msci*` modules.
  It has these parts:
  - whitespace and printable-character cleaning (`clean_text`);
  - sentence-bounded evidence snippets (`extract_context_snippet`);
  - non-overlapping keyword counts and a weighted, capped confidence
    (`analyze_content_advanced`);
  - the 75/35 verdict (`determine_status_advanced`);
  - URL normalisation of same-host links (`extract_internal_links`);
  - the stable priority partition of links (`prioritize_links`);
  - the retry policy of `fetch_page_robust`;
  - the breadth-first crawl loop that merges each page's results into per-topic
    records (lines 637-724).
- `wealth-crawler.py`, the older engine, is modelled by the `Wealth*` modules.
  It has these parts:
  - presence-based keyword matching with a fixed 100/200-character snippet
    (`analyze_content`);
  - the 70/40 verdict (`determine_status`);
  - fragment-stripping same-host link extraction;
  - its own crawl loop with a limit of 5 links per page (lines 210-278).

Shared modules:

- `Common`: the `Option`/`Status` vocabulary, `round(x, 1)`, and `list(set)`.
- `PyStr`: the Python string built-ins the code relies on.
- `Frontier`: the FIFO frontier append.

Each crawl loop is a class. Its constants are the loop's inputs and the library
calls it makes. Its fields are the loop's variables: `to_visit`, `visited`,
`pages_crawled`, the per-topic records, and a count of fetches made. The class
has these methods:

- `Step`, one turn of the `while`;
- `Run`, the loop itself;
- `AnalyzePage` and `FollowLinks`, the two inner loops.

`Step` states the whole new state against specification functions
(`MergePage`, `Unvisited`), up to the order the link set is listed in. The merge
functions are proved, over any sequence of pages, to keep the best result and to
collect the matching pages as sources once each, in first-match order
(`AppendNew`).

Library calls and I/O are inputs:

- HTTP (`requests`) is an oracle. In v2 it gives the outcome of every attempt of
  the n-th fetch. In the older file it gives the result of `fetch_page` for the
  n-th fetch.
- BeautifulSoup's `get_text` is a function from page to text.
- `urljoin`/`urlparse` are a function from (page URL, page) to the parsed
  absolute URLs of its `<a href>` elements, plus a function from a URL to its
  host.
- `time.sleep` in the retry policy is recorded as a list of sleep durations.
- The order of `list(set(...))` is chosen nondeterministically.

## Model

| member | source | states |
|---|---|---|
| Common.RoundTenth | msci-intelligence-v2.py:503 | `round(x, 1)` is a whole number of tenths lying within half a tenth of `x` |
| Common.RoundTenthMonotone | msci-intelligence-v2.py:503 | rounding to a tenth never reorders two values |
| Common.RoundTenthExact | wealth-crawler.py:150 | a whole number of tenths is left unchanged by `round(x, 1)` |
| Common.RoundTenthInRange | msci-intelligence-v2.py:503 | a value in [0, 100] rounds to a value in [0, 100] |
| Common.SetToSeq | msci-intelligence-v2.py:409 | `list(links)` holds every element of the set exactly once, in some order |
| Common.AppendNew | msci-intelligence-v2.py:686-687 | appending each element under `if x not in seen` keeps `seen` as a prefix, adds exactly the new elements, and keeps the list duplicate-free |
| PyStr.Lower | msci-intelligence-v2.py:426-427 | `lower()` keeps the length and folds each character |
| PyStr.SpaceCodes | msci-intelligence-v2.py:416 | a character is whitespace for `isspace()` exactly when its code is one of the listed whitespace code points |
| PyStr.LowerCharKeepsClass | msci-intelligence-v2.py:426-441 | lowering keeps whitespace, '.' and '/' where they were, so indices found in the lowered text are valid in the original |
| PyStr.FindFrom | msci-intelligence-v2.py:429 | `find` returns the least occurrence at or after the start, or -1 exactly when there is none |
| PyStr.RFindChar | msci-intelligence-v2.py:434 | `rfind('.', 0, idx)` returns the greatest index below `idx` holding '.', or -1 |
| PyStr.CountPositiveIffFound | msci-intelligence-v2.py:478-479 | `count(k) > 0` exactly when `k` occurs |
| PyStr.CountedOccurrencesFit | msci-intelligence-v2.py:478 | the occurrences `count` counts do not overlap: together they fit in the text |
| PyStr.StripLeft | msci-intelligence-v2.py:419 | `lstrip()` drops exactly the leading whitespace |
| PyStr.StripRight | msci-intelligence-v2.py:419 | `rstrip()` drops exactly the trailing whitespace |
| PyStr.Strip | msci-intelligence-v2.py:419 | `strip()` leaves no whitespace at either end, and is empty exactly when the input is all whitespace |
| PyStr.StripIsSlice | msci-intelligence-v2.py:419 | `strip()` returns the slice of its input that starts at the first non-whitespace character and is followed only by whitespace |
| PyStr.RStripSlash | msci-intelligence-v2.py:402 | `path.rstrip('/')` drops exactly the trailing slashes |
| MsciText.CollapseWhitespace | msci-intelligence-v2.py:416 | `re.sub(r'\s+', ' ', t)` is empty only for empty `t`, is no longer than `t`, keeps a non-space first or last character and turns a whitespace one into ' ', and its only whitespace is single spaces, never two adjacent |
| MsciText.CollapseKeepsNonSpace | msci-intelligence-v2.py:416 | collapsing whitespace keeps every other character, in order |
| MsciText.CollapseKeepsClean | msci-intelligence-v2.py:416 | a string whose only whitespace is single plain spaces is left unchanged by the substitution |
| MsciText.CollapseIdempotent | msci-intelligence-v2.py:416 | applying the substitution twice gives the same as applying it once |
| MsciText.CollapseKeepsSingleSpaces | msci-intelligence-v2.py:416 | single spaces between words are left as they are |
| MsciText.CollapseMergesDoubleSpace | msci-intelligence-v2.py:416 | two adjacent spaces become one |
| MsciText.CollapseAppendWord | msci-intelligence-v2.py:416 | text that starts with a non-space collapses independently of what precedes it |
| MsciText.CollapseAppendBlanks | msci-intelligence-v2.py:416 | a whitespace run after a non-space becomes exactly one ' ' |
| MsciText.CollapseWordBoundary | msci-intelligence-v2.py:416 | any whitespace run between two words becomes exactly one ' ', and both sides collapse on their own |
| MsciText.CollapseRunBetweenWords | msci-intelligence-v2.py:416 | three spaces between two characters become one space, so the words stay apart |
| MsciText.KeepPrintable | msci-intelligence-v2.py:418 | the filter keeps only printable or whitespace characters of the input |
| MsciText.KeepPrintableAppend | msci-intelligence-v2.py:418 | the filter works character by character: filtering a concatenation is concatenating the filtered parts, so order is kept |
| MsciText.KeepPrintableKeepsAll | msci-intelligence-v2.py:418 | a string of printable and whitespace characters passes the filter unchanged |
| MsciText.KeepPrintableKeepsBlanks | msci-intelligence-v2.py:416-418 | the filter only removes characters, so a string whose only whitespace is ' ' keeps that property |
| MsciText.KeepPrintableDropsControl | msci-intelligence-v2.py:418 | a control character between two spaces is dropped and both spaces stay |
| MsciText.KeepPrintableKeepsText | msci-intelligence-v2.py:418 | printable characters separated by a space are kept as they are |
| MsciText.StripKeepsClean | msci-intelligence-v2.py:418-419 | stripping a string of printable characters and plain spaces gives one again |
| MsciText.StripKeepsWord | msci-intelligence-v2.py:419 | a string that neither starts nor ends with whitespace is its own strip |
| MsciText.CleanText | msci-intelligence-v2.py:411-419 | `clean_text` is no longer than its input, has no whitespace at either end, and its only whitespace character is ' ' |
| MsciText.CleanTextNotIdempotent | msci-intelligence-v2.py:416-419 | an unprintable character between two spaces leaves a double space, which a second cleaning removes |
| MsciText.SentenceStart | msci-intelligence-v2.py:434 | the snippet starts just after the last '.' before the keyword (or at 0), with no '.' between start and keyword |
| MsciText.SentenceEnd | msci-intelligence-v2.py:435-439 | the snippet ends just after the first '.' following the keyword, or at min(len, idx+150) when there is none |
| MsciText.SentenceWindow | msci-intelligence-v2.py:426-439 | no window exactly when the lowered keyword does not occur; otherwise the window is built around its first occurrence |
| MsciText.OccurrenceKeepsClass | msci-intelligence-v2.py:426-429 | a character of the keyword's occurrence in the lowered text has the keyword character's whitespace class in the original text too |
| MsciText.WindowShowsKeyword | msci-intelligence-v2.py:429-441 | a keyword of at most 150 characters lies wholly inside the window |
| MsciText.ContextSnippet | msci-intelligence-v2.py:421-442 | "" when the keyword does not occur; otherwise a stripped slice, non-empty when the keyword has a non-space character and fits the window |
| MsciScoring.MatchesOf | msci-intelligence-v2.py:475-483 | the matches are exactly the keywords whose lowered non-overlapping count is positive, each with that count |
| MsciScoring.MatchesOfAppend | msci-intelligence-v2.py:475-483 | the matches follow keyword order |
| MsciScoring.MentionsAtLeastMatches | msci-intelligence-v2.py:496 | the total mentions are at least the number of matches |
| MsciScoring.ShareMonotone | msci-intelligence-v2.py:493 | the base percentage of keywords found grows with the number found |
| MsciScoring.WeightedScoreMonotone | msci-intelligence-v2.py:493-500 | the weighted score grows with the matches and the mentions, for a non-negative weight |
| MsciScoring.SnippetsOf | msci-intelligence-v2.py:484-488 | the snippets are non-empty, pairwise distinct, and no more than the keywords |
| MsciScoring.SnippetsOfSnoc | msci-intelligence-v2.py:484-488 | one more keyword appends its context at the end, unless the keyword is absent, the context is empty or already listed |
| MsciScoring.SnippetsOfAppend | msci-intelligence-v2.py:484-488 | scanning more keywords appends the first occurrences of their non-empty contexts, in keyword order, after the snippets already found |
| MsciScoring.SnippetsAreContexts | msci-intelligence-v2.py:484-488 | every collected snippet is the context of a keyword that occurs in the text |
| MsciScoring.SnippetForEveryMatch | msci-intelligence-v2.py:484-488 | every matched keyword with a non-space character that fits the window has its context among the snippets |
| MsciScoring.ScanKeywords | msci-intelligence-v2.py:475-488 | the keyword loop builds exactly the matches `MatchesOf` and the snippets `SnippetsOf` describe |
| MsciScoring.WeightedScore | msci-intelligence-v2.py:493-500 | the weighted score is non-negative for a non-negative weight |
| MsciScoring.Confidence | msci-intelligence-v2.py:490-505 | the confidence is 0 without keywords, never above 100, and non-negative for a non-negative weight |
| MsciScoring.ConfidenceMonotone | msci-intelligence-v2.py:490-505 | more matched keywords and more mentions never lower the confidence |
| MsciScoring.FullCoverageIsCertain | msci-intelligence-v2.py:493-503 | all keywords found with weight at least 1 gives confidence 100 |
| MsciScoring.Analyze | msci-intelligence-v2.py:444-512 | empty html gives the empty result; otherwise matches, mention count and confidence follow the cleaned text, and the snippets are exactly the first min(3, n) of the n distinct non-empty snippets found, in first-found order |
| MsciScoring.AnalyzeContentAdvanced | msci-intelligence-v2.py:444-512 | the keyword loop computes exactly `Analyze` |
| MsciScoring.DetermineStatusAdvanced | msci-intelligence-v2.py:514-521 | found iff confidence ≥ 75, partial iff 35 ≤ confidence < 75, not found iff confidence < 35 |
| MsciScoring.StatusAdvancedMonotone | msci-intelligence-v2.py:514-521 | a higher confidence never gets a weaker verdict |
| MsciLinks.RStripSlashIgnoresSlashes | msci-intelligence-v2.py:402 | extra trailing slashes do not change the stripped path |
| MsciLinks.NormalizeIgnoresFragmentAndTrailingSlashes | msci-intelligence-v2.py:400-404 | links differing only in fragment or trailing slashes normalise to the same string |
| MsciLinks.NormalizeIdempotent | msci-intelligence-v2.py:400-404 | normalised components normalise to themselves |
| MsciLinks.ExtractInternalLinks | msci-intelligence-v2.py:378-409 | [] for empty html; otherwise exactly the normalised same-host links, without duplicates |
| MsciLinks.Select | msci-intelligence-v2.py:537-542 | each group holds exactly the input links of that priority |
| MsciLinks.SelectAppend | msci-intelligence-v2.py:537-542 | grouping keeps input order within each group |
| MsciLinks.SelectDistinct | msci-intelligence-v2.py:537-542 | grouping a duplicate-free list gives duplicate-free groups |
| MsciLinks.PartitionIsPermutation | msci-intelligence-v2.py:544 | the two groups together are a permutation of the input |
| MsciLinks.PartitionKeepsDistinct | msci-intelligence-v2.py:544 | partitioning introduces no duplicate |
| MsciLinks.PartitionOrdered | msci-intelligence-v2.py:539-544 | no priority link comes after a non-priority link |
| MsciLinks.PrioritizeLinks | msci-intelligence-v2.py:523-544 | the result is priority links then the others, each group in input order, a permutation of the input |
| MsciFetch.FetchPageRobust | msci-intelligence-v2.py:340-376 | the retry loop returns, attempts and sleeps exactly as the retry policy prescribes |
| MsciFetch.RetryContinues | msci-intelligence-v2.py:353-374 | a timeout or other error before the last attempt leads to the next attempt, after its back-off sleep |
| MsciFetch.RetryReturnsLastBody | msci-intelligence-v2.py:353-357 | returned text is the body of the last request made, and that request succeeded |
| MsciFetch.RetryBounds | msci-intelligence-v2.py:353-376 | at most `retries` requests, at least one when allowed, fewer sleeps than requests (none after the last), and an early stop only on success or 404 |
| MsciFetch.RetrySucceedsIff | msci-intelligence-v2.py:353-376 | the text comes back iff some attempt succeeds after only retryable failures, and it is that attempt's body |
| MsciFetch.NotFoundStopsAtOnce | msci-intelligence-v2.py:358-361 | a 404 ends the fetch after one request, without sleeping |
| MsciFetch.SleepsBounded | msci-intelligence-v2.py:366-374 | the back-off sleeps total at most 2^(retries-1) - 1 seconds |
| Frontier.Unvisited | msci-intelligence-v2.py:694-696 | the appended entries are exactly the given links not yet visited, one level deeper |
| Frontier.UnvisitedAppend | msci-intelligence-v2.py:694-696 | the entries keep the links' order: queuing two link lists in turn queues each in turn |
| Frontier.UnvisitedDistinct | wealth-crawler.py:261-263 | distinct links give distinct queue entries |
| Frontier.AppendUnvisited | msci-intelligence-v2.py:694-696 | the append loop adds exactly the unvisited links among the first `cap`, in order |
| MsciCrawl.MergeResult | msci-intelligence-v2.py:675-687 | the confidence becomes the maximum; other fields are replaced only on strict improvement, with the status recomputed; the URL is appended to the sources exactly when the page matched and the URL is not yet a source |
| MsciCrawl.MergeAllKeepsBest | msci-intelligence-v2.py:678-683 | over any sequence of pages, the record holds the highest confidence, and the matches, snippets and evidence count of the earliest page reaching it |
| MsciCrawl.MatchedUrlsMembers | msci-intelligence-v2.py:686 | the URLs collected are exactly those of the pages with a match |
| MsciCrawl.MergeAllSourcesInOrder | msci-intelligence-v2.py:686-687 | over any sequence of pages, each matching page's URL is appended once, in first-match order |
| MsciCrawl.MergeAllSources | msci-intelligence-v2.py:686-687 | over any sequence of pages, the sources are the starting sources followed by the URL of each matching page not yet listed, in page order: exactly the matching pages, once each |
| MsciCrawl.MergeAllValid | msci-intelligence-v2.py:678-687 | merging keeps status consistent with confidence, confidence in [0, 100], and sources duplicate-free |
| MsciCrawl.MergePage | msci-intelligence-v2.py:671-687 | each topic's confidence and sources only grow, and validity is kept |
| MsciCrawl.IntelligenceCrawl.constructor | msci-intelligence-v2.py:637-654 | every topic starts "not found" at 0 with nothing recorded; the queue holds the start URL at depth 0 |
| MsciCrawl.IntelligenceCrawl.AnalyzePage | msci-intelligence-v2.py:671-687 | the per-topic loop merges each topic's analysis into its record |
| MsciCrawl.IntelligenceCrawl.FollowLinks | msci-intelligence-v2.py:690-696 | the page's internal links are listed once each, priority links first, and the unvisited ones among the first 8 are queued at depth+1 |
| MsciCrawl.IntelligenceCrawl.RecordPage | msci-intelligence-v2.py:666-696 | a fetched page is marked visited and counted, and merged into every topic. When depth < max_depth, its internal links are listed once each with priority links first, and the unvisited ones among the first 8 are queued. Confidences and sources only grow |
| MsciCrawl.IntelligenceCrawl.Step | msci-intelligence-v2.py:656-696 | a skipped or failed entry only leaves the queue. A fetched non-empty page is visited once, counted and merged; when depth < max_depth, the unvisited ones among the first 8 of its internal links, priority links first, are queued. Budget, depth bound and record validity hold |
| MsciCrawl.IntelligenceCrawl.Run | msci-intelligence-v2.py:656-724 | the loop ends with an empty queue or the budget spent; confidences and sources never shrink |
| MsciCrawl.GatherIntelligence | msci-intelligence-v2.py:637-724 | every topic ends with a valid record, topics without keywords stay "not found", and at most max_pages pages are crawled |
| WealthScoring.PresentKeywords | wealth-crawler.py:132-135 | the matches are exactly the keywords whose lowered form occurs in the lowered text |
| WealthScoring.PresentKeywordsAppend | wealth-crawler.py:132-135 | the matches follow keyword order |
| WealthScoring.MatchShare | wealth-crawler.py:137 | the confidence lies in [0, 100] and is 0 without keywords |
| WealthScoring.MatchShareExtremes | wealth-crawler.py:137 | all keywords matched gives 100; none gives 0 |
| WealthScoring.MatchShareMonotone | wealth-crawler.py:137 | more matches never lower the confidence |
| WealthScoring.Snippet | wealth-crawler.py:140-146 | "" iff the keyword does not occur; otherwise "..." + stripped window + "...", at most 306 characters |
| WealthScoring.SnippetWindowHoldsMatch | wealth-crawler.py:142-145 | the window holds the whole first occurrence of a keyword of at most 200 characters |
| WealthScoring.Analysis | wealth-crawler.py:122-152 | matches from the lowered text, confidence exactly `MatchShare` of the match and keyword counts (so in [0, 100] and 0 without keywords), snippet "" iff there are no matches, otherwise the first match's snippet |
| WealthScoring.AnalyzeContent | wealth-crawler.py:122-152 | the keyword loop computes exactly `Analysis` |
| WealthScoring.DetermineStatus | wealth-crawler.py:154-161 | found iff confidence ≥ 70, partial iff 40 ≤ confidence < 70, not found iff confidence < 40 |
| WealthScoring.StatusMonotone | wealth-crawler.py:154-161 | a higher confidence never gets a weaker verdict |
| WealthLinks.BeforeHash | wealth-crawler.py:117 | `split("#")[0]` is the prefix of the link before its first '#' |
| WealthLinks.BeforeHashKeeps | wealth-crawler.py:117 | a link without '#' is kept verbatim, trailing slashes and query included |
| WealthLinks.BeforeHashIdempotent | wealth-crawler.py:117 | cutting twice is cutting once |
| WealthLinks.ExtractInternalLinks | wealth-crawler.py:104-120 | exactly the same-host links cut at '#', none containing '#', without duplicates |
| WealthCrawl.MergeFinding | wealth-crawler.py:248-256 | the confidence becomes the maximum; matches, snippet and status are replaced only on strict improvement; the URL is appended to the sources exactly when the page matched and the URL is not yet a source |
| WealthCrawl.MergeFindingsKeepsBest | wealth-crawler.py:248-252 | over any sequence of pages, the record holds the highest confidence, and the matches and snippet of the earliest page reaching it |
| WealthCrawl.MatchedUrlsMembers | wealth-crawler.py:254 | the URLs collected are exactly those of the pages with a match |
| WealthCrawl.MergeFindingsSourcesInOrder | wealth-crawler.py:254-256 | over any sequence of pages, each matching page's URL is appended once, in first-match order |
| WealthCrawl.MergeFindingsSources | wealth-crawler.py:254-256 | over any sequence of pages, the sources are the starting sources followed by the URL of each matching page not yet listed, in page order: exactly the matching pages, once each |
| WealthCrawl.MergePageFindings | wealth-crawler.py:243-256 | each question's confidence and sources only grow, and validity is kept |
| WealthCrawl.WealthCrawler.constructor | wealth-crawler.py:210-226 | every question starts "not found" at 0; the queue holds the start URL at depth 0 |
| WealthCrawl.WealthCrawler.AnalyzePage | wealth-crawler.py:242-256 | the per-question loop merges each question's analysis into its record |
| WealthCrawl.WealthCrawler.FollowLinks | wealth-crawler.py:258-263 | unvisited links among the first 5 extracted links are queued at depth+1 |
| WealthCrawl.WealthCrawler.RecordPage | wealth-crawler.py:238-263 | a fetched page is marked visited and counted, merged into every question, and its unvisited same-host links are queued when depth < max_depth; confidences and sources only grow |
| WealthCrawl.WealthCrawler.Step | wealth-crawler.py:228-263 | a skipped or failed entry only leaves the queue; a fetched non-empty page is visited once, counted, merged, and has its links followed when depth < max_depth; budget, depth bound and record validity hold |
| WealthCrawl.WealthCrawler.Run | wealth-crawler.py:228-278 | the loop ends with an empty queue or the budget spent; confidences and sources never shrink |
| WealthCrawl.CrawlFirm | wealth-crawler.py:210-278 | every question ends with a valid record, questions without keywords stay "not found", and at most max_pages pages are crawled |

## Left out

- The Streamlit user interface is left out. This covers the CSS, progress bars, metric counters, the report display and the CSV export.
- The politeness delay `time.sleep(crawl_delay)` is left out; it changes no state.
- HTTP is an oracle. No headers, timeouts or sockets are modelled. The older `fetch_page` is a single request whose result comes from the oracle.
- BeautifulSoup is left out: parsing, removing `script`/`style`/`noscript`, `get_text`, and `find_all("a", href=True)`. These are library calls, so the page text and the parsed links are inputs.
- `urljoin` and `urlparse` are library calls, so their results are inputs. Reference resolution follows section 5.2 of RFC 3986.
- Character classes are not Unicode-exact:
  - `lower()` folds ASCII letters only and keeps the length.
  - `isspace()` is Python's whitespace set.
  - `isprintable()` is approximated: whitespace other than ' ', C0 and C1 controls are unprintable, and all else is printable.
- Floating point is not modelled. Confidences are reals, and `round(x, 1)` rounds halves up; IEEE ties and representation errors are left out.
- The intelligence catalogues `INTELLIGENCE_CATEGORIES` and `CATEGORIES` are left out. They are configuration data: the model takes any catalogue, flattened from categories to a sequence of questions. Dictionary iteration order is the sequence order.
- `evidence_positions` in `analyze_content_advanced` is left out; it is computed but never read.
- The `priority_patterns` argument of `prioritize_links` is accepted and ignored, as in the source.
- The end-of-crawl summary counts (found, partial, not found, coverage) are left out; they are presentation.
- Exceptions the older file does not catch are left out. In `wealth-crawler.py`, `urljoin` raising or an unparsable page would stop the application.
- MsciText.ContextSnippet: the model proves only that "" means the keyword is absent when the keyword has a non-space character and is at most 150 characters long. In the code, a whitespace-only keyword, or one longer than 150 characters with nothing but whitespace in its window, can also give "" while occurring; `analyze_content_advanced` then adds no snippet for it.
- MsciText.CleanText: `clean_text` is not idempotent, as `CleanTextNotIdempotent` shows. The engine cleans once, so this has no effect on it.
- MsciCrawl.IntelligenceCrawl.Step: which 8 links are queued depends on the unspecified order of `list(set(...))`, within the priority and non-priority groups. The model states that priority links come first, not the order inside each group.
- WealthCrawl.WealthCrawler.Step: which 5 links are queued depends on the same unspecified order.
- The guard `depth > max_depth` is kept in both loops, but it never fires: `Valid` keeps every queued depth at most `max_depth`.
