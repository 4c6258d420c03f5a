/** The keyword scorer of the older crawler (wealth-crawler.py:122-161): a
    keyword counts once when its lower-case form occurs in the lower-cased
    page text; the confidence is the matched share of the keywords; the
    snippet is a fixed window around the first match. */
module WealthScoring {
  import opened Common
  import opened PyStr

  /** What `analyze_content` returns. */
  datatype WealthAnalysis = WealthAnalysis(matches: seq<string>, confidence: real, snippet: string)

  /** Characters of context taken before and after the first match. */
  const ContextBefore: nat := 100
  const ContextAfter: nat := 200

  const FoundThreshold: real := 70.0
  const PartialThreshold: real := 40.0

  /** The keywords, in list order, whose lower-case form occurs in `text`. */
  function PresentKeywords(text: string, keywords: seq<string>): (r: seq<string>)
    ensures |r| <= |keywords|
    ensures forall k :: k in r <==> k in keywords && Contains(text, Lower(k))
  {
    if keywords == [] then []
    else
      var last := keywords[|keywords| - 1];
      assert keywords == keywords[..|keywords| - 1] + [last];
      PresentKeywords(text, keywords[..|keywords| - 1]) + (if Contains(text, Lower(last)) then [last] else [])
  }

  /** The matches keep the keywords' order: they are the keywords with the
      absent ones removed. */
  lemma {:induction false} PresentKeywordsAppend(text: string, a: seq<string>, b: seq<string>)
    ensures PresentKeywords(text, a + b) == PresentKeywords(text, a) + PresentKeywords(text, b)
    decreases |b|
  {
    if b == [] {
      assert a + b == a;
    } else {
      assert (a + b)[..|a + b| - 1] == a + b[..|b| - 1];
      PresentKeywordsAppend(text, a, b[..|b| - 1]);
    }
  }

  /** `round(len(matches) / len(keywords) * 100, 1)`, or 0 without keywords. */
  function MatchShare(matchCount: nat, keywordCount: nat): (c: real)
    requires matchCount <= keywordCount
    ensures 0.0 <= c <= 100.0
    ensures keywordCount == 0 ==> c == 0.0
  {
    if keywordCount == 0 then 0.0
    else
      var x := matchCount as real / keywordCount as real * 100.0;
      assert 0.0 <= x <= 100.0 by {
        assert matchCount as real / keywordCount as real <= 1.0;
      }
      RoundTenthInRange(x);
      RoundTenth(x)
  }

  /** Every keyword matched gives full confidence; none matched gives none. */
  lemma MatchShareExtremes(n: nat)
    requires 0 < n
    ensures MatchShare(n, n) == 100.0
    ensures MatchShare(0, n) == 0.0
  {
    assert n as real / n as real * 100.0 == 1000 as real / 10.0;
    RoundTenthExact(1000);
    assert 0 as real / n as real * 100.0 == 0 as real / 10.0;
    RoundTenthExact(0);
  }

  /** More matches never lower the confidence. */
  lemma MatchShareMonotone(m1: nat, m2: nat, n: nat)
    requires m1 <= m2 <= n
    ensures MatchShare(m1, n) <= MatchShare(m2, n)
  {
    if n > 0 {
      assert m1 as real / n as real <= m2 as real / n as real;
      RoundTenthMonotone(m1 as real / n as real * 100.0, m2 as real / n as real * 100.0);
    }
  }

  /** The snippet for the first match: "..." + the stripped window from 100
      characters before its first occurrence to 200 after + "..."
      (lines 139-146); "" when `keyword` does not occur. */
  function Snippet(text: string, keyword: string): (r: string)
    ensures r == [] <==> !Contains(text, Lower(keyword))
    ensures r != [] ==> 6 <= |r| <= ContextBefore + ContextAfter + 6 && r[..3] == "..." && r[|r| - 3..] == "..."
  {
    var idx := Find(text, Lower(keyword));
    if idx == -1 then ""
    else
      var start := MaxInt(0, idx - ContextBefore);
      var end := MinInt(|text|, idx + ContextAfter);
      var body := Strip(text[start..end]);
      assert |body| <= ContextBefore + ContextAfter;
      "..." + body + "..."
  }

  /** The window cut for the snippet holds the whole first occurrence of a
      keyword of at most 200 characters, and at most 100 characters before it. */
  lemma SnippetWindowHoldsMatch(text: string, keyword: string)
    requires Contains(text, Lower(keyword)) && |keyword| <= ContextAfter
    ensures var idx := Find(text, Lower(keyword));
      var start := MaxInt(0, idx - ContextBefore);
      var end := MinInt(|text|, idx + ContextAfter);
      start <= idx && idx + |keyword| <= end && idx - start <= ContextBefore
      && text[idx..idx + |keyword|] == Lower(keyword)
  {
  }

  /** `analyze_content(html, keywords)` as a value; `extracted` is the page's
      text as `get_text` returns it. */
  function Analysis(extracted: string, keywords: seq<string>): (r: WealthAnalysis)
    ensures r.matches == PresentKeywords(Lower(extracted), keywords)
    ensures r.confidence == MatchShare(|r.matches|, |keywords|)
    ensures 0.0 <= r.confidence <= 100.0
    ensures keywords == [] ==> r.confidence == 0.0 && r.matches == []
    ensures r.snippet == [] <==> r.matches == []
    ensures r.matches != [] ==> r.snippet == Snippet(Lower(extracted), r.matches[0])
  {
    var text := Lower(extracted);
    var matches := PresentKeywords(text, keywords);
    var snippet := if matches != [] then Snippet(text, matches[0]) else "";
    assert matches != [] ==> matches[0] in matches;
    WealthAnalysis(matches, MatchShare(|matches|, |keywords|), snippet)
  }

  /** `analyze_content(html, keywords)` (wealth-crawler.py:122-152). */
  method AnalyzeContent(extracted: string, keywords: seq<string>) returns (r: WealthAnalysis)
    ensures r == Analysis(extracted, keywords)
  {
    var text := Lower(extracted);
    var matches: seq<string> := [];
    for i := 0 to |keywords|
      invariant matches == PresentKeywords(text, keywords[..i])
    {
      assert keywords[..i + 1][..i] == keywords[..i];
      if Contains(text, Lower(keywords[i])) {
        matches := matches + [keywords[i]];
      }
    }
    assert keywords[..|keywords|] == keywords;
    var confidence := MatchShare(|matches|, |keywords|);
    var snippet := "";
    if matches != [] {
      snippet := Snippet(text, matches[0]);
    }
    r := WealthAnalysis(matches, confidence, snippet);
  }

  /** `determine_status(confidence)` (wealth-crawler.py:154-161). */
  function DetermineStatus(confidence: real): (s: Status)
    ensures s == Found <==> confidence >= FoundThreshold
    ensures s == Partial <==> PartialThreshold <= confidence < FoundThreshold
    ensures s == NotFound <==> confidence < PartialThreshold
  {
    if confidence >= FoundThreshold then Found
    else if confidence >= PartialThreshold then Partial
    else NotFound
  }

  /** A higher confidence never gets a weaker verdict. */
  lemma StatusMonotone(a: real, b: real)
    requires a <= b
    ensures Rank(DetermineStatus(a)) <= Rank(DetermineStatus(b))
  {
  }
}
