/** The crawl-and-merge loop of the older crawler (wealth-crawler.py:210-278):
    the same breadth-first walk as the v2 engine, with presence-based scoring,
    the 70/40 thresholds, one snippet per question and at most 5 links
    followed per page, taken in the unspecified order of the link set. */
module WealthCrawl {
  import opened Common
  import opened WealthScoring
  import opened WealthLinks
  import opened Frontier

  /** At most this many of a page's links are queued. */
  const LinksPerPage: nat := 5

  /** The record kept per question (one entry of `findings[category][question]`). */
  datatype Finding = Finding(status: Status, confidence: real, matches: seq<string>, snippet: string, sources: seq<string>)

  /** The record every question starts with (lines 215-221). */
  const InitialFinding: Finding := Finding(NotFound, 0.0, [], "", [])

  /** The status agrees with the confidence, the confidence is a percentage,
      and no page is listed twice as a source. */
  predicate ValidFinding(f: Finding) {
    f.status == DetermineStatus(f.confidence)
    && 0.0 <= f.confidence <= 100.0
    && Distinct(f.sources)
  }

  /** One question's record after the page at `url` was analysed with result
      `r` (lines 248-256): replaced only by a strictly more confident result,
      and `url` becomes a source when the page matched. */
  function MergeFinding(f: Finding, r: WealthAnalysis, url: string): (m: Finding)
    ensures m.confidence == MaxReal(f.confidence, r.confidence)
    ensures r.confidence > f.confidence ==>
      m.status == DetermineStatus(r.confidence) && m.matches == r.matches && m.snippet == r.snippet
    ensures r.confidence <= f.confidence ==> m.(sources := f.sources) == f
    ensures m.sources == if r.matches != [] && url !in f.sources then f.sources + [url] else f.sources
    ensures url in m.sources <==> url in f.sources || r.matches != []
    ensures ValidFinding(f) && r.confidence <= 100.0 ==> ValidFinding(m)
  {
    var best :=
      if r.confidence > f.confidence
      then f.(confidence := r.confidence, matches := r.matches, snippet := r.snippet,
              status := DetermineStatus(r.confidence))
      else f;
    if r.matches != [] && url !in best.sources then best.(sources := best.sources + [url]) else best
  }

  /** The record after the pages `pages` (each an analysis and its URL) were
      merged in, in order. */
  function MergeFindings(f: Finding, pages: seq<(WealthAnalysis, string)>): Finding {
    if pages == [] then f
    else MergeFinding(MergeFindings(f, pages[..|pages| - 1]), pages[|pages| - 1].0, pages[|pages| - 1].1)
  }

  /** The stored confidence is the highest seen, and the matches and snippet
      are those of the earliest page reaching it (or the starting ones when no
      page beat them). */
  lemma {:induction false} MergeFindingsKeepsBest(f: Finding, pages: seq<(WealthAnalysis, string)>)
    ensures var m := MergeFindings(f, pages);
      f.confidence <= m.confidence
      && (forall i :: 0 <= i < |pages| ==> pages[i].0.confidence <= m.confidence)
      && (m.confidence == f.confidence ==> m.(sources := f.sources) == f)
      && (m.confidence > f.confidence ==>
            exists i :: 0 <= i < |pages| && pages[i].0.confidence == m.confidence
              && m.matches == pages[i].0.matches && m.snippet == pages[i].0.snippet
              && forall j :: 0 <= j < i ==> pages[j].0.confidence < m.confidence)
  {
    if pages != [] {
      var n := |pages| - 1;
      var prev := MergeFindings(f, pages[..n]);
      MergeFindingsKeepsBest(f, pages[..n]);
      assert forall i :: 0 <= i < n ==> pages[..n][i] == pages[i];
      var m := MergeFindings(f, pages);
      if pages[n].0.confidence > prev.confidence {
        assert pages[n].0.confidence == m.confidence;
      } else if m.confidence > f.confidence {
        var i :| 0 <= i < n && pages[..n][i].0.confidence == prev.confidence
          && prev.matches == pages[..n][i].0.matches && prev.snippet == pages[..n][i].0.snippet
          && forall j :: 0 <= j < i ==> pages[..n][j].0.confidence < prev.confidence;
        assert pages[i].0.confidence == m.confidence;
      }
    }
  }

  /** The URLs of the pages that matched some keyword, in page order,
      repeats included. */
  function MatchedUrls(pages: seq<(WealthAnalysis, string)>): seq<string> {
    if pages == [] then []
    else
      var n := |pages| - 1;
      MatchedUrls(pages[..n]) + (if pages[n].0.matches != [] then [pages[n].1] else [])
  }

  lemma {:induction false} MatchedUrlsMembers(pages: seq<(WealthAnalysis, string)>)
    ensures forall u :: u in MatchedUrls(pages) <==>
      exists i :: 0 <= i < |pages| && pages[i].1 == u && pages[i].0.matches != []
  {
    if pages != [] {
      var n := |pages| - 1;
      MatchedUrlsMembers(pages[..n]);
      assert forall i :: 0 <= i < n ==> pages[..n][i] == pages[i];
    }
  }

  /** Each page's URL is appended to the sources when the page matched and
      the URL is not yet among them. */
  lemma {:induction false} MergeFindingsSourcesInOrder(f: Finding, pages: seq<(WealthAnalysis, string)>)
    ensures MergeFindings(f, pages).sources == AppendNew(f.sources, MatchedUrls(pages))
  {
    if pages != [] {
      var n := |pages| - 1;
      var prev, before := MergeFindings(f, pages[..n]), MatchedUrls(pages[..n]);
      MergeFindingsSourcesInOrder(f, pages[..n]);
      assert MergeFindings(f, pages) == MergeFinding(prev, pages[n].0, pages[n].1);
      if pages[n].0.matches != [] {
        assert MatchedUrls(pages) == before + [pages[n].1];
        AppendNewSnoc(f.sources, before, pages[n].1);
      } else {
        assert MatchedUrls(pages) == before;
      }
    }
  }

  /** The sources are the starting sources followed by the URL of every page
      that matched some keyword, each once, in the order first matched. */
  lemma MergeFindingsSources(f: Finding, pages: seq<(WealthAnalysis, string)>)
    requires Distinct(f.sources)
    ensures var m := MergeFindings(f, pages);
      m.sources == AppendNew(f.sources, MatchedUrls(pages))
      && Distinct(m.sources) && f.sources <= m.sources
      && forall u :: u in m.sources <==>
           u in f.sources || exists i :: 0 <= i < |pages| && pages[i].1 == u && pages[i].0.matches != []
  {
    MergeFindingsSourcesInOrder(f, pages);
    MatchedUrlsMembers(pages);
  }

  /** Every question's record after the page with visible text `text` at
      `url` was analysed. */
  function MergePageFindings(findings: seq<Finding>, catalogue: seq<seq<string>>, text: string, url: string)
    : (r: seq<Finding>)
    requires |findings| == |catalogue|
    ensures |r| == |findings|
    ensures forall j :: 0 <= j < |r| ==>
      findings[j].confidence <= r[j].confidence && findings[j].sources <= r[j].sources
      && (ValidFinding(findings[j]) ==> ValidFinding(r[j]))
      && (catalogue[j] == [] && findings[j] == InitialFinding ==> r[j] == InitialFinding)
  {
    seq(|findings|, j requires 0 <= j < |findings| => MergeFinding(findings[j], Analysis(text, catalogue[j]), url))
  }

  /** The crawl's state: its inputs and the library calls it makes as
      constants, the loop's variables as fields. */
  class WealthCrawler {
    /** The keywords of every question, the categories flattened. */
    const catalogue: seq<seq<string>>
    const maxPages: nat
    const maxDepth: nat
    /** `fetchPage(n, url)`: what `fetch_page` returns for the `n`-th fetch, made to `url`. */
    const fetchPage: (nat, string) -> Option<string>
    /** The text BeautifulSoup extracts from a page. */
    const visibleText: string -> string
    /** The absolute URL and host of each `<a href>` of page `html` at `url`. */
    const anchorsOf: (string, string) -> seq<(string, string)>
    /** The host part of a URL. */
    const hostOf: string -> string

    var toVisit: seq<Entry>
    var visited: set<string>
    var pagesCrawled: nat
    var fetches: nat
    var findings: seq<Finding>
    /** The extracted links of the last page whose links were followed. */
    ghost var lastLinks: seq<string>

    /** The budget is respected, every crawled page was counted once, no queued
        page lies beyond the depth limit, and every record is valid; a question
        without keywords keeps its starting record. */
    ghost predicate Valid()
      reads this
    {
      pagesCrawled <= maxPages
      && |visited| == pagesCrawled
      && (forall e :: e in toVisit ==> e.1 <= maxDepth)
      && |findings| == |catalogue|
      && (forall j :: 0 <= j < |findings| ==> ValidFinding(findings[j]))
      && (forall j :: 0 <= j < |findings| && catalogue[j] == [] ==> findings[j] == InitialFinding)
    }

    /** The state before the first page (lines 210-226). */
    constructor (catalogue: seq<seq<string>>, startUrl: string, maxPages: nat, maxDepth: nat,
                 fetchPage: (nat, string) -> Option<string>, visibleText: string -> string,
                 anchorsOf: (string, string) -> seq<(string, string)>, hostOf: string -> string)
      ensures Valid()
      ensures this.catalogue == catalogue && this.maxPages == maxPages && this.maxDepth == maxDepth
      ensures this.fetchPage == fetchPage && this.visibleText == visibleText
      ensures this.anchorsOf == anchorsOf && this.hostOf == hostOf
      ensures toVisit == [(startUrl, 0)] && visited == {} && pagesCrawled == 0 && fetches == 0
      ensures findings == seq(|catalogue|, _ => InitialFinding)
    {
      this.catalogue := catalogue;
      this.maxPages := maxPages;
      this.maxDepth := maxDepth;
      this.fetchPage := fetchPage;
      this.visibleText := visibleText;
      this.anchorsOf := anchorsOf;
      this.hostOf := hostOf;
      toVisit := [(startUrl, 0)];
      visited := {};
      pagesCrawled := 0;
      fetches := 0;
      findings := seq(|catalogue|, _ => InitialFinding);
      lastLinks := [];
    }

    /** Analyses the page for every question and merges each result into that
        question's record (lines 242-256). */
    method AnalyzePage(html: string, url: string)
      requires |findings| == |catalogue|
      modifies this`findings
      ensures findings == MergePageFindings(old(findings), catalogue, visibleText(html), url)
    {
      ghost var before := findings;
      var text := visibleText(html);
      for k := 0 to |catalogue|
        invariant |findings| == |catalogue|
        invariant forall j :: 0 <= j < k ==> findings[j] == MergeFinding(before[j], Analysis(text, catalogue[j]), url)
        invariant forall j :: k <= j < |catalogue| ==> findings[j] == before[j]
      {
        var result := AnalyzeContent(text, catalogue[k]);
        findings := findings[k := MergeFinding(findings[k], result, url)];
      }
    }

    /** Follows the links of a crawled page one level deeper (lines 258-263). */
    method FollowLinks(html: string, url: string, depth: nat)
      modifies this`toVisit, this`lastLinks
      ensures toVisit == old(toVisit) + Unvisited(lastLinks[..MinInt(LinksPerPage, |lastLinks|)], visited, depth)
      ensures Distinct(lastLinks)
      ensures forall l :: l in lastLinks <==> IsSameHostLink(l, hostOf(url), anchorsOf(url, html))
    {
      var links := ExtractInternalLinks(hostOf(url), anchorsOf(url, html));
      lastLinks := links;
      toVisit := AppendUnvisited(toVisit, links, LinksPerPage, visited, depth);
    }

    /** Records a fetched, non-empty page that was not visited before: counts
        it, merges it into every question, and follows its links unless it
        lies at the depth limit (lines 238-263). */
    method RecordPage(html: string, url: string, depth: nat)
      requires Valid() && html != [] && url !in visited && depth <= maxDepth && pagesCrawled < maxPages
      modifies this`visited, this`pagesCrawled, this`findings, this`toVisit, this`lastLinks
      ensures Valid()
      ensures visited == old(visited) + {url} && pagesCrawled == old(pagesCrawled) + 1
      ensures findings == MergePageFindings(old(findings), catalogue, visibleText(html), url)
      ensures depth < maxDepth ==>
        toVisit == old(toVisit) + Unvisited(lastLinks[..MinInt(LinksPerPage, |lastLinks|)], visited, depth)
        && Distinct(lastLinks)
        && forall l :: l in lastLinks <==> IsSameHostLink(l, hostOf(url), anchorsOf(url, html))
      ensures depth >= maxDepth ==> toVisit == old(toVisit)
      ensures forall j :: 0 <= j < |findings| ==>
        old(findings)[j].confidence <= findings[j].confidence
        && old(findings)[j].sources <= findings[j].sources
    {
      visited := visited + {url};
      pagesCrawled := pagesCrawled + 1;
      AnalyzePage(html, url);
      if depth < maxDepth {
        FollowLinks(html, url, depth);
      }
    }

    /** One turn of `while to_visit and pages_crawled < max_pages` (lines
        224-278): the front entry is taken off the queue; it is skipped when
        already visited; otherwise the page is fetched, and only a non-empty
        page is recorded, merged into every question, and has its links
        followed. */
    method Step()
      requires Valid() && toVisit != [] && pagesCrawled < maxPages
      modifies this
      ensures Valid()
      ensures pagesCrawled == old(pagesCrawled) + 1
        || (pagesCrawled == old(pagesCrawled) && |toVisit| == old(|toVisit|) - 1)
      ensures var url := old(toVisit[0].0);
        var page := if url in old(visited) then None else fetchPage(old(fetches), url);
        page.None? || page.value == [] ==>
          toVisit == old(toVisit[1..]) && visited == old(visited) && pagesCrawled == old(pagesCrawled)
          && findings == old(findings)
          && fetches == (if url in old(visited) then old(fetches) else old(fetches) + 1)
      ensures var url, depth := old(toVisit[0].0), old(toVisit[0].1);
        var page := if url in old(visited) then None else fetchPage(old(fetches), url);
        page.Some? && page.value != [] ==>
          visited == old(visited) + {url} && pagesCrawled == old(pagesCrawled) + 1
          && fetches == old(fetches) + 1
          && findings == MergePageFindings(old(findings), catalogue, visibleText(page.value), url)
          && (depth < maxDepth ==>
                toVisit == old(toVisit[1..]) + Unvisited(lastLinks[..MinInt(LinksPerPage, |lastLinks|)], visited, depth)
                && Distinct(lastLinks)
                && forall l :: l in lastLinks <==> IsSameHostLink(l, hostOf(url), anchorsOf(url, page.value)))
          && (depth >= maxDepth ==> toVisit == old(toVisit[1..]))
      ensures forall j :: 0 <= j < |findings| ==>
        old(findings)[j].confidence <= findings[j].confidence
        && old(findings)[j].sources <= findings[j].sources
    {
      var url, depth := toVisit[0].0, toVisit[0].1;
      toVisit := toVisit[1..];
      if url in visited || depth > maxDepth {
        return;
      }
      var html := fetchPage(fetches, url);
      fetches := fetches + 1;
      if html.Some? && html.value != [] {
        RecordPage(html.value, url, depth);
      }
    }

    /** The whole loop: runs until the queue is empty or the page budget is
        spent. No question's confidence or sources ever shrink. */
    method Run()
      requires Valid()
      modifies this
      ensures Valid()
      ensures toVisit == [] || pagesCrawled == maxPages
      ensures old(visited) <= visited && old(pagesCrawled) <= pagesCrawled
      ensures forall j :: 0 <= j < |findings| ==>
        old(findings)[j].confidence <= findings[j].confidence
        && old(findings)[j].sources <= findings[j].sources
    {
      while toVisit != [] && pagesCrawled < maxPages
        invariant Valid()
        invariant old(visited) <= visited && old(pagesCrawled) <= pagesCrawled
        invariant |findings| == |old(findings)|
        invariant forall j :: 0 <= j < |findings| ==>
          old(findings)[j].confidence <= findings[j].confidence
          && old(findings)[j].sources <= findings[j].sources
        decreases maxPages - pagesCrawled, |toVisit|
      {
        Step();
      }
    }
  }

  /** The whole crawl from `startUrl`: every question ends with a valid record,
      questions without keywords are never found, and the budget holds. */
  method CrawlFirm(catalogue: seq<seq<string>>, startUrl: string, maxPages: nat, maxDepth: nat,
                   fetchPage: (nat, string) -> Option<string>, visibleText: string -> string,
                   anchorsOf: (string, string) -> seq<(string, string)>, hostOf: string -> string)
    returns (findings: seq<Finding>, pagesCrawled: nat)
    ensures |findings| == |catalogue| && pagesCrawled <= maxPages
    ensures forall j :: 0 <= j < |findings| ==> ValidFinding(findings[j])
    ensures forall j :: 0 <= j < |findings| && catalogue[j] == [] ==> findings[j] == InitialFinding
  {
    var crawler := new WealthCrawler(catalogue, startUrl, maxPages, maxDepth, fetchPage, visibleText, anchorsOf, hostOf);
    crawler.Run();
    findings, pagesCrawled := crawler.findings, crawler.pagesCrawled;
  }
}
