/** The crawl-and-merge loop of the v2 engine (msci-intelligence-v2.py:637-724):
    a breadth-first walk over the target firm's pages that scores every page
    against every topic of the catalogue and keeps, per topic, the best result
    seen and the pages that matched. */
module MsciCrawl {
  import opened Common
  import opened MsciScoring
  import opened MsciLinks
  import opened MsciFetch
  import opened Frontier

  /** At most this many of a page's prioritised links are queued. */
  const LinksPerPage: nat := 8
  /** The per-request timeout, in seconds, `fetch_page_robust` is called with. */
  const RequestTimeout: nat := 10

  /** The record kept per topic (one entry of `intelligence[category][question]`). */
  datatype TopicIntel = TopicIntel(
    status: Status,
    confidence: real,
    matches: seq<KeywordHit>,
    snippets: seq<string>,
    sources: seq<string>,
    evidenceCount: nat)

  /** The record every topic starts with (lines 641-649). */
  const InitialIntel: TopicIntel := TopicIntel(NotFound, 0.0, [], [], [], 0)

  /** The status agrees with the confidence, the confidence is a percentage,
      and no page is listed twice as a source. */
  predicate ValidIntel(t: TopicIntel) {
    t.status == DetermineStatusAdvanced(t.confidence)
    && 0.0 <= t.confidence <= 100.0
    && Distinct(t.sources)
  }

  /** One topic's record after the page at `url` was analysed with result `r`
      (lines 675-687): the stored result is replaced only by a strictly more
      confident one, and `url` becomes a source when the page matched. */
  function MergeResult(t: TopicIntel, r: Analysis, url: string): (m: TopicIntel)
    ensures m.confidence == MaxReal(t.confidence, r.confidence)
    ensures r.confidence > t.confidence ==>
      m.status == DetermineStatusAdvanced(r.confidence) && m.matches == r.matches
      && m.snippets == r.snippets && m.evidenceCount == r.evidenceCount
    ensures r.confidence <= t.confidence ==> m.(sources := t.sources) == t
    ensures m.sources == if r.matches != [] && url !in t.sources then t.sources + [url] else t.sources
    ensures url in m.sources <==> url in t.sources || r.matches != []
    ensures ValidIntel(t) && r.confidence <= 100.0 ==> ValidIntel(m)
  {
    var best :=
      if r.confidence > t.confidence
      then t.(confidence := r.confidence, matches := r.matches, snippets := r.snippets,
              evidenceCount := r.evidenceCount, status := DetermineStatusAdvanced(r.confidence))
      else t;
    if r.matches != [] && url !in best.sources then best.(sources := best.sources + [url]) else best
  }

  /** The record after the pages `pages` (each an analysis and its URL) were
      merged in, in order. */
  function MergeAll(t: TopicIntel, pages: seq<(Analysis, string)>): TopicIntel {
    if pages == [] then t
    else MergeResult(MergeAll(t, pages[..|pages| - 1]), pages[|pages| - 1].0, pages[|pages| - 1].1)
  }

  /** After any run of pages the record holds the highest confidence seen. When
      that beats the starting record, the matches, snippets and evidence count
      are those of the earliest page reaching it; otherwise they never changed. */
  lemma {:induction false} MergeAllKeepsBest(t: TopicIntel, pages: seq<(Analysis, string)>)
    ensures var m := MergeAll(t, pages);
      t.confidence <= m.confidence
      && (forall i :: 0 <= i < |pages| ==> pages[i].0.confidence <= m.confidence)
      && (m.confidence == t.confidence ==> m.(sources := t.sources) == t)
      && (m.confidence > t.confidence ==>
            exists i :: 0 <= i < |pages| && pages[i].0.confidence == m.confidence
              && m.matches == pages[i].0.matches && m.snippets == pages[i].0.snippets
              && m.evidenceCount == pages[i].0.evidenceCount
              && forall j :: 0 <= j < i ==> pages[j].0.confidence < m.confidence)
  {
    if pages != [] {
      var n := |pages| - 1;
      var prev := MergeAll(t, pages[..n]);
      MergeAllKeepsBest(t, pages[..n]);
      assert forall i :: 0 <= i < n ==> pages[..n][i] == pages[i];
      var m := MergeAll(t, pages);
      if pages[n].0.confidence > prev.confidence {
        assert pages[n].0.confidence == m.confidence;
      } else if m.confidence > t.confidence {
        var i :| 0 <= i < n && pages[..n][i].0.confidence == prev.confidence
          && prev.matches == pages[..n][i].0.matches && prev.snippets == pages[..n][i].0.snippets
          && prev.evidenceCount == pages[..n][i].0.evidenceCount
          && forall j :: 0 <= j < i ==> pages[..n][j].0.confidence < prev.confidence;
        assert pages[i].0.confidence == m.confidence;
      }
    }
  }

  /** The URLs of the pages that matched some keyword, in page order,
      repeats included. */
  function MatchedUrls(pages: seq<(Analysis, string)>): seq<string> {
    if pages == [] then []
    else
      var n := |pages| - 1;
      MatchedUrls(pages[..n]) + (if pages[n].0.matches != [] then [pages[n].1] else [])
  }

  lemma {:induction false} MatchedUrlsMembers(pages: seq<(Analysis, string)>)
    ensures forall u :: u in MatchedUrls(pages) <==>
      exists i :: 0 <= i < |pages| && pages[i].1 == u && pages[i].0.matches != []
  {
    if pages != [] {
      var n := |pages| - 1;
      MatchedUrlsMembers(pages[..n]);
      assert forall i :: 0 <= i < n ==> pages[..n][i] == pages[i];
    }
  }

  /** Each page's URL is appended to the sources when the page matched and
      the URL is not yet among them. */
  lemma {:induction false} MergeAllSourcesInOrder(t: TopicIntel, pages: seq<(Analysis, string)>)
    ensures MergeAll(t, pages).sources == AppendNew(t.sources, MatchedUrls(pages))
  {
    if pages != [] {
      var n := |pages| - 1;
      var prev, before := MergeAll(t, pages[..n]), MatchedUrls(pages[..n]);
      MergeAllSourcesInOrder(t, pages[..n]);
      assert MergeAll(t, pages) == MergeResult(prev, pages[n].0, pages[n].1);
      if pages[n].0.matches != [] {
        assert MatchedUrls(pages) == before + [pages[n].1];
        AppendNewSnoc(t.sources, before, pages[n].1);
      } else {
        assert MatchedUrls(pages) == before;
      }
    }
  }

  /** The sources are the starting sources followed by the URL of every page
      that matched some keyword, each once, in the order first matched. */
  lemma MergeAllSources(t: TopicIntel, pages: seq<(Analysis, string)>)
    requires Distinct(t.sources)
    ensures var m := MergeAll(t, pages);
      m.sources == AppendNew(t.sources, MatchedUrls(pages))
      && Distinct(m.sources) && t.sources <= m.sources
      && forall u :: u in m.sources <==>
           u in t.sources || exists i :: 0 <= i < |pages| && pages[i].1 == u && pages[i].0.matches != []
  {
    MergeAllSourcesInOrder(t, pages);
    MatchedUrlsMembers(pages);
  }

  /** Merging keeps every record valid. */
  lemma {:induction false} MergeAllValid(t: TopicIntel, pages: seq<(Analysis, string)>)
    requires ValidIntel(t)
    requires forall i :: 0 <= i < |pages| ==> pages[i].0.confidence <= 100.0
    ensures ValidIntel(MergeAll(t, pages))
  {
    if pages != [] {
      var n := |pages| - 1;
      assert forall i :: 0 <= i < n ==> pages[..n][i] == pages[i];
      MergeAllValid(t, pages[..n]);
    }
  }

  /** Every topic's record after the page `html` at `url` was analysed; `text`
      is the page's visible text. */
  function MergePage(intel: seq<TopicIntel>, catalogue: seq<TopicConfig>, html: string, text: string, url: string)
    : (r: seq<TopicIntel>)
    requires |intel| == |catalogue|
    ensures |r| == |intel|
    ensures forall j :: 0 <= j < |r| ==>
      intel[j].confidence <= r[j].confidence && intel[j].sources <= r[j].sources
      && (ValidIntel(intel[j]) ==> ValidIntel(r[j]))
      && (catalogue[j].keywords == [] && intel[j] == InitialIntel ==> r[j] == InitialIntel)
  {
    seq(|intel|, j requires 0 <= j < |intel| => MergeResult(intel[j], Analyze(html, text, catalogue[j]), url))
  }

  /** The crawl's state: the inputs it was started with (the catalogue, the
      budget, the depth limit) and the library calls it makes (the network,
      `get_text`, the resolved `<a href>` targets, `urlparse(url).netloc`)
      as constants, and the loop's variables as fields. */
  class IntelligenceCrawl {
    const catalogue: seq<TopicConfig>
    const maxPages: nat
    const maxDepth: nat
    /** `network(n, url)`: what each attempt of the `n`-th fetch, made to `url`, gives. */
    const network: (nat, string) -> (nat -> FetchOutcome)
    /** The visible text BeautifulSoup extracts from a page. */
    const visibleText: string -> string
    /** The parsed absolute URLs of the `<a href>` elements of page `html` at `url`. */
    const anchorsOf: (string, string) -> seq<Option<Url>>
    /** The host part of a URL. */
    const hostOf: string -> string

    var toVisit: seq<Entry>
    var visited: set<string>
    var pagesCrawled: nat
    var fetches: nat
    var intelligence: seq<TopicIntel>
    /** The prioritised links of the last page whose links were followed. */
    ghost var lastLinks: seq<string>

    /** The budget is respected, every crawled page was counted once, no queued
        page lies beyond the depth limit, and every topic's record is valid;
        a topic without keywords keeps its starting record. */
    ghost predicate Valid()
      reads this
    {
      pagesCrawled <= maxPages
      && |visited| == pagesCrawled
      && (forall e :: e in toVisit ==> e.1 <= maxDepth)
      && |intelligence| == |catalogue|
      && (forall j :: 0 <= j < |intelligence| ==> ValidIntel(intelligence[j]))
      && (forall j :: 0 <= j < |intelligence| && catalogue[j].keywords == [] ==> intelligence[j] == InitialIntel)
    }

    /** The state before the first page (lines 637-654). */
    constructor (catalogue: seq<TopicConfig>, startUrl: string, maxPages: nat, maxDepth: nat,
                 network: (nat, string) -> (nat -> FetchOutcome), visibleText: string -> string,
                 anchorsOf: (string, string) -> seq<Option<Url>>, hostOf: string -> string)
      ensures Valid()
      ensures this.catalogue == catalogue && this.maxPages == maxPages && this.maxDepth == maxDepth
      ensures this.network == network && this.visibleText == visibleText
      ensures this.anchorsOf == anchorsOf && this.hostOf == hostOf
      ensures toVisit == [(startUrl, 0)] && visited == {} && pagesCrawled == 0 && fetches == 0
      ensures intelligence == seq(|catalogue|, _ => InitialIntel)
    {
      this.catalogue := catalogue;
      this.maxPages := maxPages;
      this.maxDepth := maxDepth;
      this.network := network;
      this.visibleText := visibleText;
      this.anchorsOf := anchorsOf;
      this.hostOf := hostOf;
      toVisit := [(startUrl, 0)];
      visited := {};
      pagesCrawled := 0;
      fetches := 0;
      intelligence := seq(|catalogue|, _ => InitialIntel);
      lastLinks := [];
    }

    /** What `fetch_page_robust` returns for the `n`-th fetch, made to `url`. */
    function Fetched(n: nat, url: string): Option<string> {
      RetryFrom(network(n, url), DefaultRetries, 0).body
    }

    /** Analyses the page for every topic and merges each result into that
        topic's record (lines 671-687). */
    method AnalyzePage(html: string, url: string)
      requires |intelligence| == |catalogue|
      modifies this`intelligence
      ensures intelligence == MergePage(old(intelligence), catalogue, html, visibleText(html), url)
    {
      ghost var before := intelligence;
      var text := visibleText(html);
      for k := 0 to |catalogue|
        invariant |intelligence| == |catalogue|
        invariant forall j :: 0 <= j < k ==>
          intelligence[j] == MergeResult(before[j], Analyze(html, text, catalogue[j]), url)
        invariant forall j :: k <= j < |catalogue| ==> intelligence[j] == before[j]
      {
        var result := AnalyzeContentAdvanced(html, text, catalogue[k]);
        intelligence := intelligence[k := MergeResult(intelligence[k], result, url)];
      }
    }

    /** Follows the links of a crawled page one level deeper (lines 689-697). */
    method FollowLinks(html: string, url: string, depth: nat)
      requires html != [] && depth < maxDepth
      modifies this`toVisit, this`lastLinks
      ensures toVisit == old(toVisit) + Unvisited(lastLinks[..MinInt(LinksPerPage, |lastLinks|)], visited, depth)
      ensures Distinct(lastLinks)
      ensures forall l :: l in lastLinks <==> IsInternalLink(l, hostOf(url), anchorsOf(url, html))
      ensures PriorityFirst(lastLinks)
    {
      var links := ExtractInternalLinks(html, hostOf(url), anchorsOf(url, html));
      var prioritized := PrioritizeLinks(links, []);
      PartitionKeepsDistinct(links);
      lastLinks := prioritized;
      toVisit := AppendUnvisited(toVisit, prioritized, LinksPerPage, visited, depth);
    }

    /** Records a fetched, non-empty page that was not visited before: counts
        it, merges it into every topic, and follows its links unless it lies
        at the depth limit (lines 666-697). */
    method RecordPage(html: string, url: string, depth: nat)
      requires Valid() && html != [] && url !in visited && depth <= maxDepth && pagesCrawled < maxPages
      modifies this`visited, this`pagesCrawled, this`intelligence, this`toVisit, this`lastLinks
      ensures Valid()
      ensures visited == old(visited) + {url} && pagesCrawled == old(pagesCrawled) + 1
      ensures intelligence == MergePage(old(intelligence), catalogue, html, visibleText(html), url)
      ensures depth < maxDepth ==>
        toVisit == old(toVisit) + Unvisited(lastLinks[..MinInt(LinksPerPage, |lastLinks|)], visited, depth)
        && Distinct(lastLinks) && PriorityFirst(lastLinks)
        && forall l :: l in lastLinks <==> IsInternalLink(l, hostOf(url), anchorsOf(url, html))
      ensures depth >= maxDepth ==> toVisit == old(toVisit)
      ensures forall j :: 0 <= j < |intelligence| ==>
        old(intelligence)[j].confidence <= intelligence[j].confidence
        && old(intelligence)[j].sources <= intelligence[j].sources
    {
      visited := visited + {url};
      pagesCrawled := pagesCrawled + 1;
      AnalyzePage(html, url);
      if depth < maxDepth {
        FollowLinks(html, url, depth);
      }
    }

    /** One turn of `while to_visit and pages_crawled < max_pages` (lines 656-724):
        the front entry is taken off the queue; it is skipped when already
        visited; otherwise the page is fetched, and only a non-empty page is
        recorded, merged into every topic, and has its links followed. */
    method Step()
      requires Valid() && toVisit != [] && pagesCrawled < maxPages
      modifies this
      ensures Valid()
      ensures pagesCrawled == old(pagesCrawled) + 1
        || (pagesCrawled == old(pagesCrawled) && |toVisit| == old(|toVisit|) - 1)
      ensures var url := old(toVisit[0].0);
        var page := if url in old(visited) then None else Fetched(old(fetches), url);
        page.None? || page.value == [] ==>
          toVisit == old(toVisit[1..]) && visited == old(visited) && pagesCrawled == old(pagesCrawled)
          && intelligence == old(intelligence)
          && fetches == (if url in old(visited) then old(fetches) else old(fetches) + 1)
      ensures var url, depth := old(toVisit[0].0), old(toVisit[0].1);
        var page := if url in old(visited) then None else Fetched(old(fetches), url);
        page.Some? && page.value != [] ==>
          visited == old(visited) + {url} && pagesCrawled == old(pagesCrawled) + 1
          && fetches == old(fetches) + 1
          && intelligence == MergePage(old(intelligence), catalogue, page.value, visibleText(page.value), url)
          && (depth < maxDepth ==>
                toVisit == old(toVisit[1..]) + Unvisited(lastLinks[..MinInt(LinksPerPage, |lastLinks|)], visited, depth)
                && Distinct(lastLinks) && PriorityFirst(lastLinks)
                && forall l :: l in lastLinks <==> IsInternalLink(l, hostOf(url), anchorsOf(url, page.value)))
          && (depth >= maxDepth ==> toVisit == old(toVisit[1..]))
      ensures forall j :: 0 <= j < |intelligence| ==>
        old(intelligence)[j].confidence <= intelligence[j].confidence
        && old(intelligence)[j].sources <= intelligence[j].sources
    {
      var url, depth := toVisit[0].0, toVisit[0].1;
      toVisit := toVisit[1..];
      if url in visited || depth > maxDepth {
        return;
      }
      var html, _, _ := FetchPageRobust(url, network(fetches, url), RequestTimeout, DefaultRetries);
      fetches := fetches + 1;
      if html.Some? && html.value != [] {
        RecordPage(html.value, url, depth);
      }
    }

    /** The whole loop: runs until the queue is empty or the page budget is
        spent. No topic's confidence or sources ever shrink. */
    method Run()
      requires Valid()
      modifies this
      ensures Valid()
      ensures toVisit == [] || pagesCrawled == maxPages
      ensures old(visited) <= visited && old(pagesCrawled) <= pagesCrawled
      ensures forall j :: 0 <= j < |intelligence| ==>
        old(intelligence)[j].confidence <= intelligence[j].confidence
        && old(intelligence)[j].sources <= intelligence[j].sources
    {
      while toVisit != [] && pagesCrawled < maxPages
        invariant Valid()
        invariant old(visited) <= visited && old(pagesCrawled) <= pagesCrawled
        invariant |intelligence| == |old(intelligence)|
        invariant forall j :: 0 <= j < |intelligence| ==>
          old(intelligence)[j].confidence <= intelligence[j].confidence
          && old(intelligence)[j].sources <= intelligence[j].sources
        decreases maxPages - pagesCrawled, |toVisit|
      {
        Step();
      }
    }
  }

  /** The whole gathering run from `startUrl`: every topic ends with a valid
      record, topics without keywords are never found, and the budget holds. */
  method GatherIntelligence(catalogue: seq<TopicConfig>, startUrl: string, maxPages: nat, maxDepth: nat,
                            network: (nat, string) -> (nat -> FetchOutcome), visibleText: string -> string,
                            anchorsOf: (string, string) -> seq<Option<Url>>, hostOf: string -> string)
    returns (intelligence: seq<TopicIntel>, pagesCrawled: nat)
    ensures |intelligence| == |catalogue| && pagesCrawled <= maxPages
    ensures forall j :: 0 <= j < |intelligence| ==> ValidIntel(intelligence[j])
    ensures forall j :: 0 <= j < |intelligence| && catalogue[j].keywords == [] ==> intelligence[j] == InitialIntel
  {
    var crawl := new IntelligenceCrawl(catalogue, startUrl, maxPages, maxDepth, network, visibleText, anchorsOf, hostOf);
    crawl.Run();
    intelligence, pagesCrawled := crawl.intelligence, crawl.pagesCrawled;
  }
}
