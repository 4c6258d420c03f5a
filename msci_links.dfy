/** Link post-processing of the v2 engine (msci-intelligence-v2.py): the
    same-host filter and URL normalisation of `extract_internal_links`, and the
    stable partition of `prioritize_links`. Parsing the HTML and resolving each
    href (`urljoin`, `urlparse`) are library calls: their results come in as
    URL components. */
module MsciLinks {
  import opened Common
  import opened PyStr

  /** The components `urlparse` yields for a resolved link. */
  datatype Url = Url(scheme: string, netloc: string, path: string, query: string, fragment: string)

  /** `f"{scheme}://{netloc}{path.rstrip('/')}"`, then `?{query}` when the query
      is non-empty (msci-intelligence-v2.py:402-404); the fragment is dropped. */
  function NormalizeUrl(u: Url): string {
    u.scheme + "://" + u.netloc + RStripSlash(u.path) + (if u.query != [] then "?" + u.query else "")
  }

  /** The components of the normalised form of `u`. */
  function NormalizedParts(u: Url): Url {
    Url(u.scheme, u.netloc, RStripSlash(u.path), u.query, "")
  }

  function Slashes(n: nat): (r: string)
    ensures |r| == n && forall i :: 0 <= i < n ==> r[i] == '/'
  {
    if n == 0 then "" else Slashes(n - 1) + "/"
  }

  lemma {:induction false} RStripSlashIgnoresSlashes(p: string, n: nat)
    ensures RStripSlash(p + Slashes(n)) == RStripSlash(p)
  {
    if n > 0 {
      assert (p + Slashes(n))[..|p + Slashes(n)| - 1] == p + Slashes(n - 1);
      RStripSlashIgnoresSlashes(p, n - 1);
    } else {
      assert p + Slashes(0) == p;
    }
  }

  /** Two links differing only in their fragment or in trailing slashes on the
      path normalise to the same string. */
  lemma NormalizeIgnoresFragmentAndTrailingSlashes(u: Url, fragment: string, n: nat)
    ensures NormalizeUrl(u.(path := u.path + Slashes(n), fragment := fragment)) == NormalizeUrl(u)
  {
    RStripSlashIgnoresSlashes(u.path, n);
  }

  /** Normalising is idempotent: the normalised components normalise to
      themselves and render the same string. */
  lemma NormalizeIdempotent(u: Url)
    ensures NormalizedParts(NormalizedParts(u)) == NormalizedParts(u)
    ensures NormalizeUrl(NormalizedParts(u)) == NormalizeUrl(u)
  {
    var p := RStripSlash(u.path);
    if p != [] {
      assert p[|p| - 1] != '/';
    }
  }

  /** A link is kept when it resolved and its host is the page's host. */
  predicate SameHost(a: Option<Url>, baseNetloc: string) {
    a.Some? && a.value.netloc == baseNetloc
  }

  /** `l` is the normalised form of one of the page's same-host links. */
  predicate IsInternalLink(l: string, baseNetloc: string, anchors: seq<Option<Url>>) {
    exists i :: 0 <= i < |anchors| && SameHost(anchors[i], baseNetloc) && NormalizeUrl(anchors[i].value) == l
  }

  /** `extract_internal_links(html, base_url)` (msci-intelligence-v2.py:378-409):
      `anchors` are the parsed absolute URLs of the page's `<a href>` elements in
      document order (None where resolving raised), `baseNetloc` the host of the
      page. The result has each normalised same-host link once, in no particular
      order. */
  method ExtractInternalLinks(html: string, baseNetloc: string, anchors: seq<Option<Url>>)
    returns (links: seq<string>)
    ensures html == [] ==> links == []
    ensures html != [] ==> forall l :: l in links <==> IsInternalLink(l, baseNetloc, anchors)
    ensures Distinct(links)
  {
    if html == [] {
      return [];
    }
    var found: set<string> := {};
    for i := 0 to |anchors|
      invariant forall l :: l in found <==> IsInternalLink(l, baseNetloc, anchors[..i])
    {
      match anchors[i]
      case None =>
      case Some(u) =>
        if u.netloc == baseNetloc {
          found := found + {NormalizeUrl(u)};
        }
    }
    assert anchors[..|anchors|] == anchors;
    links := SetToSeq(found);
  }

  /** The fragments that mark a link as informative (lines 528-532). */
  const PriorityKeywords: seq<string> := [
    "about", "capabilities", "solutions", "services", "products",
    "investment", "approach", "strategy", "team", "esg",
    "sustainability", "technology", "platform"
  ]

  /** `any(keyword in link.lower() for keyword in priority_keywords)`. */
  predicate IsPriorityLink(link: string) {
    exists i :: 0 <= i < |PriorityKeywords| && Contains(Lower(link), PriorityKeywords[i])
  }

  /** No priority link comes after a link that is not one. */
  predicate PriorityFirst(links: seq<string>) {
    forall i, j :: 0 <= i < j < |links| && IsPriorityLink(links[j]) ==> IsPriorityLink(links[i])
  }

  /** The links of `links` that are (or are not) priority links, in input order. */
  function Select(links: seq<string>, priority: bool): (r: seq<string>)
    ensures |r| <= |links|
    ensures forall l :: l in r <==> l in links && IsPriorityLink(l) == priority
  {
    if links == [] then []
    else
      var last := links[|links| - 1];
      assert links == links[..|links| - 1] + [last];
      Select(links[..|links| - 1], priority) + (if IsPriorityLink(last) == priority then [last] else [])
  }

  lemma {:induction false} SelectAppend(a: seq<string>, b: seq<string>, priority: bool)
    ensures Select(a + b, priority) == Select(a, priority) + Select(b, priority)
    decreases |b|
  {
    if b == [] {
      assert a + b == a;
    } else {
      assert (a + b)[..|a + b| - 1] == a + b[..|b| - 1];
      SelectAppend(a, b[..|b| - 1], priority);
    }
  }

  /** The two groups together hold every link exactly as often as the input. */
  lemma {:induction false} PartitionIsPermutation(links: seq<string>)
    ensures multiset(Select(links, true) + Select(links, false)) == multiset(links)
  {
    if links != [] {
      var prev := links[..|links| - 1];
      var last := links[|links| - 1];
      assert links == prev + [last];
      PartitionIsPermutation(prev);
    }
  }

  /** Selecting from a duplicate-free list gives a duplicate-free list. */
  lemma {:induction false} SelectDistinct(links: seq<string>, priority: bool)
    requires Distinct(links)
    ensures Distinct(Select(links, priority))
  {
    if links != [] {
      var prev := links[..|links| - 1];
      var last := links[|links| - 1];
      assert Distinct(prev);
      SelectDistinct(prev, priority);
      assert last !in prev;
    }
  }

  /** Partitioning a duplicate-free list introduces no duplicate. */
  lemma PartitionKeepsDistinct(links: seq<string>)
    requires Distinct(links)
    ensures Distinct(Select(links, true) + Select(links, false))
  {
    var p := Select(links, true);
    var q := Select(links, false);
    SelectDistinct(links, true);
    SelectDistinct(links, false);
    var r := p + q;
    forall i, j | 0 <= i < j < |r| ensures r[i] != r[j] {
      if j < |p| {
        assert r[i] == p[i] && r[j] == p[j];
      } else if i >= |p| {
        assert r[i] == q[i - |p|] && r[j] == q[j - |p|];
      } else {
        assert r[i] in p && r[j] in q;
      }
    }
  }

  /** No priority link comes after a link that is not one. */
  lemma PartitionOrdered(links: seq<string>)
    ensures PriorityFirst(Select(links, true) + Select(links, false))
  {
    var p := Select(links, true);
    var q := Select(links, false);
    assert forall k :: 0 <= k < |p| ==> p[k] in p;
    assert forall k :: 0 <= k < |q| ==> q[k] in q;
  }

  /** `prioritize_links(links, priority_patterns)` (msci-intelligence-v2.py:523-544):
      the priority links first, then the others, each group in input order. The
      `priorityPatterns` argument is ignored, as in the source. */
  method PrioritizeLinks(links: seq<string>, priorityPatterns: seq<string>) returns (r: seq<string>)
    ensures r == Select(links, true) + Select(links, false)
    ensures multiset(r) == multiset(links)
    ensures PriorityFirst(r)
  {
    var prioritized: seq<string> := [];
    var normal: seq<string> := [];
    for i := 0 to |links|
      invariant prioritized == Select(links[..i], true)
      invariant normal == Select(links[..i], false)
    {
      assert links[..i + 1][..i] == links[..i];
      var link := links[i];
      if IsPriorityLink(link) {
        prioritized := prioritized + [link];
      } else {
        normal := normal + [link];
      }
    }
    assert links[..|links|] == links;
    r := prioritized + normal;
    PartitionIsPermutation(links);
    PartitionOrdered(links);
  }
}
