/** Link extraction of the older crawler (wealth-crawler.py:104-120): keeps the
    same-host links and cuts each at its first '#', with no other
    normalisation. Parsing and resolving the hrefs are library calls: each
    link comes in as its absolute URL with the host `urlparse` gives for it. */
module WealthLinks {
  import opened Common

  /** `s.split("#")[0]`: the part of `s` before its first '#'. */
  function BeforeHash(s: string): (r: string)
    ensures r <= s
    ensures '#' !in r
    ensures |r| < |s| ==> s[|r|] == '#'
  {
    if s == [] || s[0] == '#' then [] else [s[0]] + BeforeHash(s[1..])
  }

  /** A link without a fragment, trailing slashes and query included, is kept
      exactly as it is. */
  lemma {:induction false} BeforeHashKeeps(s: string)
    requires '#' !in s
    ensures BeforeHash(s) == s
  {
    if s != [] {
      assert s[0] in s;
      assert forall c :: c in s[1..] ==> c in s;
      BeforeHashKeeps(s[1..]);
    }
  }

  /** Cutting twice is cutting once. */
  lemma BeforeHashIdempotent(s: string)
    ensures BeforeHash(BeforeHash(s)) == BeforeHash(s)
  {
    BeforeHashKeeps(BeforeHash(s));
  }

  /** `l` is one of the page's same-host links, cut at its first '#'. */
  predicate IsSameHostLink(l: string, baseNetloc: string, anchors: seq<(string, string)>) {
    exists i :: 0 <= i < |anchors| && anchors[i].1 == baseNetloc && BeforeHash(anchors[i].0) == l
  }

  /** `extract_internal_links(html, base_url)` (wealth-crawler.py:104-120):
      `anchors` pairs the absolute URL of each `<a href>` of the page, in
      document order, with its host; `baseNetloc` is the page's host. Each
      kept link comes out once, in no particular order. */
  method ExtractInternalLinks(baseNetloc: string, anchors: seq<(string, string)>) returns (links: seq<string>)
    ensures forall l :: l in links <==> IsSameHostLink(l, baseNetloc, anchors)
    ensures forall l :: l in links ==> '#' !in l
    ensures Distinct(links)
  {
    var found: set<string> := {};
    for i := 0 to |anchors|
      invariant forall l :: l in found <==> IsSameHostLink(l, baseNetloc, anchors[..i])
    {
      var (absolute, netloc) := anchors[i];
      if netloc == baseNetloc {
        found := found + {BeforeHash(absolute)};
      }
    }
    assert anchors[..|anchors|] == anchors;
    links := SetToSeq(found);
  }
}
