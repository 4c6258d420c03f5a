/** The v2 topic scorer (msci-intelligence-v2.py): `analyze_content_advanced`,
    its weighted confidence, and `determine_status_advanced`. */
module MsciScoring {
  import opened Common
  import opened PyStr
  import opened MsciText

  /** One intelligence question of the catalogue: its keywords and its optional
      weight (`question_config.get("weight", 1.0)`). */
  datatype TopicConfig = TopicConfig(keywords: seq<string>, weight: Option<real>)

  function Weight(config: TopicConfig): real {
    config.weight.GetOr(1.0)
  }

  /** `{"keyword": k, "count": n}`. */
  datatype KeywordHit = KeywordHit(keyword: string, count: nat)

  /** What `analyze_content_advanced` returns. */
  datatype Analysis = Analysis(matches: seq<KeywordHit>, confidence: real, snippets: seq<string>, evidenceCount: nat)

  /** `snippets[:3]`. */
  const MaxSnippets: nat := 3
  /** `min(20, total_mentions * 2)`. */
  const MentionBoostCap: nat := 20
  const BoostPerMention: nat := 2
  /** `determine_status_advanced` thresholds. */
  const FoundThreshold: real := 75.0
  const PartialThreshold: real := 35.0

  function KeywordsOf(ms: seq<KeywordHit>): (r: seq<string>)
    ensures |r| == |ms| && forall i :: 0 <= i < |ms| ==> r[i] == ms[i].keyword
  {
    seq(|ms|, i requires 0 <= i < |ms| => ms[i].keyword)
  }

  /** The `matches` list built at msci-intelligence-v2.py:475-483 after the
      keywords `ks`, in the lowered cleaned text `lowered`. */
  function MatchesOf(lowered: string, ks: seq<string>): (r: seq<KeywordHit>)
    ensures |r| <= |ks|
    ensures forall m :: m in r ==> m.count == Count(lowered, Lower(m.keyword)) && m.count > 0
    ensures forall k :: k in KeywordsOf(r) <==> k in ks && Count(lowered, Lower(k)) > 0
  {
    if ks == [] then []
    else
      var prev := MatchesOf(lowered, ks[..|ks| - 1]);
      var k := ks[|ks| - 1];
      assert ks == ks[..|ks| - 1] + [k];
      var c := Count(lowered, Lower(k));
      if c > 0 then
        assert KeywordsOf(prev + [KeywordHit(k, c)]) == KeywordsOf(prev) + [k];
        prev + [KeywordHit(k, c)]
      else prev
  }

  /** Matching keyword lists one after the other matches each in turn: the
      matches keep the keywords' order. */
  lemma {:induction false} MatchesOfAppend(lowered: string, a: seq<string>, b: seq<string>)
    ensures MatchesOf(lowered, a + b) == MatchesOf(lowered, a) + MatchesOf(lowered, b)
    decreases |b|
  {
    if b == [] {
      assert a + b == a;
    } else {
      var b' := b[..|b| - 1];
      assert (a + b)[..|a + b| - 1] == a + b';
      assert b[..|b| - 1] == b';
      MatchesOfAppend(lowered, a, b');
    }
  }

  /** `sum(m["count"] for m in matches)`. */
  function TotalMentions(ms: seq<KeywordHit>): nat {
    if ms == [] then 0 else TotalMentions(ms[..|ms| - 1]) + ms[|ms| - 1].count
  }

  /** Every match was counted at least once, so there are at least as many
      mentions as matches. */
  lemma {:induction false} MentionsAtLeastMatches(ms: seq<KeywordHit>)
    requires forall m :: m in ms ==> m.count > 0
    ensures TotalMentions(ms) >= |ms|
  {
    if ms != [] {
      assert ms[|ms| - 1] in ms;
      MentionsAtLeastMatches(ms[..|ms| - 1]);
    }
  }

  /** The `snippets` list built at msci-intelligence-v2.py:484-488 after the
      keywords `ks`: the context of each matched keyword, unless it is empty or
      already there. */
  function SnippetsOf(text: string, ks: seq<string>): (r: seq<string>)
    ensures |r| <= |ks|
    ensures Distinct(r)
    ensures forall s :: s in r ==> s != []
  {
    if ks == [] then []
    else
      var prev := SnippetsOf(text, ks[..|ks| - 1]);
      var k := ks[|ks| - 1];
      assert ks == ks[..|ks| - 1] + [k];
      if Count(Lower(text), Lower(k)) > 0 then
        var snippet := ContextSnippet(text, k);
        if snippet != [] && snippet !in prev then
          DistinctSnoc(prev, snippet);
          prev + [snippet]
        else prev
      else prev
  }

  /** The non-empty contexts of the keywords of `ks` that occur in `text`, in
      keyword order, repeats included. */
  function Contexts(text: string, ks: seq<string>): (r: seq<string>)
    ensures |r| <= |ks|
  {
    if ks == [] then []
    else
      var k := ks[|ks| - 1];
      Contexts(text, ks[..|ks| - 1])
        + (if HasContext(text, k) then [ContextSnippet(text, k)] else [])
  }

  /** Whether keyword `k` contributes its context: it occurs and its context is
      not empty. */
  predicate HasContext(text: string, k: string) {
    Count(Lower(text), Lower(k)) > 0 && ContextSnippet(text, k) != []
  }

  /** One more keyword adds its context, unless it has none or it is already there. */
  lemma SnippetsOfSnoc(text: string, ks: seq<string>, k: string)
    ensures SnippetsOf(text, ks + [k]) ==
      var p := SnippetsOf(text, ks);
      if HasContext(text, k) && ContextSnippet(text, k) !in p then p + [ContextSnippet(text, k)] else p
  {
    assert (ks + [k])[..|ks|] == ks;
  }

  /** Scanning more keywords appends their new contexts, in keyword order and
      after the snippets already found: with `a == []` the snippets are
      `AppendNew([], Contexts(text, b))`, the first occurrences of the contexts. */
  lemma {:induction false} SnippetsOfAppend(text: string, a: seq<string>, b: seq<string>)
    ensures SnippetsOf(text, a + b) == AppendNew(SnippetsOf(text, a), Contexts(text, b))
    decreases |b|
  {
    if b == [] {
      assert a + b == a;
    } else {
      var b', k := b[..|b| - 1], b[|b| - 1];
      AppendLast(a, b);
      SnippetsOfAppend(text, a, b');
      SnippetsOfSnoc(text, a + b', k);
      var p := SnippetsOf(text, a + b');
      assert p == AppendNew(SnippetsOf(text, a), Contexts(text, b'));
      if HasContext(text, k) {
        var c := ContextSnippet(text, k);
        assert Contexts(text, b) == Contexts(text, b') + [c];
        AppendNewSnoc(SnippetsOf(text, a), Contexts(text, b'), c);
      } else {
        assert Contexts(text, b) == Contexts(text, b');
      }
    }
  }

  /** Each collected snippet is the context of a keyword that occurs in the text. */
  lemma {:induction false} SnippetsAreContexts(text: string, ks: seq<string>, s: string)
    requires s in SnippetsOf(text, ks)
    ensures exists i :: 0 <= i < |ks| && Count(Lower(text), Lower(ks[i])) > 0 && ContextSnippet(text, ks[i]) == s
    decreases |ks|
  {
    var last := ks[|ks| - 1];
    var prev := ks[..|ks| - 1];
    if s in SnippetsOf(text, prev) {
      SnippetsAreContexts(text, prev, s);
      var i :| 0 <= i < |prev| && Count(Lower(text), Lower(prev[i])) > 0 && ContextSnippet(text, prev[i]) == s;
      assert ks[i] == prev[i];
    } else {
      assert Count(Lower(text), Lower(ks[|ks| - 1])) > 0 && ContextSnippet(text, ks[|ks| - 1]) == s;
    }
  }

  /** Each matched keyword that is not blank and fits the context window has
      its context among the collected snippets. */
  lemma {:induction false} SnippetForEveryMatch(text: string, ks: seq<string>, k: string, j: nat)
    requires k in ks && Count(Lower(text), Lower(k)) > 0
    requires |k| <= ContextLength && j < |k| && !IsSpace(k[j])
    ensures ContextSnippet(text, k) in SnippetsOf(text, ks)
    decreases |ks|
  {
    var last := ks[|ks| - 1];
    var prev := ks[..|ks| - 1];
    assert ks == prev + [last];
    if k == last {
      CountPositiveIffFound(Lower(text), Lower(k), 0);
      assert HasVisible(k);
    } else {
      assert k in prev;
      SnippetForEveryMatch(text, prev, k, j);
    }
  }

  lemma NonNegativeProduct(a: real, b: real)
    requires 0.0 <= a && 0.0 <= b
    ensures 0.0 <= a * b
  {
  }

  lemma ScaleMonotone(a: real, b: real, w: real)
    requires a <= b && 0.0 <= w
    ensures a * w <= b * w
  {
    NonNegativeProduct(b - a, w);
    assert b * w - a * w == (b - a) * w;
  }

  /** `(base_confidence + mention_boost) * weight` (lines 493-500): the share of
      keywords found, in percent, plus two points per mention up to twenty. */
  function WeightedScore(keywordCount: nat, matchCount: nat, mentions: nat, weight: real): (x: real)
    requires keywordCount > 0
    ensures matchCount <= keywordCount && 0.0 <= weight ==> 0.0 <= x
  {
    var base := matchCount as real / keywordCount as real * 100.0;
    var boost := MinInt(MentionBoostCap, mentions * BoostPerMention) as real;
    assert 0.0 <= base + boost;
    assert 0.0 <= weight ==> 0.0 <= (base + boost) * weight by {
      if 0.0 <= weight { NonNegativeProduct(base + boost, weight); }
    }
    (base + boost) * weight
  }

  /** Lines 491-505: the weighted score rounded to a tenth and capped at 100;
      0 when the topic has no keywords. */
  function Confidence(keywordCount: nat, matchCount: nat, mentions: nat, weight: real): (c: real)
    ensures keywordCount == 0 ==> c == 0.0
    ensures c <= 100.0
    ensures matchCount <= keywordCount && 0.0 <= weight ==> 0.0 <= c
  {
    if keywordCount == 0 then 0.0
    else
      var weighted := WeightedScore(keywordCount, matchCount, mentions, weight);
      assert 0.0 <= weighted ==> 0.0 <= RoundTenth(weighted) by {
        if 0.0 <= weighted {
          RoundTenthMonotone(0.0, weighted);
          RoundTenthExact(0);
        }
      }
      MinReal(100.0, RoundTenth(weighted))
  }

  /** The share of keywords found, as a percentage, grows with the matches. */
  lemma ShareMonotone(n: nat, m1: nat, m2: nat)
    requires 0 < n && m1 <= m2
    ensures m1 as real / n as real * 100.0 <= m2 as real / n as real * 100.0
  {
    var d := 1.0 / n as real;
    assert m1 as real / n as real == m1 as real * d;
    assert m2 as real / n as real == m2 as real * d;
    ScaleMonotone(m1 as real, m2 as real, d);
    ScaleMonotone(m1 as real * d, m2 as real * d, 100.0);
  }

  /** The weighted score grows with the matches and the mentions. */
  lemma WeightedScoreMonotone(n: nat, m1: nat, m2: nat, t1: nat, t2: nat, weight: real)
    requires 0 < n && m1 <= m2 && t1 <= t2 && 0.0 <= weight
    ensures WeightedScore(n, m1, t1, weight) <= WeightedScore(n, m2, t2, weight)
  {
    ShareMonotone(n, m1, m2);
    var b1 := m1 as real / n as real * 100.0;
    var b2 := m2 as real / n as real * 100.0;
    var c1 := MinInt(MentionBoostCap, t1 * BoostPerMention) as real;
    var c2 := MinInt(MentionBoostCap, t2 * BoostPerMention) as real;
    assert c1 <= c2;
    ScaleMonotone(b1 + c1, b2 + c2, weight);
  }

  /** More keywords found and more mentions never lower the confidence, for a
      non-negative weight. */
  lemma ConfidenceMonotone(n: nat, m1: nat, m2: nat, t1: nat, t2: nat, weight: real)
    requires m1 <= m2 && t1 <= t2 && 0.0 <= weight
    ensures Confidence(n, m1, t1, weight) <= Confidence(n, m2, t2, weight)
  {
    if n > 0 {
      WeightedScoreMonotone(n, m1, m2, t1, t2, weight);
      RoundTenthMonotone(WeightedScore(n, m1, t1, weight), WeightedScore(n, m2, t2, weight));
    }
  }

  /** A page that mentions every keyword of a topic weighted at least 1 gets
      full confidence, whatever the mention count. */
  lemma FullCoverageIsCertain(n: nat, mentions: nat, weight: real)
    requires 0 < n && 1.0 <= weight
    ensures Confidence(n, n, mentions, weight) == 100.0
  {
    var boost := MinInt(MentionBoostCap, mentions * BoostPerMention) as real;
    assert n as real / n as real * 100.0 == 100.0;
    ScaleMonotone(1.0, weight, 100.0 + boost);
    assert 100.0 <= (100.0 + boost) * weight;
    assert WeightedScore(n, n, mentions, weight) == (100.0 + boost) * weight;
    RoundTenthMonotone(1000 as real / 10.0, WeightedScore(n, n, mentions, weight));
    RoundTenthExact(1000);
  }

  /** `analyze_content_advanced(html, config)` (msci-intelligence-v2.py:444-512)
      on `extracted`, the text the HTML parser yields once scripts and styles
      are removed. */
  function Analyze(html: string, extracted: string, config: TopicConfig): (r: Analysis)
    ensures html == [] ==> r == Analysis([], 0.0, [], 0)
    ensures html != [] ==> r.matches == MatchesOf(Lower(CleanText(extracted)), config.keywords)
    ensures r.evidenceCount == TotalMentions(r.matches)
    ensures |r.snippets| <= MaxSnippets && Distinct(r.snippets)
    ensures forall s :: s in r.snippets ==> s != []
    ensures html != [] ==> var found := SnippetsOf(CleanText(extracted), config.keywords);
      r.snippets <= found && |r.snippets| == MinInt(MaxSnippets, |found|)
    ensures config.keywords == [] ==> r.confidence == 0.0 && r.matches == []
    ensures html != [] && config.keywords != [] ==>
      r.confidence == Confidence(|config.keywords|, |r.matches|, r.evidenceCount, Weight(config))
    ensures r.confidence <= 100.0
    ensures 0.0 <= Weight(config) ==> 0.0 <= r.confidence
  {
    if html == [] then Analysis([], 0.0, [], 0)
    else
      var text := CleanText(extracted);
      var keywords := config.keywords;
      var matches := MatchesOf(Lower(text), keywords);
      var snippets := SnippetsOf(text, keywords);
      var mentions := if |keywords| > 0 then TotalMentions(matches) else 0;
      var confidence := if |keywords| > 0 then Confidence(|keywords|, |matches|, mentions, Weight(config)) else 0.0;
      var kept := snippets[..MinInt(MaxSnippets, |snippets|)];
      assert kept <= snippets;
      assert Distinct(kept) by {
        forall i, j | 0 <= i < j < |kept| ensures kept[i] != kept[j] {
          assert kept[i] == snippets[i] && kept[j] == snippets[j];
        }
      }
      assert forall s :: s in kept ==> s in snippets;
      assert |matches| <= |keywords|;
      assert matches == [] ==> mentions == 0;
      Analysis(matches, confidence, kept, if matches != [] then mentions else 0)
  }

  /** The keyword loop of msci-intelligence-v2.py:475-488: counts each
      keyword in the lowered text and collects the new snippets. */
  method ScanKeywords(text: string, textLower: string, keywords: seq<string>)
    returns (matches: seq<KeywordHit>, snippets: seq<string>)
    requires textLower == Lower(text)
    ensures matches == MatchesOf(textLower, keywords)
    ensures snippets == SnippetsOf(text, keywords)
  {
    matches, snippets := [], [];
    for i := 0 to |keywords|
      invariant matches == MatchesOf(textLower, keywords[..i])
      invariant snippets == SnippetsOf(text, keywords[..i])
    {
      assert keywords[..i + 1][..i] == keywords[..i];
      var keyword := keywords[i];
      var count := Count(textLower, Lower(keyword));
      if count > 0 {
        matches := matches + [KeywordHit(keyword, count)];
        var snippet := ContextSnippet(text, keyword);
        if snippet != [] && snippet !in snippets {
          snippets := snippets + [snippet];
        }
      }
    }
    assert keywords[..|keywords|] == keywords;
  }

  /** The loop of msci-intelligence-v2.py:475-512 itself. */
  method AnalyzeContentAdvanced(html: string, extracted: string, config: TopicConfig) returns (r: Analysis)
    ensures r == Analyze(html, extracted, config)
  {
    if html == [] {
      return Analysis([], 0.0, [], 0);
    }
    var text := CleanText(extracted);
    var textLower := Lower(text);
    var keywords := config.keywords;
    var weight := Weight(config);
    var matches, snippets := ScanKeywords(text, textLower, keywords);
    var confidence := 0.0;
    var totalMentions := 0;
    if |keywords| > 0 {
      totalMentions := TotalMentions(matches);
      confidence := Confidence(|keywords|, |matches|, totalMentions, weight);
    }
    r := Analysis(matches, confidence, snippets[..MinInt(MaxSnippets, |snippets|)],
                  if matches != [] then totalMentions else 0);
  }

  /** `determine_status_advanced(confidence)` (msci-intelligence-v2.py:514-521). */
  function DetermineStatusAdvanced(confidence: real): (s: Status)
    ensures s == Found <==> confidence >= FoundThreshold
    ensures s == Partial <==> PartialThreshold <= confidence < FoundThreshold
    ensures s == NotFound <==> confidence < PartialThreshold
  {
    if confidence >= FoundThreshold then Found
    else if confidence >= PartialThreshold then Partial
    else NotFound
  }

  /** A higher confidence never gets a weaker verdict. */
  lemma StatusAdvancedMonotone(a: real, b: real)
    requires a <= b
    ensures Rank(DetermineStatusAdvanced(a)) <= Rank(DetermineStatusAdvanced(b))
  {
  }
}
