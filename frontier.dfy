/** The breadth-first frontier both crawlers share: `to_visit` is a FIFO list of
    (url, depth) pairs, and a fetched page appends those of its first few
    links that are not yet visited, one level deeper. */
module Frontier {
  import opened Common

  /** A queued page: its URL and its link distance from the start URL. */
  type Entry = (string, nat)

  /** The entries `for link in links: if link not in visited: to_visit.append((link, depth + 1))`
      appends, in order. */
  function Unvisited(links: seq<string>, visited: set<string>, depth: nat): (r: seq<Entry>)
    ensures |r| <= |links|
    ensures forall e :: e in r ==> e.0 in links && e.0 !in visited && e.1 == depth + 1
    ensures forall l :: l in links && l !in visited ==> (l, depth + 1) in r
  {
    if links == [] then []
    else
      var last := links[|links| - 1];
      assert links == links[..|links| - 1] + [last];
      Unvisited(links[..|links| - 1], visited, depth) + (if last in visited then [] else [(last, depth + 1)])
  }

  /** The entries keep the links' order: queuing two lists of links one after
      the other queues each in turn. */
  lemma {:induction false} UnvisitedAppend(a: seq<string>, b: seq<string>, visited: set<string>, depth: nat)
    ensures Unvisited(a + b, visited, depth) == Unvisited(a, visited, depth) + Unvisited(b, visited, depth)
    decreases |b|
  {
    if b == [] {
      assert a + b == a;
    } else {
      assert (a + b)[..|a + b| - 1] == a + b[..|b| - 1];
      UnvisitedAppend(a, b[..|b| - 1], visited, depth);
    }
  }

  /** Distinct links give distinct entries. */
  lemma {:induction false} UnvisitedDistinct(links: seq<string>, visited: set<string>, depth: nat)
    requires Distinct(links)
    ensures Distinct(Unvisited(links, visited, depth))
  {
    if links != [] {
      var prev := links[..|links| - 1];
      var last := links[|links| - 1];
      assert Distinct(prev);
      UnvisitedDistinct(prev, visited, depth);
      assert last !in prev;
    }
  }

  /** `for link in links[:cap]: if link not in visited: to_visit.append((link, depth + 1))`. */
  method AppendUnvisited(toVisit: seq<Entry>, links: seq<string>, cap: nat, visited: set<string>, depth: nat)
    returns (q: seq<Entry>)
    ensures q == toVisit + Unvisited(links[..MinInt(cap, |links|)], visited, depth)
  {
    var head := links[..MinInt(cap, |links|)];
    var added: seq<Entry> := [];
    for i := 0 to |head|
      invariant added == Unvisited(head[..i], visited, depth)
    {
      assert head[..i + 1][..i] == head[..i];
      if head[i] !in visited {
        added := added + [(head[i], depth + 1)];
      }
    }
    assert head[..|head|] == head;
    q := toVisit + added;
  }
}
