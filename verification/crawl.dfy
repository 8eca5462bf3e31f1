/**
 The depth-bounded breadth-first crawl.

 The traversal keeps a set of seen URLs and two frontiers. Each round takes
 the frontier built by the previous round, skips the URLs already seen,
 marks each remaining URL seen before expanding it, and admits a discovered
 link into the next frontier only if it is not seen at that moment. Exactly
 `maxDepth + 1` rounds run, empty or not. Iteration over a frontier is in
 no particular order: the model picks the next URL by choice, and each
 round reports the order it fetched in.
 */
module Crawler {
  import opened Seqs
  import opened Reach
  import Links

  /**
   `w` enters the next frontier during a round that fetched `order` starting
   from `seen`: some fetched page links to it, and it is not seen when that
   page is expanded (the page itself and those fetched before it count as
   seen then).
   */
  ghost predicate Admitted(links: LinkFn, seen: set<string>, order: seq<string>, w: string) {
    exists k :: 0 <= k < |order| && w in links(order[k]) && w !in seen && w !in Elems(order[..k + 1])
  }

  /** Fetching one more page in a round admits exactly its links that are not seen at that point. */
  lemma AdmittedSnoc(links: LinkFn, seen: set<string>, order: seq<string>, url: string, w: string)
    ensures Admitted(links, seen, order + [url], w) <==>
      Admitted(links, seen, order, w) || (w in links(url) && w !in seen && w !in Elems(order + [url]))
  {
    var o := order + [url];
    assert o[..|order| + 1] == o;
    assert o[|order|] == url;
    if Admitted(links, seen, order, w) {
      var k :| 0 <= k < |order| && w in links(order[k]) && w !in seen && w !in Elems(order[..k + 1]);
      assert o[k] == order[k] && o[..k + 1] == order[..k + 1];
    }
    if Admitted(links, seen, o, w) {
      var k :| 0 <= k < |o| && w in links(o[k]) && w !in seen && w !in Elems(o[..k + 1]);
      if k < |order| {
        assert o[k] == order[k] && o[..k + 1] == order[..k + 1];
      }
    }
  }

  /**
   Expanding one fetched page: every link of it that is not in `seen` is
   added to the next frontier, the rest are ignored.
   */
  method Expand(links: LinkFn, seen: set<string>, url: string, nq: set<string>) returns (nq': set<string>)
    ensures nq <= nq'
    ensures forall w :: w in nq' <==> w in nq || (w in links(url) && w !in seen)
  {
    var found := links(url);
    nq' := nq;
    var j := 0;
    while j < |found|
      invariant 0 <= j <= |found|
      invariant forall w :: w in nq' <==> w in nq || (w in found[..j] && w !in seen)
    {
      assert found[..j + 1] == found[..j] + [found[j]];
      if found[j] !in seen {
        nq' := nq' + {found[j]};
      }
      j := j + 1;
    }
    assert found[..j] == found;
  }

  /**
   One round: process every URL of the frontier `q` in some order. A URL
   already seen is skipped; any other is marked seen, fetched and expanded.
   `order` lists the fetches in the order they happened.
   */
  method Round(links: LinkFn, seen: set<string>, q: set<string>)
    returns (seen': set<string>, nq: set<string>, order: seq<string>)
    ensures seen' == seen + q
    ensures NoDup(order) && Elems(order) == q - seen
    ensures forall w :: w in nq <==> Admitted(links, seen, order, w)
  {
    seen' := seen;
    nq := {};
    order := [];
    var rest := q;
    while rest != {}
      invariant rest <= q
      invariant seen' == seen + (q - rest)
      invariant NoDup(order) && Elems(order) == (q - rest) - seen
      invariant forall w :: w in nq <==> Admitted(links, seen, order, w)
      decreases rest
    {
      var url :| url in rest;
      assert url !in Elems(order);
      rest := rest - {url};
      if url !in seen' {
        NoDupSnoc(order, url);
        seen' := seen' + {url};
        var nq' := Expand(links, seen', url, nq);
        forall w
          ensures w in nq' <==> Admitted(links, seen, order + [url], w)
        {
          AdmittedSnoc(links, seen, order, url, w);
        }
        order := order + [url];
        nq := nq';
      }
    }
  }

  /**
   Admission is decided when a page is expanded. Two sibling frontier pages
   `a` and `b`, where `a` links to `b`: when the round fetches `a` first,
   `b` enters the next frontier although the same round fetches `b` later.
   The next round finds `b` already seen and does not fetch it again.
   */
  method SiblingAdmittedThenSkipped(links: LinkFn, seen: set<string>, a: string, b: string)
    returns (order1: seq<string>, nq1: set<string>, order2: seq<string>)
    requires links(a) == [b] && a != b && a !in seen && b !in seen
    ensures Elems(order1) == {a, b}
    ensures order1 == [a, b] ==> b in nq1
    ensures b !in Elems(order2)
  {
    var seen1;
    seen1, nq1, order1 := Round(links, seen, {a, b});
    if order1 == [a, b] {
      assert order1[0] == a && order1[..1] == [a];
      assert b in links(order1[0]) && b !in Elems(order1[..1]);
      assert Admitted(links, seen, order1, b);
    }
    var seen2, nq2;
    seen2, nq2, order2 := Round(links, seen1, nq1);
  }

  /**
   The state between two rounds: after round `i - 1` the seen set is every
   URL within `i - 1` hops, and the next frontier holds only URLs within
   `i` hops and every such URL not yet seen.
   */
  ghost predicate BetweenRounds(links: LinkFn, root: string, i: int, seen: set<string>, nq: set<string>) {
    && seen == Ball(links, root, i - 1)
    && nq <= Ball(links, root, i)
    && Ball(links, root, i) <= seen + nq
  }

  /** A round started between rounds `i - 1` and `i` ends between rounds `i` and `i + 1`. */
  lemma AdvanceFrontier(links: LinkFn, root: string, i: nat, seen: set<string>, q: set<string>,
                        seen': set<string>, nq: set<string>, order: seq<string>)
    requires BetweenRounds(links, root, i, seen, q)
    requires seen' == seen + q
    requires Elems(order) == q - seen
    requires forall w :: w in nq <==> Admitted(links, seen, order, w)
    ensures seen' == Ball(links, root, i)
    ensures BetweenRounds(links, root, i + 1, seen', nq)
  {
    var cur := Ball(links, root, i);
    var next := Ball(links, root, i + 1);
    BallMonotone(links, root, i - 1, i);
    assert seen' == cur;
    forall w | w in nq
      ensures w in next
    {
      var k :| 0 <= k < |order| && w in links(order[k]) && w !in seen && w !in Elems(order[..k + 1]);
      assert order[k] in Elems(order);
    }
    forall w | w in next && w !in cur
      ensures w in nq
    {
      var u :| u in cur && w in links(u);
      LinkExtendsBall(links, root, i - 1, u, w);
      assert u in Elems(order);
      var k :| 0 <= k < |order| && order[k] == u;
      assert Elems(order[..k + 1]) <= Elems(order);
      assert Admitted(links, seen, order, w);
    }
  }

  /** Round `d` fetched, once each, exactly the URLs at shortest distance `d` from the root. */
  ghost predicate FetchesByLevel(links: LinkFn, root: string, rounds: seq<seq<string>>) {
    forall d :: 0 <= d < |rounds| ==>
      NoDup(rounds[d]) && Elems(rounds[d]) == Ball(links, root, d) - Ball(links, root, d - 1)
  }

  /** Rounds that fetch by level never fetch the same URL twice. */
  lemma LevelsDisjoint(links: LinkFn, root: string, rounds: seq<seq<string>>, d1: int, d2: int)
    requires FetchesByLevel(links, root, rounds)
    requires 0 <= d1 < d2 < |rounds|
    ensures Elems(rounds[d1]) !! Elems(rounds[d2])
  {
    assert Elems(rounds[d1]) == Ball(links, root, d1) - Ball(links, root, d1 - 1);
    assert Elems(rounds[d2]) == Ball(links, root, d2) - Ball(links, root, d2 - 1);
    assert Elems(rounds[d2]) !! Ball(links, root, d2 - 1);
    BallMonotone(links, root, d1, d2 - 1);
  }

  /** A round that fetches the next level extends a by-level history. */
  lemma FetchesByLevelSnoc(links: LinkFn, root: string, rounds: seq<seq<string>>, order: seq<string>)
    requires FetchesByLevel(links, root, rounds)
    requires NoDup(order)
    requires Elems(order) == Ball(links, root, |rounds|) - Ball(links, root, |rounds| - 1)
    ensures FetchesByLevel(links, root, rounds + [order])
  {
    var r := rounds + [order];
    forall d | 0 <= d < |r|
      ensures NoDup(r[d]) && Elems(r[d]) == Ball(links, root, d) - Ball(links, root, d - 1)
    {
      if d < |rounds| {
        assert r[d] == rounds[d];
      }
    }
  }

  /** Go's bfs over the link function `links`: the crawled pages and the fetches of each round. */
  method Bfs(links: LinkFn, root: string, maxDepth: int) returns (pages: seq<string>, rounds: seq<seq<string>>)
    ensures |rounds| == if maxDepth < 0 then 0 else maxDepth + 1
    ensures forall d :: 0 <= d < |rounds| ==>
      NoDup(rounds[d]) && Elems(rounds[d]) == Ball(links, root, d) - Ball(links, root, d - 1)
    ensures forall d1, d2 :: 0 <= d1 < d2 < |rounds| ==> Elems(rounds[d1]) !! Elems(rounds[d2])
    ensures NoDup(pages)
    ensures Elems(pages) == Ball(links, root, maxDepth)
    ensures maxDepth >= 0 ==> root in pages
    ensures maxDepth < 0 ==> pages == []
  {
    var seen: set<string> := {};
    var nq: set<string> := {root};
    rounds := [];
    var i := 0;
    while i <= maxDepth
      invariant 0 <= i <= if maxDepth < 0 then 0 else maxDepth + 1
      invariant |rounds| == i
      invariant BetweenRounds(links, root, i, seen, nq)
      invariant FetchesByLevel(links, root, rounds)
      decreases maxDepth - i
    {
      var q := nq;
      var seen', nq', order := Round(links, seen, q);
      AdvanceFrontier(links, root, i, seen, q, seen', nq', order);
      FetchesByLevelSnoc(links, root, rounds, order);
      seen, nq := seen', nq';
      rounds := rounds + [order];
      i := i + 1;
    }
    forall d1, d2 | 0 <= d1 < d2 < |rounds|
      ensures Elems(rounds[d1]) !! Elems(rounds[d2])
    {
      LevelsDisjoint(links, root, rounds, d1, d2);
    }
    if maxDepth >= 0 {
      RootInBall(links, root, maxDepth);
    }
    pages := SetToSeq(seen);
  }

  /** The link function the crawler follows: what `Get` returns for each fetched URL. */
  function SiteLinks(fetch: string -> Links.Fetch): (links: LinkFn)
    ensures forall u :: fetch(u).Failed? ==> links(u) == []
    ensures forall u, w :: w in links(u) ==> fetch(u).Fetched? && fetch(u).origin <= w
  {
    u => Links.Get(fetch(u))
  }

  /**
   The whole crawl with the HTTP side supplied as `fetch`: the pages within
   `maxDepth` hops of the root, and every page but the root lies under the
   origin of a crawled page that links to it.
   */
  method Crawl(root: string, maxDepth: int, fetch: string -> Links.Fetch) returns (pages: seq<string>)
    ensures NoDup(pages)
    ensures Elems(pages) == Ball(SiteLinks(fetch), root, maxDepth)
    ensures forall p :: p in pages && p != root ==>
      exists u :: u in pages && p in SiteLinks(fetch)(u) && fetch(u).Fetched? && fetch(u).origin <= p
  {
    var links := SiteLinks(fetch);
    var rounds;
    pages, rounds := Bfs(links, root, maxDepth);
    forall p | p in pages && p != root
      ensures exists u :: u in pages && p in SiteLinks(fetch)(u) && fetch(u).Fetched? && fetch(u).origin <= p
    {
      assert p in Elems(pages);
      NonRootHasLinker(links, root, maxDepth, p);
      var u :| u in Ball(links, root, maxDepth - 1) && p in links(u);
      BallMonotone(links, root, maxDepth - 1, maxDepth);
      assert u in Elems(pages);
    }
  }
}
