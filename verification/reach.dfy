/**
 The link graph seen by the crawler and the pages within a given number of
 hops of a root. `Ball` builds the reachable set level by level, the way a
 breadth-first traversal discovers it; `ReachableWithin` states the same
 thing with explicit walks, and `BallIsReachable` shows the two agree.
 */
module Reach {
  import opened Seqs

  /** The pages each URL links to, as the fetch-and-resolve pipeline reports them. */
  type LinkFn = string -> seq<string>

  /** Every URL that some page of `pages` links to. */
  function Step(links: LinkFn, pages: set<string>): set<string> {
    set u, v | u in pages && v in links(u) :: v
  }

  /** The URLs within `d` hops of `root`, built one level at a time; empty when `d` is negative. */
  function Ball(links: LinkFn, root: string, d: int): set<string>
    decreases d
  {
    if d < 0 then {}
    else if d == 0 then {root}
    else Ball(links, root, d - 1) + Step(links, Ball(links, root, d - 1))
  }

  /** A non-empty sequence of URLs in which each one links to the next. */
  ghost predicate IsWalk(links: LinkFn, p: seq<string>) {
    |p| >= 1 && forall k :: 0 <= k < |p| - 1 ==> p[k + 1] in links(p[k])
  }

  /** Some walk of at most `d` hops leads from `root` to `url`. */
  ghost predicate ReachableWithin(links: LinkFn, root: string, url: string, d: int) {
    exists p :: IsWalk(links, p) && p[0] == root && p[|p| - 1] == url && |p| <= d + 1
  }

  /** Allowing more hops never loses a page. */
  lemma {:induction false} BallMonotone(links: LinkFn, root: string, d1: int, d2: int)
    requires d1 <= d2
    ensures Ball(links, root, d1) <= Ball(links, root, d2)
    decreases d2 - d1
  {
    if d1 < d2 {
      BallMonotone(links, root, d1, d2 - 1);
      if d2 > 0 {
        assert Ball(links, root, d2 - 1) <= Ball(links, root, d2);
      }
    }
  }

  /** The root is within any non-negative number of hops of itself. */
  lemma RootInBall(links: LinkFn, root: string, d: int)
    requires d >= 0
    ensures root in Ball(links, root, d)
  {
    BallMonotone(links, root, 0, d);
  }

  /** A link out of a page within `d` hops leads to a page within `d + 1` hops. */
  lemma LinkExtendsBall(links: LinkFn, root: string, d: int, u: string, w: string)
    ensures u in Ball(links, root, d) && w in links(u) ==> w in Ball(links, root, d + 1)
  {
    if u in Ball(links, root, d) && w in links(u) {
      assert d >= 0;
      assert w in Step(links, Ball(links, root, d));
    }
  }

  /** A walk followed by one more link is a walk. */
  lemma WalkSnoc(links: LinkFn, p: seq<string>, url: string)
    requires IsWalk(links, p) && url in links(p[|p| - 1])
    ensures IsWalk(links, p + [url])
  {
    var p' := p + [url];
    forall k | 0 <= k < |p'| - 1
      ensures p'[k + 1] in links(p'[k])
    {
      if k < |p| - 1 {
        assert p'[k] == p[k] && p'[k + 1] == p[k + 1];
      }
    }
  }

  /** Dropping the last URL of a walk of two or more URLs leaves a walk. */
  lemma WalkInit(links: LinkFn, p: seq<string>)
    requires IsWalk(links, p) && |p| >= 2
    ensures IsWalk(links, p[..|p| - 1])
  {
    var q := p[..|p| - 1];
    forall k | 0 <= k < |q| - 1
      ensures q[k + 1] in links(q[k])
    {
      assert q[k] == p[k] && q[k + 1] == p[k + 1];
    }
  }

  /** Every URL the levels collect has a walk of at most `d` hops from the root. */
  lemma {:induction false} BallHasWalk(links: LinkFn, root: string, d: int, url: string)
    requires url in Ball(links, root, d)
    ensures ReachableWithin(links, root, url, d)
    decreases d
  {
    if d == 0 {
      assert IsWalk(links, [root]);
    } else {
      var prev := Ball(links, root, d - 1);
      if url in prev {
        BallHasWalk(links, root, d - 1, url);
      } else {
        var v :| v in prev && url in links(v);
        BallHasWalk(links, root, d - 1, v);
        var p :| IsWalk(links, p) && p[0] == root && p[|p| - 1] == v && |p| <= d;
        WalkSnoc(links, p, url);
        var p' := p + [url];
        assert p'[0] == root && p'[|p'| - 1] == url;
      }
    }
  }

  /** Every URL with a walk of at most `d` hops from the root is in the level-by-level set. */
  lemma {:induction false} WalkInBall(links: LinkFn, root: string, d: int, p: seq<string>)
    requires IsWalk(links, p) && p[0] == root && |p| <= d + 1
    ensures p[|p| - 1] in Ball(links, root, d)
    decreases |p|
  {
    if |p| == 1 {
      RootInBall(links, root, d);
    } else {
      var q := p[..|p| - 1];
      WalkInit(links, p);
      WalkInBall(links, root, d - 1, q);
      assert p[|p| - 1] in links(q[|q| - 1]) by {
        assert q[|q| - 1] == p[|p| - 2];
      }
    }
  }

  /** The level-by-level set is exactly the set of URLs with a walk of at most `d` hops from the root. */
  lemma BallIsReachable(links: LinkFn, root: string, d: int, url: string)
    ensures url in Ball(links, root, d) <==> ReachableWithin(links, root, url, d)
  {
    if url in Ball(links, root, d) {
      BallHasWalk(links, root, d, url);
    }
    if ReachableWithin(links, root, url, d) {
      var p :| IsWalk(links, p) && p[0] == root && p[|p| - 1] == url && |p| <= d + 1;
      WalkInBall(links, root, d, p);
    }
  }

  /** A URL other than the root within `d` hops is linked from a page within `d - 1` hops. */
  lemma {:induction false} NonRootHasLinker(links: LinkFn, root: string, d: int, url: string)
    requires url in Ball(links, root, d) && url != root
    ensures exists v :: v in Ball(links, root, d - 1) && url in links(v)
    decreases d
  {
    if url in Ball(links, root, d - 1) {
      NonRootHasLinker(links, root, d - 1, url);
      var v :| v in Ball(links, root, d - 2) && url in links(v);
      BallMonotone(links, root, d - 2, d - 1);
    }
  }

  /** The links out of a single page are the elements of its link list. */
  lemma StepSingleton(links: LinkFn, u: string)
    ensures Step(links, {u}) == Elems(links(u))
  {
  }

  /** The links out of two pages are the links out of either. */
  lemma StepPair(links: LinkFn, u: string, v: string)
    ensures Step(links, {u, v}) == Elems(links(u)) + Elems(links(v))
  {
  }

  /** Two pages linking to each other: from one hop on, the reachable set is both of them, whatever the bound. */
  lemma {:induction false} CycleReach(links: LinkFn, r: string, a: string, d: int)
    requires links(r) == [a] && links(a) == [r]
    requires d >= 1
    ensures Ball(links, r, d) == {r, a}
    decreases d
  {
    assert Elems([a]) == {a} && Elems([r]) == {r};
    if d == 1 {
      StepSingleton(links, r);
      assert Ball(links, r, 0) == {r};
    } else {
      CycleReach(links, r, a, d - 1);
      StepPair(links, r, a);
    }
  }

  /** A chain R -> A -> B -> C: one hop reaches {R, A}, two hops reach {R, A, B}. */
  lemma ChainReach(links: LinkFn, r: string, a: string, b: string, c: string)
    requires links(r) == [a] && links(a) == [b] && links(b) == [c]
    ensures Ball(links, r, 1) == {r, a}
    ensures Ball(links, r, 2) == {r, a, b}
  {
    assert Elems([a]) == {a} && Elems([b]) == {b};
    StepSingleton(links, r);
    assert Ball(links, r, 1) == {r, a};
    StepPair(links, r, a);
  }
}
