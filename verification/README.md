# go-buildSitemap core in Dafny

This project models the core of a small same-domain crawler that builds a
sitemap. The core has two parts:

- **Link resolution and same-origin filtering** (`hrefs`, `filter`,
  `withPrefix` and their composition inside `get`), in module `Links`
  (`links.dfy`). An href that starts with `/` is glued onto the page's origin
  verbatim. An href that starts with the literal text `http` is used as it
  is. Every other href is dropped. The resolved URLs are then kept only when
  the origin is a literal string prefix of them.
- **The depth-bounded breadth-first traversal** (`bfs`), in module `Crawler`
  (`crawl.dfy`). It keeps a `seen` set and swaps a current and a next
  frontier. It runs exactly `maxDepth + 1` rounds and skips URLs already
  seen. A URL is marked seen before it is expanded. A discovered link enters
  the next frontier only if it is not seen at that moment.

The fetch step is a parameter. `Links.Fetch` is either
`Fetched(origin, hrefs)` (the origin of the URL actually served, and the
page's hrefs in document order) or `Failed(reason)`. `Links.Get` turns it
into the page's same-origin links; a failure yields none. `Crawler.Bfs`
works over any link function `string -> seq<string>`. `Crawler.Crawl`
plugs `Get` into it.

Frontiers and the seen set are Dafny `set<string>`. The next URL of a
frontier is picked by nondeterministic choice, standing in for Go's
unordered map iteration. Each round returns the order in which it fetched,
so "each URL is fetched at most once" and "a URL at distance `d` is
fetched in round `d`" can be stated.

Module `Reach` (`reach.dfy`) defines the URLs within `d` hops of the root
in two independent ways. `Ball` builds them level by level. `ReachableWithin`
uses explicit walks. `Reach.BallIsReachable` proves the two agree. Module
`Seqs` (`seqs.dfy`) holds duplicate-freedom, the element set of a sequence,
the subsequence order, and the set-to-sequence conversion at the end of
`bfs`.

A protocol-relative href such as `//cdn.example.com/x` matches the `/`
rule at `main.go:119`, becomes origin + href, and passes the origin filter
(`Links.ProtocolRelativeKept`).

## Model

| member | source | states |
|---|---|---|
| Links.HasPrefixIsSeqPrefix | main.go:141 | the `strings.HasPrefix` test agrees with Dafny's sequence-prefix order |
| Links.Resolve | main.go:118-123 | first match wins: an href yields a URL exactly when it starts with `/` (origin + href) or with `http` (the href itself); the two rules never both apply, and any other href yields nothing |
| Links.Hrefs | main.go:114-126 | the output is no longer than the input; a URL is in the output iff some href resolves to it by the `/` rule or the `http` rule |
| Links.HrefsAppend | main.go:116-125 | resolution works href by href: the output for `a + b` is the output for `a` followed by that for `b`, so output order follows document order |
| Links.RootRelativeResolved | main.go:119-120 | an href starting with `/`, including one starting with `//`, yields exactly origin + href with no slash normalisation |
| Links.AbsolutePassthrough | main.go:121-122 | an href with the literal prefix `http` is emitted unchanged |
| Links.OtherHrefsDropped | main.go:117-124 | an href starting with neither `/` nor `http` yields nothing |
| Links.UnsupportedHrefsDropped | main.go:117-124 | `#section`, `mailto:a@b.com`, `relative/path` and the empty href yield nothing |
| Links.Filter | main.go:128-137 | the output is a subsequence of the input, no longer than it, and holds each element as often as the input when the predicate keeps it and never otherwise |
| Links.FilterSound | main.go:131-133 | every element of the output is in the input and satisfies the predicate |
| Links.FilterKeepsAll | main.go:128-137 | when every element passes, the output is the input |
| Links.FilterIdempotent | main.go:128-137 | filtering twice with the same predicate equals filtering once |
| Links.WithPrefix | main.go:139-143 | the predicate holds of `s` iff the given prefix is a literal prefix of `s` |
| Links.Get | main.go:86-111 | a transport failure yields no links; otherwise at most one link per href, and a URL is returned iff the origin is its prefix and some href resolves to it |
| Links.ProtocolRelativeKept | main.go:119-120 | a protocol-relative href `//cdn.x/y` is returned as origin + `//cdn.x/y` |
| Links.RootRelativeExample | main.go:119-120 | `/a/b` under `https://ex.com` is returned as exactly `https://ex.com/a/b` |
| Links.OtherHostDropped | main.go:121-122 | `http://other.com/x` resolves unchanged and is then removed by the `https://ex.com` origin filter |
| Links.PrefixFilterNotHostAware | main.go:111 | the origin filter is textual: `http://ex.com.evil.org/x` passes the filter for origin `http://ex.com` |
| Reach.BallMonotone | main.go:64-77 | allowing more hops never loses a page |
| Reach.RootInBall | main.go:61-63 | the root is within any non-negative number of hops of itself |
| Reach.LinkExtendsBall | main.go:72-74 | a link out of a page within `d` hops leads to a page within `d + 1` hops |
| Reach.BallHasWalk | main.go:64-77 | every URL of the level-by-level set has a walk of at most `d` hops from the root |
| Reach.WalkInBall | main.go:64-77 | the last URL of a walk of at most `d` hops from the root is in the level-by-level set |
| Reach.BallIsReachable | main.go:64-77 | a URL is in the level-by-level set iff some walk of at most `d` hops leads to it from the root |
| Reach.NonRootHasLinker | main.go:72-74 | every URL within `d` hops other than the root is linked from a page within `d - 1` hops |
| Reach.CycleReach | main.go:64-77 | with R and A linking to each other, the pages within `d >= 1` hops of R are exactly {R, A} |
| Reach.ChainReach | main.go:64-77 | for R -> A -> B -> C, one hop reaches exactly {R, A} and two hops exactly {R, A, B} |
| Crawler.AdmittedSnoc | main.go:72-76 | expanding one more page admits exactly its links that are not seen at that point |
| Crawler.Expand | main.go:72-76 | the next frontier grows by exactly the page's links that are not in `seen` and by nothing else |
| Crawler.Round | main.go:65-77 | the seen set becomes old seen plus the frontier; each frontier URL not already seen is fetched exactly once; the next frontier is exactly the links not seen when their page was expanded |
| Crawler.SiblingAdmittedThenSkipped | main.go:66-76 | running two rounds from frontier {a, b} with `a` linking to `b`: the first round fetches both; if it fetches `a` first, `b` still enters the next frontier; the second round does not fetch `b` again |
| Crawler.AdvanceFrontier | main.go:64-77 | a round that starts with seen = the pages within `i - 1` hops ends with seen = the pages within `i` hops, and with a next frontier inside the pages within `i + 1` hops that covers all of them not yet seen |
| Crawler.LevelsDisjoint | main.go:66-71 | rounds that fetch by level never fetch the same URL twice |
| Crawler.Bfs | main.go:58-84 | exactly `maxDepth + 1` rounds (none when `maxDepth < 0`); round `d` fetches, once each, exactly the URLs at shortest distance `d`; no URL is fetched in two rounds; the result has no duplicates and is exactly the URLs within `maxDepth` hops; the root is in it iff `maxDepth >= 0` |
| Crawler.SiteLinks | main.go:72 | the link function the traversal follows is `get`: a page whose fetch failed has no links, and every link of a page starts with that page's origin |
| Crawler.Crawl | main.go:58-111 | the crawled pages are exactly those within `maxDepth` hops under `get`'s links, and every page other than the root starts with the origin of a crawled page that links to it |
| Seqs.SetToSeq | main.go:79-83 | every element of the seen set is listed exactly once |

## Left out

- `main` (main.go:36-56): flag parsing, XML encoding to standard output and the `panic` on an encoding error are I/O and library serialisation.
- The HTTP side of `get` (main.go:87-92, 104-109): `http.Get`, closing the response body and the redirect-derived request URL are network calls. The origin that `url.URL.String()` builds from scheme and host is a field of `Links.Fetch`, and a transport error is `Failed`, which yields no links.
- `link.Parse` from the `go-linkParse` package (main.go:115) is not part of this model. Its result is the `hrefs` sequence of `Fetched`, in document order, and its parse error is ignored as in the code.
- Go's map iteration order: frontiers are picked from by nondeterministic choice, so no concrete order is modelled. The returned page list is in an unspecified order.
- The per-round fetch orders returned by `Crawler.Bfs` are not in the Go code's return value. They record the order of the `get` calls so that "fetched at most once" can be stated.
- Go strings are byte strings compared byte by byte by `strings.HasPrefix`; the model uses Dafny `string`, a sequence of characters. Prefix tests and concatenation behave the same on both, so no behaviour of the core is lost.
- Go's `int` width for `maxDepth` and the loop counter is not modelled. The loop runs `maxDepth + 1` times, which cannot overflow for any depth a caller can wait for.
