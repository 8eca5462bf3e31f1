/**
 Link resolution and same-origin filtering of one fetched page.

 A page yields its raw href values in document order. Each href is
 resolved against the page's origin (scheme and host of the effective,
 post-redirect URL) by two purely textual rules, and the resolved URLs are
 then kept only when the origin is a literal prefix of them.
 */
module Links {
  import opened Seqs

  datatype Option<T> = None | Some(value: T)

  /** Go's strings.HasPrefix: the first |prefix| characters of `s` are `prefix`. */
  predicate HasPrefix(s: string, prefix: string) {
    |prefix| <= |s| && s[..|prefix|] == prefix
  }

  /** The textual prefix test agrees with Dafny's sequence-prefix order. */
  lemma HasPrefixIsSeqPrefix(s: string, prefix: string)
    ensures HasPrefix(s, prefix) <==> prefix <= s
  {
  }

  /** One differing position rules a prefix out. */
  lemma NotPrefixAt(s: string, p: string, i: nat)
    requires i < |p| && i < |s| && s[i] != p[i]
    ensures !HasPrefix(s, p)
  {
    assert |p| <= |s| ==> s[..|p|][i] == s[i];
  }

  /** The URL `href` contributes to the output of `Hrefs`, spelled out without `HasPrefix`. */
  ghost predicate ResolvesTo(href: string, base: string, url: string) {
    || (|href| > 0 && href[0] == '/' && url == base + href)
    || (|href| >= 4 && href[..4] == "http" && url == href)
  }

  /**
   One href against `base`, first rule wins: a leading `/` is appended to the
   origin verbatim (so `//host/x` is too), a leading `http` is taken as it is,
   and anything else is dropped. The two rules never both apply, so an href
   yields at most one URL.
   */
  function Resolve(href: string, base: string): (r: Option<string>)
    ensures forall url :: r == Some(url) <==> ResolvesTo(href, base, url)
  {
    assert |href| > 0 ==> (HasPrefix(href, "/") <==> href[0] == '/') by {
      if |href| > 0 {
        if href[0] == '/' {
          assert href[..1] == "/";
        } else {
          NotPrefixAt(href, "/", 0);
        }
      }
    }
    if HasPrefix(href, "/") then Some(base + href)
    else if HasPrefix(href, "http") then Some(href)
    else None
  }

  /** Resolves every href of a page, in document order, dropping the unsupported ones. */
  function Hrefs(hrefs: seq<string>, base: string): (r: seq<string>)
    ensures |r| <= |hrefs|
    ensures forall url :: url in r <==> exists h :: h in hrefs && ResolvesTo(h, base, url)
  {
    if hrefs == [] then []
    else
      var rest := Hrefs(hrefs[1..], base);
      assert forall h :: h in hrefs <==> h == hrefs[0] || h in hrefs[1..];
      match Resolve(hrefs[0], base)
      case Some(url) => [url] + rest
      case None => rest
  }

  /** Resolution works href by href: the output of a concatenation is the concatenation of the outputs. */
  lemma {:induction false} HrefsAppend(a: seq<string>, b: seq<string>, base: string)
    ensures Hrefs(a + b, base) == Hrefs(a, base) + Hrefs(b, base)
    decreases |a|
  {
    if a == [] {
      assert a + b == b;
    } else {
      assert (a + b)[0] == a[0];
      assert (a + b)[1..] == a[1..] + b;
      HrefsAppend(a[1..], b, base);
    }
  }

  /** A root-relative href becomes the origin followed by the href, with no slash normalisation. */
  lemma RootRelativeResolved(href: string, base: string)
    requires HasPrefix(href, "/")
    ensures Hrefs([href], base) == [base + href]
  {
  }

  /** An href with the literal prefix `http` is emitted unchanged. */
  lemma AbsolutePassthrough(href: string, base: string)
    requires HasPrefix(href, "http")
    ensures Hrefs([href], base) == [href]
  {
    assert href[0] == href[..4][0] == 'h';
    NotPrefixAt(href, "/", 0);
  }

  /** Every other href contributes nothing. */
  lemma OtherHrefsDropped(href: string, base: string)
    requires !HasPrefix(href, "/") && !HasPrefix(href, "http")
    ensures Hrefs([href], base) == []
  {
  }

  /** Go's filter: the elements of `links` for which `keep` holds. */
  function Filter(links: seq<string>, keep: string -> bool): (r: seq<string>)
    ensures |r| <= |links|
    ensures IsSubsequence(r, links)
    ensures forall x :: multiset(r)[x] == if keep(x) then multiset(links)[x] else 0
  {
    if links == [] then []
    else
      var rest := Filter(links[1..], keep);
      assert links == [links[0]] + links[1..];
      if keep(links[0]) then
        assert ([links[0]] + rest)[1..] == rest;
        [links[0]] + rest
      else
        rest
  }

  /** Every element that `Filter` returns satisfies the predicate. */
  lemma FilterSound(links: seq<string>, keep: string -> bool, x: string)
    requires x in Filter(links, keep)
    ensures keep(x) && x in links
  {
    assert multiset(Filter(links, keep))[x] > 0;
  }

  /** Filtering a list whose elements all pass returns it unchanged. */
  lemma {:induction false} FilterKeepsAll(links: seq<string>, keep: string -> bool)
    requires forall x :: x in links ==> keep(x)
    ensures Filter(links, keep) == links
    decreases |links|
  {
    if links != [] {
      assert forall x :: x in links[1..] ==> x in links;
      FilterKeepsAll(links[1..], keep);
    }
  }

  /** Applying the same filter twice is the same as applying it once. */
  lemma FilterIdempotent(links: seq<string>, keep: string -> bool)
    ensures Filter(Filter(links, keep), keep) == Filter(links, keep)
  {
    var once := Filter(links, keep);
    forall x | x in once
      ensures keep(x)
    {
      FilterSound(links, keep, x);
    }
    FilterKeepsAll(once, keep);
  }

  /** Go's withPrefix: the predicate "has `pfx` as a literal prefix". */
  function WithPrefix(pfx: string): (keep: string -> bool)
    ensures forall s :: keep(s) <==> pfx <= s
  {
    s => HasPrefix(s, pfx)
  }

  /**
   What fetching a URL produced: the origin of the URL actually served
   together with the page's hrefs, or a transport failure.
   */
  datatype Fetch = Fetched(origin: string, hrefs: seq<string>) | Failed(reason: string)

  /**
   Go's get, with the HTTP round trip already done: the page's links,
   resolved against the origin and restricted to that origin. A transport
   failure yields no links.
   */
  function Get(f: Fetch): (r: seq<string>)
    ensures f.Failed? ==> r == []
    ensures f.Fetched? ==> |r| <= |f.hrefs|
    ensures f.Fetched? ==> forall url :: url in r <==>
      f.origin <= url && exists h :: h in f.hrefs && ResolvesTo(h, f.origin, url)
  {
    match f
    case Failed(_) => []
    case Fetched(origin, hrefs) =>
      var resolved := Hrefs(hrefs, origin);
      var r := Filter(resolved, WithPrefix(origin));
      forall url | url in r
        ensures origin <= url && url in resolved
      {
        FilterSound(resolved, WithPrefix(origin), url);
      }
      forall url | url in resolved && origin <= url
        ensures url in r
      {
        assert multiset(r)[url] == multiset(resolved)[url] > 0;
      }
      r
  }

  /**
   A protocol-relative href matches the root-relative rule: it is glued onto
   the origin and the result passes the same-origin filter.
   */
  lemma ProtocolRelativeKept(origin: string)
    ensures Get(Fetched(origin, ["//cdn.x/y"])) == [origin + "//cdn.x/y"]
  {
    var url := origin + "//cdn.x/y";
    RootRelativeResolved("//cdn.x/y", origin);
    FilterKeepsAll([url], WithPrefix(origin));
  }

  /** `/a/b` under `https://ex.com` resolves to exactly `https://ex.com/a/b` and is kept. */
  lemma RootRelativeExample()
    ensures Get(Fetched("https://ex.com", ["/a/b"])) == ["https://ex.com/a/b"]
  {
    RootRelativeResolved("/a/b", "https://ex.com");
    assert "https://ex.com" + "/a/b" == "https://ex.com/a/b";
    FilterKeepsAll(["https://ex.com/a/b"], WithPrefix("https://ex.com"));
  }

  /** An absolute link to another host passes resolution unchanged but not the origin filter. */
  lemma OtherHostDropped()
    ensures Hrefs(["http://other.com/x"], "https://ex.com") == ["http://other.com/x"]
    ensures Get(Fetched("https://ex.com", ["http://other.com/x"])) == []
  {
    AbsolutePassthrough("http://other.com/x", "https://ex.com");
    assert !("https://ex.com" <= "http://other.com/x") by {
      assert "http://other.com/x"[4] != "https://ex.com"[4];
    }
    assert ["http://other.com/x"][1..] == [];
  }

  /** Fragments, mail links, relative paths and the empty href produce nothing. */
  lemma UnsupportedHrefsDropped(base: string)
    ensures Hrefs(["#section", "mailto:a@b.com", "relative/path", ""], base) == []
  {
    var hs := ["#section", "mailto:a@b.com", "relative/path", ""];
    forall h | h in hs
      ensures Hrefs([h], base) == []
    {
      if h != "" {
        NotPrefixAt(h, "/", 0);
        NotPrefixAt(h, "http", 0);
      }
      OtherHrefsDropped(h, base);
    }
    assert hs == [hs[0]] + [hs[1]] + [hs[2]] + [hs[3]];
    HrefsAppend([hs[0]] + [hs[1]] + [hs[2]], [hs[3]], base);
    HrefsAppend([hs[0]] + [hs[1]], [hs[2]], base);
    HrefsAppend([hs[0]], [hs[1]], base);
  }

  /**
   The origin test is a string prefix, not a host comparison: a host that
   merely starts with the origin's host passes it.
   */
  lemma PrefixFilterNotHostAware()
    ensures Get(Fetched("http://ex.com", ["http://ex.com.evil.org/x"])) == ["http://ex.com.evil.org/x"]
  {
    AbsolutePassthrough("http://ex.com.evil.org/x", "http://ex.com");
    assert "http://ex.com" <= "http://ex.com.evil.org/x";
    FilterKeepsAll(["http://ex.com.evil.org/x"], WithPrefix("http://ex.com"));
  }
}
