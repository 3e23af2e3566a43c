/** The crawl frontier (`Crawler`): a FIFO queue of links waiting to be
    resolved, the set of URLs already claimed, and the base the last claimed
    link was found under. Fetching a page and extracting its anchors are a
    parameter, `Links`. The frontier is modelled sequentially: one call at a
    time. */
module Crawl {
  import opened Wrappers
  import opened Paths
  import opened Urls

  /** A discovered link: the base it is resolved against and the raw `href`. */
  datatype Edge = Edge(base: string, ref: string)

  /** The crawl state: `_current_base`, `_pending_links`, `_finished`. */
  datatype Frontier = Frontier(currentBase: string, pending: seq<Edge>, finished: set<string>)

  /** What `__next__` gives: nothing when the queue is empty; the claimed URL
      with the local path it is stored under; or, when fetching the claimed
      page raises, that URL with the error. */
  datatype Claim =
    | Exhausted
    | Claimed(local: PathComponents, url: string)
    | FetchFailed(url: string)

  /** Fetching a page and collecting `a.get("href")` for each anchor in
      document order (None for an anchor without one); None when the request
      raises. */
  type Links = string -> Option<seq<Option<string>>>

  /** The state `Crawler.__init__` sets up: one edge to the first page,
      under the start URL, which is also the current base; nothing claimed. */
  function Init(startUrl: string, firstPage: string): (r: Frontier)
    ensures AllBases(r, startUrl)
    ensures |r.pending| == 1 && r.pending[0].ref == firstPage
    ensures r.finished == {}
  {
    Frontier(startUrl, [Edge(startUrl, firstPage)], {})
  }

  /** An extracted `href` is queued when it is non-empty and does not
      resolve to a URL already claimed. A missing or empty `href` is never
      queued, whatever has been claimed. */
  predicate Keeps(lib: UrlLib, finished: set<string>, base: string, href: Option<string>)
    ensures href.None? || href.value == "" ==> !Keeps(lib, finished, base, href)
    ensures Keeps(lib, finished, base, href) ==> Normalize(lib, base, href.value) !in finished
  {
    href.Some? && href.value != "" && Normalize(lib, base, href.value) !in finished
  }

  /** The edges `_extendlinksof` appends for the extracted `hrefs`, in
      document order: every queued edge carries `base` and a ref that
      `Keeps` accepts and that is one of the page's `hrefs`, and every
      accepted ref is queued. */
  function Kept(lib: UrlLib, finished: set<string>, base: string, hrefs: seq<Option<string>>): (r: seq<Edge>)
    ensures |r| <= |hrefs|
    ensures forall e :: e in r ==> e.base == base && Keeps(lib, finished, base, Some(e.ref))
    ensures forall e :: e in r ==> Some(e.ref) in hrefs
    ensures forall k :: 0 <= k < |hrefs| && Keeps(lib, finished, base, hrefs[k]) ==> Edge(base, hrefs[k].value) in r
    decreases |hrefs|
  {
    if hrefs == [] then []
    else
      var n := |hrefs|;
      var last := hrefs[n - 1];
      assert forall k :: 0 <= k < n - 1 ==> hrefs[..n - 1][k] == hrefs[k];
      Kept(lib, finished, base, hrefs[..n - 1]) + (if Keeps(lib, finished, base, last) then [Edge(base, last.value)] else [])
  }

  /** The links of consecutive stretches of a page are queued one stretch
      after the other: the filter keeps document order. */
  lemma {:induction false} KeptAppend(lib: UrlLib, finished: set<string>, base: string, a: seq<Option<string>>, b: seq<Option<string>>)
    ensures Kept(lib, finished, base, a + b) == Kept(lib, finished, base, a) + Kept(lib, finished, base, b)
    decreases |b|
  {
    if b == [] {
      assert a + b == a;
    } else {
      var n := |b|;
      assert (a + b)[..|a + b| - 1] == a + b[..n - 1];
      KeptAppend(lib, finished, base, a, b[..n - 1]);
    }
  }

  /** A single anchor gives one edge when it is kept and none otherwise;
      with `KeptAppend` this fixes the order and the number of the edges. */
  lemma KeptOne(lib: UrlLib, finished: set<string>, base: string, h: Option<string>)
    ensures Kept(lib, finished, base, [h]) == if Keeps(lib, finished, base, h) then [Edge(base, h.value)] else []
  {
    assert [h][..0] == [];
  }

  /** `__next__`: on an empty queue, nothing and no change. Otherwise the
      oldest edge is removed, its base becomes the current base, its
      resolved URL is added to the claimed set and returned, and the links of
      that page that are not yet claimed are appended (none when the fetch
      raises). The claimed set is not consulted before claiming. */
  function Step(lib: UrlLib, links: Links, f: Frontier): (r: (Frontier, Claim))
    ensures r.1.Exhausted? <==> f.pending == []
    ensures f.pending == [] ==> r.0 == f
    ensures f.pending != [] ==>
      && r.1.url == Normalize(lib, f.pending[0].base, f.pending[0].ref)
      && r.0.finished == f.finished + {r.1.url}
  {
    if f.pending == [] then (f, Exhausted)
    else
      var e := f.pending[0];
      var url := Normalize(lib, e.base, e.ref);
      var finished := f.finished + {url};
      match links(url)
      case None => (Frontier(e.base, f.pending[1..], finished), FetchFailed(url))
      case Some(hrefs) =>
        var pending := f.pending[1..] + Kept(lib, finished, e.base, hrefs);
        (Frontier(e.base, pending, finished), Claimed(ToPathComponents(lib.pathOf(url)), url))
  }

  /** A call on a non-empty queue removes exactly the oldest edge and keeps
      the rest in order, sets the current base to that edge's base, and only
      appends edges under that base whose resolved URL is not claimed (the
      one just claimed included): exactly `Kept` of the claimed page's
      anchors. The URL is claimed whether or not its
      fetch succeeds; a successful one also gives the local path, a failed
      one appends nothing. */
  lemma StepQueue(lib: UrlLib, links: Links, f: Frontier)
    requires f.pending != []
    ensures var r := Step(lib, links, f);
      var e := f.pending[0];
      && r.0.currentBase == e.base
      && |r.0.pending| >= |f.pending| - 1
      && r.0.pending[..|f.pending| - 1] == f.pending[1..]
      && (forall k :: |f.pending| - 1 <= k < |r.0.pending| ==>
            r.0.pending[k].base == e.base && Normalize(lib, e.base, r.0.pending[k].ref) !in r.0.finished)
      && (r.1.Claimed? <==> links(r.1.url).Some?)
      && (r.1.FetchFailed? ==> r.0.pending == f.pending[1..])
      && (r.1.Claimed? ==> r.0.pending == f.pending[1..] + Kept(lib, r.0.finished, e.base, links(r.1.url).value))
      && (r.1.Claimed? ==> r.1.local == ToPathComponents(lib.pathOf(r.1.url)))
  {
    var e := f.pending[0];
    var url := Normalize(lib, e.base, e.ref);
    var finished := f.finished + {url};
    var r := Step(lib, links, f);
    match links(url)
    case None =>
      assert r.0 == Frontier(e.base, f.pending[1..], finished);
      assert r.0.pending[..|f.pending| - 1] == f.pending[1..];
    case Some(hrefs) =>
      var added := Kept(lib, finished, e.base, hrefs);
      assert r.0 == Frontier(e.base, f.pending[1..] + added, finished);
      AppendedFrom(f.pending[1..], added);
  }

  /** In `p + q`, the prefix of length `|p|` is `p` and every later element
      is an element of `q`. */
  lemma AppendedFrom<T>(p: seq<T>, q: seq<T>)
    ensures (p + q)[..|p|] == p
    ensures forall k :: |p| <= k < |p + q| ==> (p + q)[k] in q
  {
    forall k | |p| <= k < |p + q|
      ensures (p + q)[k] in q
    {
      assert (p + q)[k] == q[k - |p|];
    }
  }

  /** Popping does not look at the claimed set: an edge whose URL is
      already claimed is claimed again, and the claimed set stays as it was. */
  lemma ClaimDoesNotRecheck(lib: UrlLib, links: Links, f: Frontier)
    requires f.pending != []
    requires Normalize(lib, f.pending[0].base, f.pending[0].ref) in f.finished
    ensures !Step(lib, links, f).1.Exhausted?
    ensures Step(lib, links, f).1.url == Normalize(lib, f.pending[0].base, f.pending[0].ref)
    ensures Step(lib, links, f).0.finished == f.finished
  {
  }

  /** `n` successive calls of `__next__`: the final state and what each call gave. */
  function Run(lib: UrlLib, links: Links, f: Frontier, n: nat): (r: (Frontier, seq<Claim>))
    ensures |r.1| == n
    decreases n
  {
    if n == 0 then (f, [])
    else
      var s := Step(lib, links, f);
      var rest := Run(lib, links, s.0, n - 1);
      (rest.0, [s.1] + rest.1)
  }

  /** Over any number of calls the claimed set only grows, and every URL a
      call claimed is in it at the end. */
  lemma {:induction false} RunGrowsFinished(lib: UrlLib, links: Links, f: Frontier, n: nat)
    ensures f.finished <= Run(lib, links, f, n).0.finished
    ensures forall k :: 0 <= k < n && !Run(lib, links, f, n).1[k].Exhausted? ==>
      Run(lib, links, f, n).1[k].url in Run(lib, links, f, n).0.finished
    decreases n
  {
    if n > 0 {
      var s := Step(lib, links, f);
      var rest := Run(lib, links, s.0, n - 1);
      RunGrowsFinished(lib, links, s.0, n - 1);
      var claims := [s.1] + rest.1;
      assert Run(lib, links, f, n) == (rest.0, claims);
      forall k | 0 <= k < n && !claims[k].Exhausted?
        ensures claims[k].url in rest.0.finished
      {
        if k > 0 {
          assert claims[k] == rest.1[k - 1];
        }
      }
    }
  }

  /** The current base and the base of every pending edge are all `b`. */
  predicate AllBases(f: Frontier, b: string) {
    f.currentBase == b && forall e :: e in f.pending ==> e.base == b
  }

  lemma StepKeepsBases(lib: UrlLib, links: Links, f: Frontier, b: string)
    requires AllBases(f, b)
    ensures AllBases(Step(lib, links, f).0, b)
  {
    if f.pending != [] {
      var g := Step(lib, links, f).0;
      forall e | e in g.pending
        ensures e.base == b
      {
        var k :| 0 <= k < |g.pending| && g.pending[k] == e;
        if k < |f.pending| - 1 {
          assert g.pending[..|f.pending| - 1][k] == f.pending[1..][k];
        }
      }
    }
  }

  /** Links are queued under `_current_base`, which is itself the base of
      the edge just claimed, never the URL of the page they were found on.
      So, from the initial state, the base never changes: every href, on
      whatever page, is resolved against the start URL. */
  lemma {:induction false} BasesStayAtStart(lib: UrlLib, links: Links, startUrl: string, firstPage: string, n: nat)
    ensures AllBases(Run(lib, links, Init(startUrl, firstPage), n).0, startUrl)
  {
    RunKeepsBases(lib, links, Init(startUrl, firstPage), startUrl, n);
  }

  lemma {:induction false} RunKeepsBases(lib: UrlLib, links: Links, f: Frontier, b: string, n: nat)
    requires AllBases(f, b)
    ensures AllBases(Run(lib, links, f, n).0, b)
    decreases n
  {
    if n > 0 {
      StepKeepsBases(lib, links, f, b);
      RunKeepsBases(lib, links, Step(lib, links, f).0, b, n - 1);
    }
  }

  /** Two anchors on one page that resolve to the same unclaimed URL are
      both queued, and nothing re-checks the claimed set when an edge is
      popped, so that URL is claimed (and fetched) twice. */
  lemma DuplicateAnchorClaimedTwice(lib: UrlLib, links: Links, startUrl: string, firstPage: string, href: string)
    requires href != ""
    requires Normalize(lib, startUrl, href) != Normalize(lib, startUrl, firstPage)
    requires links(Normalize(lib, startUrl, firstPage)) == Some([Some(href), Some(href)])
    ensures var claims := Run(lib, links, Init(startUrl, firstPage), 3).1;
      && claims[0].Claimed? && claims[0].url == Normalize(lib, startUrl, firstPage)
      && !claims[1].Exhausted? && claims[1].url == Normalize(lib, startUrl, href)
      && !claims[2].Exhausted? && claims[2].url == Normalize(lib, startUrl, href)
  {
    var f0 := Init(startUrl, firstPage);
    var e := Edge(startUrl, href);
    var s0 := Step(lib, links, f0);
    FirstPageQueuesBoth(lib, links, startUrl, firstPage, href);
    var s1 := Step(lib, links, s0.0);
    StepQueue(lib, links, s0.0);
    assert s1.0.pending[..1] == [e];
    var s2 := Step(lib, links, s1.0);
    assert Run(lib, links, s1.0, 1).1 == [s2.1];
    assert Run(lib, links, s0.0, 2).1 == [s1.1, s2.1];
    assert Run(lib, links, f0, 3).1 == [s0.1, s1.1, s2.1];
  }

  /** The first call of the previous lemma: the first page is claimed and
      both anchors are queued. */
  lemma FirstPageQueuesBoth(lib: UrlLib, links: Links, startUrl: string, firstPage: string, href: string)
    requires href != ""
    requires Normalize(lib, startUrl, href) != Normalize(lib, startUrl, firstPage)
    requires links(Normalize(lib, startUrl, firstPage)) == Some([Some(href), Some(href)])
    ensures var s := Step(lib, links, Init(startUrl, firstPage));
      && s.0.pending == [Edge(startUrl, href), Edge(startUrl, href)]
      && s.1.Claimed? && s.1.url == Normalize(lib, startUrl, firstPage)
  {
    var u := Normalize(lib, startUrl, firstPage);
    KeptTwice(lib, {u}, startUrl, href);
    StepFromInit(lib, links, startUrl, firstPage);
  }

  /** Two equal anchors that are kept give two equal edges. */
  lemma KeptTwice(lib: UrlLib, finished: set<string>, base: string, href: string)
    requires Keeps(lib, finished, base, Some(href))
    ensures Kept(lib, finished, base, [Some(href), Some(href)]) == [Edge(base, href), Edge(base, href)]
  {
    var hrefs := [Some(href), Some(href)];
    assert hrefs[..1] == [Some(href)] && [Some(href)][..0] == [];
  }

  /** The first call from the initial state claims the first page and queues
      what `Kept` accepts of its anchors. */
  lemma StepFromInit(lib: UrlLib, links: Links, startUrl: string, firstPage: string)
    ensures var u := Normalize(lib, startUrl, firstPage);
      var s := Step(lib, links, Init(startUrl, firstPage));
      && s.1.url == u
      && (links(u).Some? ==> s.1.Claimed? && s.0.pending == Kept(lib, {u}, startUrl, links(u).value))
  {
    var f0 := Init(startUrl, firstPage);
    assert f0.pending[1..] == [];
    var u := Normalize(lib, startUrl, firstPage);
    assert {} + {u} == {u};
    if links(u).Some? {
      assert [] + Kept(lib, {u}, startUrl, links(u).value) == Kept(lib, {u}, startUrl, links(u).value);
    }
  }

  /** The Python `Crawler`: `_current_base`, `_pending_links` and `_finished`
      as fields, the URL library and the page fetch as constants. */
  class Crawler {
    const lib: UrlLib
    const links: Links
    const startUrl: string
    var currentBase: string
    var pending: seq<Edge>
    var finished: set<string>

    function State(): Frontier
      reads this
    {
      Frontier(currentBase, pending, finished)
    }

    /** `__init__`: the start URL is the current base, the queue holds the
        one edge to the first page, nothing is claimed. */
    constructor (lib: UrlLib, links: Links, startUrl: string, firstPage: string)
      ensures this.lib == lib && this.links == links && this.startUrl == startUrl
      ensures State() == Init(startUrl, firstPage)
    {
      this.lib := lib;
      this.links := links;
      this.startUrl := startUrl;
      currentBase := startUrl;
      pending := [Edge(startUrl, firstPage)];
      finished := {};
    }

    /** `_extendlinksof(url)`: fetch the page and append, in document order,
        each non-empty href under the current base whose resolved URL is not
        claimed yet. A failing fetch changes nothing. */
    method ExtendLinksOf(url: string) returns (ok: bool)
      modifies this
      ensures ok == links(url).Some?
      ensures currentBase == old(currentBase) && finished == old(finished)
      ensures pending == old(pending) + if ok then Kept(lib, finished, currentBase, links(url).value) else []
    {
      var page := links(url);
      if page.None? {
        return false;
      }
      var hrefs := page.value;
      var found: seq<Edge> := [];
      for k := 0 to |hrefs|
        invariant found == Kept(lib, finished, currentBase, hrefs[..k])
      {
        assert hrefs[..k + 1][..k] == hrefs[..k];
        var ref := hrefs[k];
        if ref.None? || ref.value == "" {
          continue;
        }
        var normalized := Normalize(lib, currentBase, ref.value);
        if normalized !in finished {
          found := found + [Edge(currentBase, ref.value)];
        }
      }
      assert hrefs[..|hrefs|] == hrefs;
      pending := pending + found;
      ok := true;
    }

    /** `__next__`, as `Step` describes it. */
    method Next() returns (claim: Claim)
      modifies this
      ensures (State(), claim) == Step(lib, links, old(State()))
    {
      if |pending| == 0 {
        return Exhausted;
      }
      var edge := pending[0];
      pending := pending[1..];
      currentBase := edge.base;
      finished := finished + {Normalize(lib, edge.base, edge.ref)};
      var absolute := Normalize(lib, currentBase, edge.ref);
      ghost var before := pending;
      var ok := ExtendLinksOf(absolute);
      if !ok {
        assert pending == before;
        return FetchFailed(absolute);
      }
      claim := Claimed(ToPathComponents(lib.pathOf(absolute)), absolute);
    }
  }
}
