/**
 * The crawler's view of the web. HTTP and HTML parsing are collaborators the
 * model cannot see, so they are parameters:
 *  - `fetch(url)` stands for `requests.get` + `raise_for_status` + parsing
 *    with BeautifulSoup + reading the `href` of every `<a href=...>`: it yields
 *    the raw hrefs of the page, or the text of the exception raised;
 *  - `resolve(base, href)` stands for `urljoin`;
 *  - `netloc(url)` stands for `urlparse(url).netloc`.
 */
module Site {
  import opened Wrappers
  import opened Collections

  type Url = string

  datatype Web = Web(
    fetch: Url -> Result<seq<Url>, string>,
    resolve: (Url, Url) -> Url,
    netloc: Url -> string)

  /** A value of the site tree: the page's distinct same-origin links, or `{"error": str(e)}`. */
  datatype Node = Children(links: seq<Url>) | Error(reason: string)

  /** `c` is listed as a child of `n`. */
  predicate ChildOf(n: Node, c: Url) {
    n.Children? && c in n.links
  }

  /** The tree holds a child list for `p` that lists `c`. */
  predicate ListedChild(t: map<Url, Node>, p: Url, c: Url) {
    p in t && ChildOf(t[p], c)
  }

  /** Every child the tree lists for a URL of `w` is itself in `w`. */
  ghost predicate ChildClosed(t: map<Url, Node>, w: set<Url>) {
    forall x, c :: x in w && ListedChild(t, x, c) ==> c in w
  }

  /**
   * `x` is reachable from `root` through the child lists of the tree: it
   * belongs to every set that holds `root` and is closed under listed
   * children.
   */
  ghost predicate ReachableFrom(t: map<Url, Node>, root: Url, x: Url) {
    forall w {:trigger ChildClosed(t, w)} :: root in w && ChildClosed(t, w) ==> x in w
  }

  /**
   * The origin filter of the crawl: every href resolved against the seed
   * `base`, kept when its network location equals the seed's. Duplicates and
   * document order are kept.
   */
  function SameOriginLinks(web: Web, base: Url, hrefs: seq<Url>): (r: seq<Url>)
    ensures |r| <= |hrefs|
    ensures forall x :: x in r ==> web.netloc(x) == web.netloc(base)
  {
    if hrefs == [] then []
    else
      var x := web.resolve(base, hrefs[0]);
      var rest := SameOriginLinks(web, base, hrefs[1..]);
      if web.netloc(x) == web.netloc(base) then [x] + rest else rest
  }

  /**
   * A URL is kept exactly when it is the resolution of one of the hrefs and
   * has the seed's network location.
   */
  lemma {:induction false} SameOriginLinksSpec(web: Web, base: Url, hrefs: seq<Url>)
    ensures forall x :: x in SameOriginLinks(web, base, hrefs) <==>
      exists h :: h in hrefs && x == web.resolve(base, h) && web.netloc(x) == web.netloc(base)
  {
    if hrefs != [] {
      SameOriginLinksSpec(web, base, hrefs[1..]);
      assert forall h :: h in hrefs <==> h == hrefs[0] || h in hrefs[1..];
    }
  }

  /** Every link the crawler keeps has the seed's network location. */
  lemma SameOriginOnly(web: Web, base: Url, hrefs: seq<Url>)
    ensures forall x :: x in SameOriginLinks(web, base, hrefs) ==> web.netloc(x) == web.netloc(base)
  {
    SameOriginLinksSpec(web, base, hrefs);
  }

  /** The value the crawler stores for a visited `u`: its distinct same-origin links, or the fetch's error. */
  function NodeOf(web: Web, base: Url, u: Url): (n: Node)
    ensures n.Error? <==> web.fetch(u).Err?
    ensures n.Error? ==> n.reason == web.fetch(u).error
    ensures n.Children? ==> NoDup(n.links) && |n.links| <= |web.fetch(u).value|
  {
    match web.fetch(u)
    case Ok(hrefs) => Children(Distinct(SameOriginLinks(web, base, hrefs)))
    case Err(e) => Error(e)
  }

  /** The links the crawler appends to its frontier after visiting `u`; none when the fetch failed. */
  function PageLinks(web: Web, base: Url, u: Url): (r: seq<Url>)
    ensures web.fetch(u).Err? ==> r == []
    ensures web.fetch(u).Ok? ==> |r| <= |web.fetch(u).value|
    ensures forall c :: c in r ==> web.netloc(c) == web.netloc(base)
  {
    match web.fetch(u)
    case Ok(hrefs) => SameOriginLinks(web, base, hrefs)
    case Err(_) => []
  }

  /**
   * A stored node lists each same-origin link of the page once, and nothing
   * else; a failed fetch is stored as its error and contributes no links.
   */
  lemma NodeOfSpec(web: Web, base: Url, u: Url)
    ensures NodeOf(web, base, u).Children? ==>
      NoDup(NodeOf(web, base, u).links) &&
      forall c :: c in NodeOf(web, base, u).links <==> c in PageLinks(web, base, u)
    ensures NodeOf(web, base, u).Error? <==> web.fetch(u).Err?
    ensures NodeOf(web, base, u).Error? ==> NodeOf(web, base, u).reason == web.fetch(u).error && PageLinks(web, base, u) == []
    ensures forall c :: c in PageLinks(web, base, u) ==> web.netloc(c) == web.netloc(base)
  {
    if web.fetch(u).Ok? {
      SameOriginOnly(web, base, web.fetch(u).value);
    }
  }

  /** The URLs one link away from some URL of `s`. */
  ghost function Successors(web: Web, base: Url, s: set<Url>): set<Url> {
    set u, c | u in s && c in PageLinks(web, base, u) :: c
  }

  /** The URLs reachable from the seed `base` in at most `k` links. */
  ghost function Reach(web: Web, base: Url, k: nat): set<Url> {
    if k == 0 then {base}
    else Reach(web, base, k - 1) + Successors(web, base, Reach(web, base, k - 1))
  }

  /** `Reach`, empty for a negative bound. */
  ghost function ReachWithin(web: Web, base: Url, maxDepth: int): set<Url> {
    if maxDepth < 0 then {} else Reach(web, base, maxDepth)
  }

  /** `u` is `k` links from the seed and no fewer: its distance in the breadth-first order. */
  ghost predicate Distance(web: Web, base: Url, u: Url, k: nat) {
    u in Reach(web, base, k) && forall m :: 0 <= m < k ==> u !in Reach(web, base, m)
  }

  lemma ReachGrows(web: Web, base: Url, k: nat)
    ensures Reach(web, base, k) <= Reach(web, base, k + 1)
  {
    var r := Reach(web, base, k);
    assert Reach(web, base, k + 1) == r + Successors(web, base, r);
  }

  /** A larger hop bound reaches at least the same URLs. */
  lemma {:induction false} ReachMonotone(web: Web, base: Url, k: nat, m: nat)
    requires k <= m
    ensures Reach(web, base, k) <= Reach(web, base, m)
    decreases m - k
  {
    if k < m {
      ReachMonotone(web, base, k + 1, m);
      ReachGrows(web, base, k);
    }
  }

  /** A URL reached in `k > 0` hops was already reached in `k - 1`, or is a link of a URL that was. */
  lemma ReachParent(web: Web, base: Url, k: nat, u: Url) returns (p: Url)
    requires k > 0 && u in Reach(web, base, k)
    ensures p in Reach(web, base, k - 1)
    ensures p == u || u in PageLinks(web, base, p)
  {
    var prev := Reach(web, base, k - 1);
    assert Reach(web, base, k) == prev + Successors(web, base, prev);
    if u in prev {
      p := u;
    } else {
      p :| p in prev && u in PageLinks(web, base, p);
    }
  }

  lemma ReachStep(web: Web, base: Url, k: nat, u: Url, c: Url)
    requires u in Reach(web, base, k) && c in PageLinks(web, base, u)
    ensures c in Reach(web, base, k + 1)
  {
    assert c in Successors(web, base, Reach(web, base, k));
  }
}
