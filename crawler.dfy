/**
 * `extract_site_tree`: a breadth-first crawl from a seed URL, bounded by a
 * maximum depth, that records for every visited URL its distinct same-origin
 * links or the error its fetch raised.
 */
module Crawler {
  import opened Wrappers
  import opened Collections
  import opened Site

  /** The dictionary the crawl returns: its keys in insertion order, and the value of each. */
  datatype SiteTree = SiteTree(keys: seq<Url>, nodes: map<Url, Node>)

  /** Each key is listed once, and the listed keys are exactly the dictionary's keys. */
  predicate WellFormed(t: SiteTree) {
    NoDup(t.keys) && (forall u :: u in t.keys ==> u in t.nodes) && (forall u :: u in t.nodes ==> u in t.keys)
  }

  /** The frontier's depths never decrease from head to tail. */
  ghost predicate Sorted(queue: seq<(Url, nat)>) {
    forall i, j :: 0 <= i < j < |queue| ==> queue[i].1 <= queue[j].1
  }

  /** Every frontier depth is `lo` or `lo + 1`. */
  ghost predicate Band(queue: seq<(Url, nat)>, lo: nat) {
    forall i :: 0 <= i < |queue| ==> lo <= queue[i].1 <= lo + 1
  }

  /** Every frontier entry is reachable from the seed within its depth. */
  ghost predicate InReach(web: Web, base: Url, queue: seq<(Url, nat)>) {
    forall i :: 0 <= i < |queue| ==> queue[i].0 in Reach(web, base, queue[i].1)
  }

  /** Each of `links` was visited at depth at most `d`, or waits in the frontier at depth `d`. */
  ghost predicate Covered(depthOf: map<Url, nat>, queue: seq<(Url, nat)>, links: seq<Url>, d: nat) {
    forall i :: 0 <= i < |links| ==> (links[i] in depthOf && depthOf[links[i]] <= d) || (links[i], d) in queue
  }

  /**
   * Every link of a page visited at depth `d` below the bound was itself
   * visited at depth at most `d + 1`, or still waits in the frontier at depth `d + 1`.
   */
  ghost predicate Closed(web: Web, base: Url, maxDepth: int, depthOf: map<Url, nat>, queue: seq<(Url, nat)>) {
    forall u {:trigger Visited(depthOf, u)} :: Visited(depthOf, u) && depthOf[u] < maxDepth ==>
      Covered(depthOf, queue, PageLinks(web, base, u), depthOf[u] + 1)
  }

  /**
   * `u` was visited. `Closed` quantifies over this term alone, so that the
   * links it mentions do not set off further instances of it.
   */
  ghost predicate Visited(depthOf: map<Url, nat>, u: Url) {
    u in depthOf
  }

  /** `queue.extend((link, depth + 1) for link in links)`, as the entries appended. */
  function Enqueued(links: seq<Url>, depth: nat): (r: seq<(Url, nat)>)
    ensures |r| == |links|
    ensures forall i :: 0 <= i < |r| ==> r[i] == (links[i], depth)
  {
    seq(|links|, i requires 0 <= i < |links| => (links[i], depth))
  }

  /**
   * The crawl. `fetched` logs, in order, every URL whose page was requested.
   * The results: every URL is requested at most once and becomes a key
   * exactly then; each key holds its stored node; the keys are exactly the URLs
   * reachable from the seed in at most `maxDepth` same-origin links; the seed
   * comes first; every later key is a listed child of an earlier key. `dist`
   * gives the depth at which each key was visited: it is the key's distance
   * from the seed, and the keys come in breadth-first order, by nondecreasing
   * distance.
   */
  method ExtractSiteTree(web: Web, baseUrl: Url, maxDepth: int)
    returns (tree: SiteTree, ghost fetched: seq<Url>, ghost dist: map<Url, nat>)
    ensures WellFormed(tree)
    ensures fetched == tree.keys
    ensures forall u :: u in tree.nodes ==> tree.nodes[u] == NodeOf(web, baseUrl, u)
    ensures forall u :: u in tree.nodes <==> u in ReachWithin(web, baseUrl, maxDepth)
    ensures maxDepth >= 0 ==> tree.keys != [] && tree.keys[0] == baseUrl
    ensures maxDepth < 0 ==> tree.keys == []
    ensures maxDepth == 0 ==> tree.keys == [baseUrl]
    ensures forall i :: 0 < i < |tree.keys| ==>
      exists j :: 0 <= j < i && ChildOf(tree.nodes[tree.keys[j]], tree.keys[i])
    ensures dist.Keys == tree.nodes.Keys && BreadthFirst(web, baseUrl, tree.keys, dist)
  {
    var queue: seq<(Url, nat)> := [(baseUrl, 0)];
    var visited: set<Url> := {};
    var keys: seq<Url> := [];
    var nodes: map<Url, Node> := map[];
    ghost var depthOf: map<Url, nat> := map[];
    ghost var lo: nat := 0;
    fetched := [];
    CrawlStart(web, baseUrl, maxDepth);

    while queue != []
      invariant fetched == keys
      invariant CrawlInv(web, baseUrl, maxDepth, queue, visited, keys, nodes, depthOf, lo)
      invariant VisitedReach(web, baseUrl, depthOf) && KeyOrder(keys, depthOf)
      decreases |ReachWithin(web, baseUrl, maxDepth) - visited|, |queue|
    {
      var (url, depth) := queue[0];
      ghost var before := queue;
      queue := queue[1..];
      if depth > maxDepth || url in visited {
        DiscardStep(web, baseUrl, maxDepth, before, visited, keys, nodes, depthOf, lo);
        continue;
      }
      var node, links := VisitPage(web, baseUrl, url);
      VisitStep(web, baseUrl, maxDepth, before, visited, keys, nodes, depthOf, lo, url, depth, node, links);
      VisitKeepsDistances(web, baseUrl, maxDepth, before, visited, keys, depthOf, lo, url, depth);

      visited := visited + {url};
      // The one request of this iteration: `VisitPage` fetched `url`, and it becomes a key just below.
      fetched := fetched + [url];
      depthOf := depthOf[url := depth];
      lo := depth;
      nodes := nodes[url := node];
      queue := queue + Enqueued(links, depth + 1);
      keys := keys + [url];
    }

    CrawlDone(web, baseUrl, maxDepth, visited, keys, nodes, depthOf, lo);
    CrawlDistances(web, baseUrl, maxDepth, visited, keys, nodes, depthOf, lo);
    tree, dist := SiteTree(keys, nodes), depthOf;
  }

  /**
   * The `try` block for one URL: fetch the page, keep its same-origin links,
   * and store their distinct values; on an exception store its text and
   * enqueue nothing.
   */
  method VisitPage(web: Web, baseUrl: Url, url: Url) returns (node: Node, links: seq<Url>)
    ensures node == NodeOf(web, baseUrl, url) && links == PageLinks(web, baseUrl, url)
    ensures node.Children? ==> NoDup(node.links) && forall c :: c in node.links <==> c in links
    ensures node.Error? <==> web.fetch(url).Err?
    ensures node.Error? ==> node.reason == web.fetch(url).error && links == []
  {
    match web.fetch(url) {
      case Ok(hrefs) =>
        links := SameOriginLinks(web, baseUrl, hrefs);
        node := Children(Distinct(links));
      case Err(e) =>
        node := Error(e);
        links := [];
    }
  }

  /**
   * The loop invariant of the crawl. `depthOf` records the depth at which each
   * URL was visited and `lo` the depth of the last visit; neither is program state.
   */
  ghost predicate CrawlInv(web: Web, base: Url, maxDepth: int, queue: seq<(Url, nat)>, visited: set<Url>,
                           keys: seq<Url>, nodes: map<Url, Node>, depthOf: map<Url, nat>, lo: nat)
  {
    && visited == nodes.Keys == depthOf.Keys
    && Indexed(keys, visited)
    && Stored(web, base, nodes)
    && Depths(depthOf, maxDepth, lo)
    && visited <= ReachWithin(web, base, maxDepth)
    && InReach(web, base, queue)
    && Sorted(queue) && Band(queue, lo)
    && Closed(web, base, maxDepth, depthOf, queue)
    && (keys == [] ==> queue == [(base, 0)] || (queue == [] && maxDepth < 0))
    && (keys != [] ==> keys[0] == base && base in depthOf && depthOf[base] == 0)
    && (keys != [] ==> QueueFromTree(nodes, queue))
    && KeysFromTree(keys, nodes)
  }

  /** Before the first iteration only the seed waits, at depth 0, and nothing is visited. */
  lemma CrawlStart(web: Web, base: Url, maxDepth: int)
    ensures CrawlInv(web, base, maxDepth, [(base, 0)], {}, [], map[], map[], 0)
  {
  }

  /** Skipping a head that is too deep or already visited keeps the invariant. */
  lemma DiscardStep(web: Web, base: Url, maxDepth: int, queue: seq<(Url, nat)>, visited: set<Url>,
                    keys: seq<Url>, nodes: map<Url, Node>, depthOf: map<Url, nat>, lo: nat)
    requires CrawlInv(web, base, maxDepth, queue, visited, keys, nodes, depthOf, lo)
    requires queue != [] && (queue[0].1 > maxDepth || queue[0].0 in visited)
    ensures CrawlInv(web, base, maxDepth, queue[1..], visited, keys, nodes, depthOf, lo)
  {
    DiscardKeepsFrontier(web, base, maxDepth, depthOf, queue, lo);
    if keys != [] {
      forall i | 0 <= i < |queue[1..]| ensures Listed(nodes, queue[1..][i].0) {
        assert queue[1..][i] == queue[i + 1];
      }
    }
  }

  /**
   * Visiting the head `(url, d)`: storing its node, recording it as visited
   * and appending its links at depth `d + 1` keeps the invariant, and leaves
   * fewer URLs of the crawl's universe unvisited.
   */
  lemma VisitStep(web: Web, base: Url, maxDepth: int, queue: seq<(Url, nat)>, visited: set<Url>,
                  keys: seq<Url>, nodes: map<Url, Node>, depthOf: map<Url, nat>, lo: nat,
                  url: Url, d: nat, node: Node, links: seq<Url>)
    requires CrawlInv(web, base, maxDepth, queue, visited, keys, nodes, depthOf, lo)
    requires queue != [] && queue[0] == (url, d) && d <= maxDepth && url !in visited
    requires node == NodeOf(web, base, url) && links == PageLinks(web, base, url)
    ensures CrawlInv(web, base, maxDepth, queue[1..] + Enqueued(links, d + 1), visited + {url},
                     keys + [url], nodes[url := node], depthOf[url := d], d)
    ensures |ReachWithin(web, base, maxDepth) - (visited + {url})| < |ReachWithin(web, base, maxDepth) - visited|
  {
    ReachMonotone(web, base, d, maxDepth);
    VisitShrinks(ReachWithin(web, base, maxDepth), visited, url);
    NodeOfSpec(web, base, url);
    VisitKeepsDomains(visited, nodes, depthOf, url, node, d);
    VisitKeepsIndex(keys, visited, url);
    VisitKeepsStored(web, base, nodes, url);
    VisitKeepsDepths(depthOf, maxDepth, lo, url, d);
    VisitKeepsOrder(queue, lo, d, links);
    VisitKeepsReach(web, base, queue, url, d, links);
    VisitKeepsClosed(web, base, maxDepth, depthOf, queue, url, d, links);
    VisitKeepsQueueProvenance(nodes, keys != [], queue, url, d, node, links);
    VisitKeepsKeysProvenance(keys, nodes, queue, url, node);
  }

  /**
   * With the frontier empty, the invariant gives the crawl's results: every
   * URL within `maxDepth` links of the seed was visited, the seed first.
   */
  lemma CrawlDone(web: Web, base: Url, maxDepth: int, visited: set<Url>,
                  keys: seq<Url>, nodes: map<Url, Node>, depthOf: map<Url, nat>, lo: nat)
    requires CrawlInv(web, base, maxDepth, [], visited, keys, nodes, depthOf, lo)
    ensures WellFormed(SiteTree(keys, nodes))
    ensures forall u :: u in nodes ==> nodes[u] == NodeOf(web, base, u)
    ensures forall u :: u in nodes <==> u in ReachWithin(web, base, maxDepth)
    ensures maxDepth >= 0 ==> keys != [] && keys[0] == base
    ensures maxDepth < 0 ==> keys == []
    ensures maxDepth == 0 ==> keys == [base]
    ensures forall i :: 0 < i < |keys| ==> exists j :: 0 <= j < i && ChildOf(nodes[keys[j]], keys[i])
  {
    forall i | 0 < i < |keys| ensures exists j :: 0 <= j < i && ChildOf(nodes[keys[j]], keys[i]) {
      assert ListedBefore(keys, nodes, i);
    }
    if maxDepth >= 0 {
      CrawlComplete(web, base, maxDepth, depthOf);
    }
    if maxDepth == 0 {
      assert ReachWithin(web, base, 0) == {base};
      OnlySeed(keys, base);
    }
  }

  /** A duplicate-free list that starts with `base` and holds nothing else is `[base]`. */
  lemma OnlySeed(keys: seq<Url>, base: Url)
    requires NoDup(keys) && keys != [] && keys[0] == base
    requires forall u :: u in keys ==> u == base
    ensures keys == [base]
  {
    assert keys[|keys| - 1] in keys;
  }

  /** Dropping the frontier's head keeps its order, its reachability and the closure of the visited pages. */
  lemma DiscardKeepsFrontier(web: Web, base: Url, maxDepth: int, depthOf: map<Url, nat>, queue: seq<(Url, nat)>, lo: nat)
    requires queue != [] && (queue[0].1 > maxDepth || queue[0].0 in depthOf)
    requires Sorted(queue) && Band(queue, lo)
    requires Depths(depthOf, maxDepth, lo)
    requires InReach(web, base, queue)
    requires Closed(web, base, maxDepth, depthOf, queue)
    ensures Sorted(queue[1..]) && Band(queue[1..], lo)
    ensures InReach(web, base, queue[1..])
    ensures Closed(web, base, maxDepth, depthOf, queue[1..])
  {
    assert forall e :: e in queue ==> e == queue[0] || e in queue[1..];
  }

  /** Appending entries one level below the head keeps the frontier ordered, in a band starting at the head's depth. */
  lemma VisitKeepsOrder(before: seq<(Url, nat)>, lo: nat, d: nat, links: seq<Url>)
    requires before != [] && before[0].1 == d && Sorted(before) && Band(before, lo)
    ensures Sorted(before[1..] + Enqueued(links, d + 1))
    ensures Band(before[1..] + Enqueued(links, d + 1), d)
  {
  }

  /** The links of a page reached within `d` hops are reached within `d + 1`. */
  lemma VisitKeepsReach(web: Web, base: Url, before: seq<(Url, nat)>, url: Url, d: nat, links: seq<Url>)
    requires before != [] && before[0] == (url, d) && InReach(web, base, before)
    requires links == PageLinks(web, base, url)
    ensures InReach(web, base, before[1..] + Enqueued(links, d + 1))
  {
    var added := Enqueued(links, d + 1);
    forall i | 0 <= i < |added| ensures added[i].0 in Reach(web, base, added[i].1) {
      ReachStep(web, base, d, url, added[i].0);
    }
  }

  /**
   * Visiting the head `(url, d)` and appending its links at depth `d + 1`
   * keeps the visited pages closed.
   */
  lemma VisitKeepsClosed(web: Web, base: Url, maxDepth: int, depthOf: map<Url, nat>, before: seq<(Url, nat)>,
                         url: Url, d: nat, links: seq<Url>)
    requires before != [] && before[0] == (url, d) && url !in depthOf
    requires links == PageLinks(web, base, url)
    requires Closed(web, base, maxDepth, depthOf, before)
    ensures Closed(web, base, maxDepth, depthOf[url := d], before[1..] + Enqueued(links, d + 1))
  {
    var next := before[1..] + Enqueued(links, d + 1);
    var nd := depthOf[url := d];
    forall u | Visited(nd, u) && nd[u] < maxDepth ensures Covered(nd, next, PageLinks(web, base, u), nd[u] + 1) {
      var ls := PageLinks(web, base, u);
      if u == url {
        forall i | 0 <= i < |ls| ensures (ls[i], d + 1) in next {
          assert next[|before| - 1 + i] == (ls[i], d + 1);
        }
      } else {
        assert Visited(depthOf, u);
        forall i | 0 <= i < |ls|
          ensures (ls[i] in nd && nd[ls[i]] <= nd[u] + 1) || (ls[i], nd[u] + 1) in next
        {
          var e := (ls[i], depthOf[u] + 1);
          if !(ls[i] in depthOf && depthOf[ls[i]] <= depthOf[u] + 1) {
            var k :| 0 <= k < |before| && before[k] == e;
            if k > 0 {
              assert next[k - 1] == e;
            }
          }
        }
      }
    }
  }

  /**
   * The keys come in breadth-first order: `dist` gives each key's distance
   * from the seed, and the distances never decrease along the keys.
   */
  ghost predicate BreadthFirst(web: Web, base: Url, keys: seq<Url>, dist: map<Url, nat>) {
    && (forall u :: u in dist ==> Distance(web, base, u, dist[u]))
    && (forall i, j :: 0 <= i < j < |keys| ==> keys[i] in dist && keys[j] in dist && dist[keys[i]] <= dist[keys[j]])
  }

  /** Each visited URL is reachable within the depth at which it was visited. */
  ghost predicate VisitedReach(web: Web, base: Url, depthOf: map<Url, nat>) {
    forall u {:trigger ReachedAt(web, base, depthOf, u)} :: ReachedAt(web, base, depthOf, u)
  }

  /**
   * `u`, if visited, is reachable within its depth. `VisitedReach` quantifies
   * over this term alone, so that the crawl's other facts do not set off
   * instances of it.
   */
  ghost predicate ReachedAt(web: Web, base: Url, depthOf: map<Url, nat>, u: Url) {
    u in depthOf ==> u in Reach(web, base, depthOf[u])
  }

  /** The keys were visited at nondecreasing depths. */
  ghost predicate KeyOrder(keys: seq<Url>, depthOf: map<Url, nat>) {
    forall i, j {:trigger DepthOrder(keys, depthOf, i, j)} :: DepthOrder(keys, depthOf, i, j)
  }

  /** The key at `i`, if before the key at `j`, was visited no deeper; `KeyOrder` quantifies over this term alone. */
  ghost predicate DepthOrder(keys: seq<Url>, depthOf: map<Url, nat>, i: int, j: int) {
    0 <= i < j < |keys| ==> keys[i] in depthOf && keys[j] in depthOf && depthOf[keys[i]] <= depthOf[keys[j]]
  }

  /**
   * Visiting the head `(url, d)` records a depth within which `url` is
   * reachable, and one no smaller than any earlier visit's, since the
   * frontier's depths are at least the last visit's.
   */
  lemma VisitKeepsDistances(web: Web, base: Url, maxDepth: int, before: seq<(Url, nat)>, visited: set<Url>,
                            keys: seq<Url>, depthOf: map<Url, nat>, lo: nat, url: Url, d: nat)
    requires before != [] && before[0] == (url, d) && url !in visited
    requires InReach(web, base, before) && Band(before, lo)
    requires Depths(depthOf, maxDepth, lo) && Indexed(keys, visited) && visited == depthOf.Keys
    requires VisitedReach(web, base, depthOf) && KeyOrder(keys, depthOf)
    ensures VisitedReach(web, base, depthOf[url := d]) && KeyOrder(keys + [url], depthOf[url := d])
  {
    var keys', nd := keys + [url], depthOf[url := d];
    forall u ensures ReachedAt(web, base, nd, u) {
      assert ReachedAt(web, base, depthOf, u);
    }
    forall i, j ensures DepthOrder(keys', nd, i, j) {
      if 0 <= i < j < |keys'| {
        assert keys'[i] == keys[i] && keys[i] in keys && keys[i] != url;
        if j < |keys| {
          assert keys'[j] == keys[j] && keys[j] in keys && keys[j] != url;
          assert DepthOrder(keys, depthOf, i, j);
        }
      }
    }
  }

  /**
   * Once the frontier is empty, each URL was visited at its distance from
   * the seed: a URL reachable in fewer links would have been visited at that
   * smaller depth.
   */
  lemma CrawlDistances(web: Web, base: Url, maxDepth: int, visited: set<Url>,
                       keys: seq<Url>, nodes: map<Url, Node>, depthOf: map<Url, nat>, lo: nat)
    requires CrawlInv(web, base, maxDepth, [], visited, keys, nodes, depthOf, lo)
    requires VisitedReach(web, base, depthOf) && KeyOrder(keys, depthOf)
    ensures depthOf.Keys == nodes.Keys && BreadthFirst(web, base, keys, depthOf)
  {
    forall i, j | 0 <= i < j < |keys| ensures keys[i] in depthOf && keys[j] in depthOf && depthOf[keys[i]] <= depthOf[keys[j]] {
      assert DepthOrder(keys, depthOf, i, j);
    }
    forall u | u in depthOf ensures Distance(web, base, u, depthOf[u]) {
      assert u in keys && ReachedAt(web, base, depthOf, u);
      forall m | 0 <= m <= depthOf[u] && u in Reach(web, base, m) ensures depthOf[u] <= m {
        VisitedWithin(web, base, maxDepth, depthOf, m, u);
      }
    }
  }

  /** Each key is listed once, and the listed keys are the visited URLs. */
  ghost predicate Indexed(keys: seq<Url>, visited: set<Url>) {
    NoDup(keys) && forall u :: u in keys <==> u in visited
  }

  /** Every stored value is the one the crawl computes for its URL. */
  ghost predicate Stored(web: Web, base: Url, nodes: map<Url, Node>) {
    forall u :: u in nodes ==> nodes[u] == NodeOf(web, base, u)
  }

  /** Every visit happened within the bound and no deeper than the frontier's band. */
  ghost predicate Depths(depthOf: map<Url, nat>, maxDepth: int, lo: nat) {
    forall u :: u in depthOf ==> depthOf[u] <= maxDepth && depthOf[u] <= lo
  }

  /** Every frontier URL is a listed child of some stored page. */
  ghost predicate QueueFromTree(nodes: map<Url, Node>, queue: seq<(Url, nat)>) {
    forall i :: 0 <= i < |queue| ==> Listed(nodes, queue[i].0)
  }

  /** Some stored page lists `c` as a child. */
  ghost predicate Listed(nodes: map<Url, Node>, c: Url) {
    exists p :: p in nodes && ChildOf(nodes[p], c)
  }

  /** Every key after the first is a listed child of an earlier key. */
  ghost predicate KeysFromTree(keys: seq<Url>, nodes: map<Url, Node>) {
    forall i :: 0 < i < |keys| ==> ListedBefore(keys, nodes, i)
  }

  /** A key before position `i` lists the key at `i` as a child. */
  ghost predicate ListedBefore(keys: seq<Url>, nodes: map<Url, Node>, i: int)
    requires 0 <= i < |keys|
  {
    exists j :: 0 <= j < i && keys[j] in nodes && ChildOf(nodes[keys[j]], keys[i])
  }

  /** Visiting a new URL leaves fewer URLs of the crawl's universe to visit. */
  lemma VisitShrinks(universe: set<Url>, visited: set<Url>, url: Url)
    requires url in universe && url !in visited
    ensures |universe - (visited + {url})| < |universe - visited|
  {
    assert universe - (visited + {url}) + {url} == universe - visited;
  }

  lemma VisitKeepsDomains(visited: set<Url>, nodes: map<Url, Node>, depthOf: map<Url, nat>, url: Url, node: Node, d: nat)
    requires visited == nodes.Keys == depthOf.Keys
    ensures visited + {url} == nodes[url := node].Keys == depthOf[url := d].Keys
  {
  }

  lemma VisitKeepsIndex(keys: seq<Url>, visited: set<Url>, url: Url)
    requires Indexed(keys, visited) && url !in visited
    ensures Indexed(keys + [url], visited + {url})
  {
    assert forall u :: u in keys + [url] <==> u in keys || u == url;
  }

  lemma VisitKeepsStored(web: Web, base: Url, nodes: map<Url, Node>, url: Url)
    requires Stored(web, base, nodes)
    ensures Stored(web, base, nodes[url := NodeOf(web, base, url)])
  {
  }

  lemma VisitKeepsDepths(depthOf: map<Url, nat>, maxDepth: int, lo: nat, url: Url, d: nat)
    requires Depths(depthOf, maxDepth, lo) && lo <= d <= maxDepth
    ensures Depths(depthOf[url := d], maxDepth, d)
  {
  }

  /** The visited page's links become its children, and earlier frontier entries keep their parents. */
  lemma VisitKeepsQueueProvenance(nodes: map<Url, Node>, seeded: bool, before: seq<(Url, nat)>, url: Url, d: nat,
                                  node: Node, links: seq<Url>)
    requires before != [] && before[0] == (url, d) && url !in nodes
    requires seeded ==> QueueFromTree(nodes, before)
    requires !seeded ==> |before| == 1
    requires node.Children? ==> forall c :: c in links ==> c in node.links
    requires links != [] ==> node.Children?
    ensures QueueFromTree(nodes[url := node], before[1..] + Enqueued(links, d + 1))
  {
    var nodes' := nodes[url := node];
    var queue := before[1..] + Enqueued(links, d + 1);
    forall i | 0 <= i < |queue| ensures Listed(nodes', queue[i].0) {
      if i < |before| - 1 {
        assert queue[i] == before[i + 1];
        var p :| p in nodes && ChildOf(nodes[p], before[i + 1].0);
        assert p in nodes' && ChildOf(nodes'[p], queue[i].0);
      } else {
        assert queue[i].0 == links[i - (|before| - 1)];
        assert url in nodes' && ChildOf(nodes'[url], queue[i].0);
      }
    }
  }

  /** The visited URL becomes a key after a key that lists it. */
  lemma VisitKeepsKeysProvenance(keys: seq<Url>, nodes: map<Url, Node>, before: seq<(Url, nat)>, url: Url, node: Node)
    requires before != [] && before[0].0 == url && url !in nodes
    requires forall u :: u in nodes <==> u in keys
    requires keys != [] ==> QueueFromTree(nodes, before)
    requires KeysFromTree(keys, nodes)
    ensures KeysFromTree(keys + [url], nodes[url := node])
  {
    var keys', nodes' := keys + [url], nodes[url := node];
    forall i | 0 < i < |keys'| ensures ListedBefore(keys', nodes', i) {
      if i < |keys| {
        assert ListedBefore(keys, nodes, i);
        var j :| 0 <= j < i && keys[j] in nodes && ChildOf(nodes[keys[j]], keys[i]);
        assert keys'[j] == keys[j] && keys'[i] == keys[i] && nodes'[keys[j]] == nodes[keys[j]];
        assert 0 <= j < i && keys'[j] in nodes' && ChildOf(nodes'[keys'[j]], keys'[i]);
      } else {
        assert Listed(nodes, before[0].0);
        var p :| p in nodes && ChildOf(nodes[p], before[0].0);
        var j :| 0 <= j < |keys| && keys[j] == p;
        assert keys'[j] == p && keys'[i] == url && nodes'[p] == nodes[p];
        assert 0 <= j < i && keys'[j] in nodes' && ChildOf(nodes'[keys'[j]], keys'[i]);
      }
    }
  }

  /**
   * Once the frontier is empty, every URL within `maxDepth` links of the seed
   * has been visited, at a depth no greater than its distance.
   */
  lemma CrawlComplete(web: Web, base: Url, maxDepth: nat, depthOf: map<Url, nat>)
    requires base in depthOf && depthOf[base] == 0
    requires Closed(web, base, maxDepth, depthOf, [])
    ensures forall u :: u in Reach(web, base, maxDepth) ==> u in depthOf
  {
    forall u | u in Reach(web, base, maxDepth) ensures u in depthOf {
      VisitedWithin(web, base, maxDepth, depthOf, maxDepth, u);
    }
  }

  lemma {:induction false} VisitedWithin(web: Web, base: Url, maxDepth: nat, depthOf: map<Url, nat>, k: nat, u: Url)
    requires base in depthOf && depthOf[base] == 0
    requires Closed(web, base, maxDepth, depthOf, [])
    requires k <= maxDepth && u in Reach(web, base, k)
    ensures u in depthOf && depthOf[u] <= k
  {
    if k > 0 {
      var p := ReachParent(web, base, k, u);
      VisitedWithin(web, base, maxDepth, depthOf, k - 1, p);
      ClosedStep(web, base, maxDepth, depthOf, k, p, u);
    }
  }

  lemma ClosedStep(web: Web, base: Url, maxDepth: nat, depthOf: map<Url, nat>, k: nat, p: Url, u: Url)
    requires Closed(web, base, maxDepth, depthOf, [])
    requires 0 < k <= maxDepth
    requires p in depthOf && depthOf[p] <= k - 1
    requires p == u || u in PageLinks(web, base, p)
    ensures u in depthOf && depthOf[u] <= k
  {
    if p != u {
      assert Visited(depthOf, p);
      var links := PageLinks(web, base, p);
      var i :| 0 <= i < |links| && links[i] == u;
    }
  }
}
