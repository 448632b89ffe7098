/**
 * `export_site_tree_as_json`: the site tree as nested JSON objects. Every URL
 * becomes `{"children": {child: ..., ...}}` the first time the depth-first
 * walk meets it and `{}` every later time; a single `visited` set is shared by
 * the whole walk, so it is threaded through the functions here and returned
 * next to the document built.
 */
module Export {
  import opened Collections
  import opened Site

  /**
   * A JSON value of the export: `{}` (`Empty`), or `{"children": {...}}`
   * (`Branch`), whose object is an insertion-ordered dict from child URL to
   * child value.
   */
  datatype Doc = Empty | Branch(children: seq<(Url, Doc)>)

  /**
   * `build_tree(url)` with `visited` on entry: the value for `u`, and the
   * visited set afterwards.
   *  - a URL seen before is `{}`;
   *  - a URL that is not a key of the tree is `{"children": {}}` (its
   *    `get` default, `[]`, is a list);
   *  - an error marker is a dict, not a list, so it is `{}`;
   *  - a child list becomes a dict with one entry per distinct child.
   */
  function Build(t: map<Url, Node>, u: Url, visited: set<Url>): (r: (Doc, set<Url>))
    ensures visited + {u} <= r.1
    ensures u in visited ==> r == (Empty, visited)
    ensures u !in visited && u !in t ==> r == (Branch([]), visited + {u})
    ensures u !in visited && u in t && t[u].Error? ==> r == (Empty, visited + {u})
    ensures u !in visited && u in t && t[u].Children? ==>
      r.0.Branch? && Keys(r.0.children) == Distinct(t[u].links)
    decreases t.Keys - visited, 0, 0
  {
    if u in visited then (Empty, visited)
    else
      var v := visited + {u};
      if u !in t then (Branch([]), v)
      else match t[u]
        case Error(_) => (Empty, v)
        case Children(cs) =>
          var (ch, v') := BuildChildren(t, cs, v, []);
          (Branch(ch), v')
  }

  /**
   * The dict comprehension `{child: build_tree(child) for child in cs}`,
   * appended to the entries `acc` already built: each child's value is built
   * in list order, and a child listed twice keeps its first position and
   * takes its last value.
   */
  function BuildChildren(t: map<Url, Node>, cs: seq<Url>, visited: set<Url>, acc: seq<(Url, Doc)>)
    : (r: (seq<(Url, Doc)>, set<Url>))
    ensures visited <= r.1
    ensures Keys(r.0) == DistinctInto(Keys(acc), cs)
    decreases t.Keys - visited, 1, |cs|
  {
    if cs == [] then (acc, visited)
    else
      var (d, v) := Build(t, cs[0], visited);
      BuildChildren(t, cs[1..], v, Store(acc, cs[0], d))
  }

  /** `export_site_tree_as_json(t, root)`: a one-entry dict from the root to its value. */
  function ExportTree(t: map<Url, Node>, root: Url): (r: seq<(Url, Doc)>)
    ensures Keys(r) == [root]
    ensures |r| == 1 && r[0].0 == root
  {
    [(root, Build(t, root, {}).0)]
  }

  /**
   * The URLs expanded into `{"children": ...}` inside `d`, in document
   * order. It recurses through `Concat` over one sequence per entry only so
   * that termination follows from `d`; `Flat` is the same list written as a
   * plain recursion on the entries, and `ConcatIsFlat` joins the two.
   */
  function Expanded(d: Doc): seq<Url>
    decreases d
  {
    match d
    case Empty => []
    case Branch(ch) => Concat(seq(|ch|, i requires 0 <= i < |ch| => EntryExpanded(ch[i])))
  }

  /** The URLs expanded by one dict entry: its key when its value is a `Branch`, then those inside. */
  function EntryExpanded(e: (Url, Doc)): seq<Url>
    decreases e
  {
    (if e.1.Branch? then [e.0] else []) + Expanded(e.1)
  }

  /** The URLs expanded by the entries of a dict, in order. */
  function Flat(es: seq<(Url, Doc)>): seq<Url> {
    if es == [] then [] else EntryExpanded(es[0]) + Flat(es[1..])
  }

  function Concat<T>(ss: seq<seq<T>>): seq<T> {
    if ss == [] then [] else ss[0] + Concat(ss[1..])
  }

  lemma {:induction false} ConcatIsFlat(es: seq<(Url, Doc)>)
    ensures Concat(seq(|es|, i requires 0 <= i < |es| => EntryExpanded(es[i]))) == Flat(es)
    decreases |es|
  {
    if es != [] {
      var s := seq(|es|, i requires 0 <= i < |es| => EntryExpanded(es[i]));
      var rest := es[1..];
      assert s[1..] == seq(|rest|, i requires 0 <= i < |rest| => EntryExpanded(rest[i]));
      ConcatIsFlat(rest);
    }
  }

  /** The entries of `Store(acc, k, d)` are `(k, d)` and entries of `acc`. */
  lemma {:induction false} StoreEntries(acc: seq<(Url, Doc)>, k: Url, d: Doc)
    ensures (k, d) in Store(acc, k, d)
    ensures forall e :: e in Store(acc, k, d) ==> e == (k, d) || e in acc
  {
    if acc != [] && acc[0].0 != k {
      StoreEntries(acc[1..], k, d);
    }
  }

  /**
   * Storing an entry into a dict keeps the expanded URLs duplicate-free when
   * the new value expands none of the URLs already expanded; an overwritten
   * entry's expansions disappear.
   */
  lemma {:induction false} StoreFlat(acc: seq<(Url, Doc)>, k: Url, d: Doc)
    requires NoDup(Flat(acc)) && NoDup(EntryExpanded((k, d))) && Disjoint(Flat(acc), EntryExpanded((k, d)))
    ensures NoDup(Flat(Store(acc, k, d)))
    ensures forall x :: x in Flat(Store(acc, k, d)) ==> x in Flat(acc) || x in EntryExpanded((k, d))
  {
    var e := EntryExpanded((k, d));
    if acc == [] {
      assert Flat([(k, d)]) == e;
    } else {
      var head := EntryExpanded(acc[0]);
      var tail := Flat(acc[1..]);
      assert Flat(acc) == head + tail;
      NoDupParts(head, tail);
      if acc[0].0 == k {
        assert Flat(Store(acc, k, d)) == e + tail;
        NoDupAppend(e, tail);
      } else {
        StoreFlat(acc[1..], k, d);
        var rest := Flat(Store(acc[1..], k, d));
        assert Store(acc, k, d) == [acc[0]] + Store(acc[1..], k, d);
        assert Flat(Store(acc, k, d)) == head + rest;
        NoDupAppend(head, rest);
      }
    }
  }

  /**
   * Each URL is expanded at most once by the value `build_tree(u)` returns,
   * and only URLs the call added to `visited` are expanded.
   */
  lemma {:induction false} BuildExpandsOnce(t: map<Url, Node>, u: Url, visited: set<Url>)
    ensures NoDup(EntryExpanded((u, Build(t, u, visited).0)))
    ensures forall x :: x in EntryExpanded((u, Build(t, u, visited).0)) ==> x in Build(t, u, visited).1 - visited
    decreases t.Keys - visited, 0, 0
  {
    var r := Build(t, u, visited);
    if u !in visited && u in t && t[u].Children? {
      var v := visited + {u};
      var c := BuildChildren(t, t[u].links, v, []);
      assert Flat([]) == [];
      BuildChildrenExpandsOnce(t, t[u].links, v, [], v);
      ConcatIsFlat(c.0);
      assert EntryExpanded((u, r.0)) == [u] + Flat(c.0);
      NoDupAppend([u], Flat(c.0));
    } else if u !in visited && u !in t {
      assert Expanded(Branch([])) == [];
    }
  }

  /**
   * Building a list of children: if the entries built so far expand distinct
   * URLs visited since `lo`, so do the entries afterwards.
   */
  lemma {:induction false} BuildChildrenExpandsOnce(t: map<Url, Node>, cs: seq<Url>, visited: set<Url>,
                                                     acc: seq<(Url, Doc)>, lo: set<Url>)
    requires lo <= visited
    requires NoDup(Flat(acc)) && forall x :: x in Flat(acc) ==> x in visited - lo
    ensures NoDup(Flat(BuildChildren(t, cs, visited, acc).0))
    ensures forall x :: x in Flat(BuildChildren(t, cs, visited, acc).0) ==> x in BuildChildren(t, cs, visited, acc).1 - lo
    decreases t.Keys - visited, 1, |cs|
  {
    if cs != [] {
      var (d, v) := Build(t, cs[0], visited);
      BuildExpandsOnce(t, cs[0], visited);
      var acc' := Store(acc, cs[0], d);
      StoreFlat(acc, cs[0], d);
      BuildChildrenExpandsOnce(t, cs[1..], v, acc', lo);
    }
  }

  /**
   * The export expands each URL into `{"children": ...}` at most once in the
   * whole document; every other occurrence of the URL is `{}`.
   */
  lemma ExportExpandsOnce(t: map<Url, Node>, root: Url)
    ensures NoDup(Flat(ExportTree(t, root)))
  {
    BuildExpandsOnce(t, root, {});
    assert Flat(ExportTree(t, root)) == EntryExpanded(ExportTree(t, root)[0]);
  }

  /** Every child list of the tree is duplicate-free, as the crawl stores them (`Site.NodeOfSpec`). */
  predicate DistinctChildren(t: map<Url, Node>) {
    forall u :: u in t && t[u].Children? ==> NoDup(t[u].links)
  }

  /** A tree built by the crawl, whose every value is the one its fetch gives, has duplicate-free child lists. */
  lemma CrawledTreeDistinct(web: Web, base: Url, t: map<Url, Node>)
    requires forall u :: u in t ==> t[u] == NodeOf(web, base, u)
    ensures DistinctChildren(t)
  {
    forall u | u in t && t[u].Children? ensures NoDup(t[u].links) {
      NodeOfSpec(web, base, u);
    }
  }

  /** `build_tree` expands `u` when it first meets it, unless the tree holds an error marker for it. */
  predicate Expandable(t: map<Url, Node>, u: Url) {
    u !in t || t[u].Children?
  }

  /** Storing a key the dict does not hold appends the entry. */
  lemma {:induction false} StoreNew(acc: seq<(Url, Doc)>, k: Url, d: Doc)
    requires k !in Keys(acc)
    ensures Store(acc, k, d) == acc + [(k, d)]
  {
    if acc != [] {
      assert Keys(acc) == [acc[0].0] + Keys(acc[1..]);
      StoreNew(acc[1..], k, d);
      assert [acc[0]] + (acc[1..] + [(k, d)]) == acc + [(k, d)];
    }
  }

  lemma {:induction false} FlatSnoc(es: seq<(Url, Doc)>, e: (Url, Doc))
    ensures Flat(es + [e]) == Flat(es) + EntryExpanded(e)
    decreases |es|
  {
    if es == [] {
      assert [] + [e] == [e];
      assert [e][1..] == [];
    } else {
      assert (es + [e])[0] == es[0] && (es + [e])[1..] == es[1..] + [e];
      FlatSnoc(es[1..], e);
    }
  }

  /**
   * When child lists are duplicate-free, the value of `build_tree(u)`
   * expands every URL the call adds to `visited`, except those with an
   * error marker.
   */
  lemma {:induction false} BuildExpandsAll(t: map<Url, Node>, u: Url, visited: set<Url>)
    requires DistinctChildren(t)
    ensures forall x :: x in Build(t, u, visited).1 - visited && Expandable(t, x) ==>
      x in EntryExpanded((u, Build(t, u, visited).0))
    decreases t.Keys - visited, 0, 0
  {
    if u !in visited {
      var r := Build(t, u, visited);
      if u !in t {
        assert EntryExpanded((u, r.0)) == [u] + Expanded(Branch([]));
      } else if t[u].Children? {
        var c := BuildChildren(t, t[u].links, visited + {u}, []);
        BuildChildrenExpandsAll(t, t[u].links, visited + {u}, []);
        ConcatIsFlat(c.0);
        assert EntryExpanded((u, r.0)) == [u] + Flat(c.0);
      }
    }
  }

  /**
   * Building a duplicate-free list of children none of which is a key yet:
   * the expansions already built stay, and every URL visited meanwhile
   * without an error marker is expanded.
   */
  lemma {:induction false} BuildChildrenExpandsAll(t: map<Url, Node>, cs: seq<Url>, visited: set<Url>,
                                                    acc: seq<(Url, Doc)>)
    requires DistinctChildren(t) && NoDup(cs) && Disjoint(Keys(acc), cs)
    ensures forall x :: x in Flat(acc) ==> x in Flat(BuildChildren(t, cs, visited, acc).0)
    ensures forall x :: x in BuildChildren(t, cs, visited, acc).1 - visited && Expandable(t, x) ==>
      x in Flat(BuildChildren(t, cs, visited, acc).0)
    decreases t.Keys - visited, 1, |cs|
  {
    if cs != [] {
      var (d, v) := Build(t, cs[0], visited);
      BuildExpandsAll(t, cs[0], visited);
      assert cs[0] in cs;
      StoreNew(acc, cs[0], d);
      var acc' := acc + [(cs[0], d)];
      FlatSnoc(acc, (cs[0], d));
      assert Keys(acc') == Keys(acc) + [cs[0]];
      var rest := cs[1..];
      assert NoDup(rest) by {
        forall i, j | 0 <= i < j < |rest| ensures rest[i] != rest[j] {
          assert rest[i] == cs[i + 1] && rest[j] == cs[j + 1];
        }
      }
      assert Disjoint(Keys(acc'), rest) by {
        forall j | 0 <= j < |rest| ensures rest[j] !in Keys(acc') {
          assert rest[j] == cs[j + 1] && cs[j + 1] in cs && cs[j + 1] != cs[0];
        }
      }
      BuildChildrenExpandsAll(t, rest, v, acc');
    }
  }

  lemma {:induction false} ConcatMember<T>(ss: seq<seq<T>>, x: T)
    requires x in Concat(ss)
    ensures exists i :: 0 <= i < |ss| && x in ss[i]
    decreases |ss|
  {
    if x !in ss[0] {
      ConcatMember(ss[1..], x);
      var i :| 0 <= i < |ss[1..]| && x in ss[1..][i];
      assert ss[i + 1] == ss[1..][i];
    }
  }

  /** A URL expanded inside a mirroring entry has no error marker in the tree. */
  lemma {:induction false} MirrorsExpandable(t: map<Url, Node>, e: (Url, Doc))
    requires Mirrors(t, e)
    ensures forall x :: x in EntryExpanded(e) ==> Expandable(t, x)
    decreases e
  {
    if e.1.Branch? {
      var ch := e.1.children;
      var ss := seq(|ch|, i requires 0 <= i < |ch| => EntryExpanded(ch[i]));
      forall x | x in Expanded(e.1) ensures Expandable(t, x) {
        ConcatMember(ss, x);
        var i :| 0 <= i < |ss| && x in ss[i];
        MirrorsExpandable(t, ch[i]);
      }
    }
  }

  /**
   * Every URL a call of `build_tree` adds to `visited` has each of its
   * listed children visited by the time the call returns.
   */
  lemma {:induction false} BuildClosed(t: map<Url, Node>, u: Url, visited: set<Url>)
    ensures forall x, c :: x in Build(t, u, visited).1 - visited && ListedChild(t, x, c) ==> c in Build(t, u, visited).1
    decreases t.Keys - visited, 0, 0
  {
    if u !in visited && u in t && t[u].Children? {
      BuildChildrenClosed(t, t[u].links, visited + {u}, []);
    }
  }

  lemma {:induction false} BuildChildrenClosed(t: map<Url, Node>, cs: seq<Url>, visited: set<Url>, acc: seq<(Url, Doc)>)
    ensures forall c :: c in cs ==> c in BuildChildren(t, cs, visited, acc).1
    ensures forall x, c :: x in BuildChildren(t, cs, visited, acc).1 - visited && ListedChild(t, x, c) ==>
      c in BuildChildren(t, cs, visited, acc).1
    decreases t.Keys - visited, 1, |cs|
  {
    if cs != [] {
      var (d, v) := Build(t, cs[0], visited);
      BuildClosed(t, cs[0], visited);
      BuildChildrenClosed(t, cs[1..], v, Store(acc, cs[0], d));
      assert forall c :: c in cs ==> c == cs[0] || c in cs[1..];
    }
  }

  /** Started on a URL of a set closed under listed children, `build_tree` visits nothing outside it. */
  lemma {:induction false} BuildWithin(t: map<Url, Node>, u: Url, visited: set<Url>, w: set<Url>)
    requires u in w && ChildClosed(t, w)
    ensures Build(t, u, visited).1 <= visited + w
    decreases t.Keys - visited, 0, 0
  {
    if u !in visited && u in t && t[u].Children? {
      assert forall c :: c in t[u].links ==> ListedChild(t, u, c);
      BuildChildrenWithin(t, t[u].links, visited + {u}, [], w);
    }
  }

  lemma {:induction false} BuildChildrenWithin(t: map<Url, Node>, cs: seq<Url>, visited: set<Url>, acc: seq<(Url, Doc)>,
                                               w: set<Url>)
    requires ChildClosed(t, w) && forall c :: c in cs ==> c in w
    ensures BuildChildren(t, cs, visited, acc).1 <= visited + w
    decreases t.Keys - visited, 1, |cs|
  {
    if cs != [] {
      var (d, v) := Build(t, cs[0], visited);
      BuildWithin(t, cs[0], visited, w);
      BuildChildrenWithin(t, cs[1..], v, Store(acc, cs[0], d), w);
    }
  }

  /** The export's walk from `root` visits exactly the URLs reachable from `root` through child lists. */
  lemma BuildVisitsReachable(t: map<Url, Node>, root: Url)
    ensures forall x :: x in Build(t, root, {}).1 <==> ReachableFrom(t, root, x)
  {
    var v := Build(t, root, {}).1;
    BuildClosed(t, root, {});
    assert root in v && ChildClosed(t, v);
    forall w | root in w && ChildClosed(t, w) ensures v <= w {
      BuildWithin(t, root, {}, w);
    }
  }

  /**
   * When child lists are duplicate-free, as the crawl stores them, the
   * export expands into `{"children": ...}` exactly once each URL reachable
   * from the root through child lists that has no error marker, and nothing
   * else.
   */
  lemma ExportExpandsExactlyOnce(t: map<Url, Node>, root: Url)
    requires DistinctChildren(t)
    ensures NoDup(Flat(ExportTree(t, root)))
    ensures forall x :: x in Flat(ExportTree(t, root)) <==> ReachableFrom(t, root, x) && Expandable(t, x)
  {
    BuildVisitsReachable(t, root);
    ExportExpandsOnce(t, root);
    BuildExpandsOnce(t, root, {});
    BuildExpandsAll(t, root, {});
    BuildMirrors(t, root, {});
    MirrorsExpandable(t, (root, Build(t, root, {}).0));
    assert Flat(ExportTree(t, root)) == EntryExpanded(ExportTree(t, root)[0]);
  }

  /**
   * Every `{"children": ...}` in the export lists what the site tree holds
   * for its URL: the distinct children of a page, or nothing for a URL that
   * is not a key of the tree.
   */
  ghost predicate Mirrors(t: map<Url, Node>, e: (Url, Doc))
    decreases e
  {
    match e.1
    case Empty => true
    case Branch(ch) =>
      (if e.0 in t then t[e.0].Children? && Keys(ch) == Distinct(t[e.0].links) else ch == []) &&
      forall i :: 0 <= i < |ch| ==> Mirrors(t, ch[i])
  }

  lemma {:induction false} BuildMirrors(t: map<Url, Node>, u: Url, visited: set<Url>)
    ensures Mirrors(t, (u, Build(t, u, visited).0))
    decreases t.Keys - visited, 0, 0
  {
    if u !in visited && u in t && t[u].Children? {
      BuildChildrenMirrors(t, t[u].links, visited + {u}, []);
    }
  }

  lemma {:induction false} BuildChildrenMirrors(t: map<Url, Node>, cs: seq<Url>, visited: set<Url>, acc: seq<(Url, Doc)>)
    requires forall e :: e in acc ==> Mirrors(t, e)
    ensures forall e :: e in BuildChildren(t, cs, visited, acc).0 ==> Mirrors(t, e)
    decreases t.Keys - visited, 1, |cs|
  {
    if cs != [] {
      var (d, v) := Build(t, cs[0], visited);
      BuildMirrors(t, cs[0], visited);
      StoreEntries(acc, cs[0], d);
      BuildChildrenMirrors(t, cs[1..], v, Store(acc, cs[0], d));
    }
  }

  /** The export of a site tree mirrors it, entry by entry, at every level. */
  lemma ExportMirrors(t: map<Url, Node>, root: Url)
    ensures forall e :: e in ExportTree(t, root) ==> Mirrors(t, e)
  {
    BuildMirrors(t, root, {});
  }
}
