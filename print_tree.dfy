/**
 * `print_site_tree`: the site tree as indented console lines, one per URL met
 * for the first time by a depth-first walk from the root. The console is
 * left out; the walk yields the lines it would print, each a depth and a
 * URL, and `Render` gives the text of one line.
 */
module PrintTree {
  import opened Collections
  import opened Site
  import Export

  /** One printed line: `"  " * depth + "└── " + url`. */
  datatype Line = Line(depth: nat, url: Url)

  /** `"  " * n`. */
  function Indent(n: nat): (r: string)
    ensures |r| == 2 * n
    ensures forall i :: 0 <= i < |r| ==> r[i] == ' '
  {
    if n == 0 then "" else "  " + Indent(n - 1)
  }

  /** The text printed for a line: the URL after the indent and the branch mark. */
  function Render(l: Line): (r: string)
    ensures |r| == 2 * l.depth + 4 + |l.url|
    ensures forall i :: 0 <= i < 2 * l.depth ==> r[i] == ' '
    ensures r[2 * l.depth..2 * l.depth + 4] == "└── " && r[2 * l.depth + 4..] == l.url
  {
    Indent(l.depth) + "└── " + l.url
  }

  /** The URLs of the printed lines, in order. */
  function Urls(ls: seq<Line>): (r: seq<Url>)
    ensures |r| == |ls|
  {
    seq(|ls|, i requires 0 <= i < |ls| => ls[i].url)
  }

  /**
   * `print_site_tree(t, u, depth, visited)`: the lines printed, and the
   * visited set afterwards. A URL seen before prints nothing; otherwise its
   * own line comes first, then, when the tree holds a child list for it, the
   * lines of each child one level deeper. A URL that is not a key of the
   * tree, or whose value is an error marker, prints only its own line.
   */
  function Print(t: map<Url, Node>, u: Url, depth: nat, visited: set<Url>): (r: (seq<Line>, set<Url>))
    ensures visited + {u} <= r.1
    ensures u in visited <==> r.0 == []
    ensures u !in visited ==> r.0[0] == Line(depth, u)
    ensures forall i :: 0 <= i < |r.0| ==> r.0[i].depth >= depth
    decreases t.Keys - visited, 0, 0
  {
    if u in visited then ([], visited)
    else
      var v := visited + {u};
      if u in t && t[u].Children? then
        var (ls, v') := PrintChildren(t, t[u].links, depth + 1, v);
        ([Line(depth, u)] + ls, v')
      else
        ([Line(depth, u)], v)
  }

  /** The loop `for child in children: print_site_tree(t, child, depth, visited)`. */
  function PrintChildren(t: map<Url, Node>, cs: seq<Url>, depth: nat, visited: set<Url>): (r: (seq<Line>, set<Url>))
    ensures visited <= r.1
    ensures forall i :: 0 <= i < |r.0| ==> r.0[i].depth >= depth
    decreases t.Keys - visited, 1, |cs|
  {
    if cs == [] then ([], visited)
    else
      var (a, v) := Print(t, cs[0], depth, visited);
      var (b, v') := PrintChildren(t, cs[1..], depth, v);
      (a + b, v')
  }

  /** Every line strictly between `j` and `i` is at least `e` deep. */
  predicate DeepBetween(ls: seq<Line>, j: int, i: int, e: nat)
    requires 0 <= j < i <= |ls|
  {
    forall k :: j < k < i ==> ls[k].depth >= e
  }

  /**
   * Line `j` is the parent of line `i`: it is one level shallower, it is the
   * nearest such line before `i` (every line between is at least as deep as
   * line `i`), and the tree lists line `i`'s URL as a child of its URL.
   */
  predicate ParentAt(t: map<Url, Node>, ls: seq<Line>, i: int, j: int) {
    0 <= j < i < |ls| && ls[j].depth + 1 == ls[i].depth &&
    DeepBetween(ls, j, i, ls[i].depth) && ListedChild(t, ls[j].url, ls[i].url)
  }

  /** Line `i` has a parent line above it. */
  ghost predicate HasParent(t: map<Url, Node>, ls: seq<Line>, i: int) {
    exists j :: ParentAt(t, ls, i, j)
  }

  /** Each line is at most one level deeper than the line before it. */
  predicate Steps(ls: seq<Line>) {
    forall i :: 0 < i < |ls| ==> ls[i].depth <= ls[i - 1].depth + 1
  }

  /**
   * Every line deeper than `d` has its parent line above it. The quantifier
   * fires only on `HasParent` terms, so that the parent lines it names do not
   * set off further instances of it.
   */
  ghost predicate Parented(t: map<Url, Node>, ls: seq<Line>, d: nat) {
    forall i {:trigger HasParent(t, ls, i)} :: 0 <= i < |ls| && ls[i].depth > d ==> HasParent(t, ls, i)
  }

  /** The first line is at `d`, none is shallower, and a line at `d` names one of `cs`. */
  predicate Level(ls: seq<Line>, d: nat, cs: seq<Url>) {
    && (ls != [] ==> ls[0].depth == d)
    && (forall i :: 0 <= i < |ls| ==> ls[i].depth >= d)
    && (forall i :: 0 <= i < |ls| && ls[i].depth == d ==> ls[i].url in cs)
  }

  /**
   * The lines printed for the URLs `cs` at depth `d`, as an indented outline:
   * the first line is at `d` and none is shallower; a line at `d` names one
   * of `cs`; each line is at most one level deeper than the line before it;
   * and every deeper line has its parent line above it.
   */
  ghost predicate Outline(t: map<Url, Node>, ls: seq<Line>, d: nat, cs: seq<Url>) {
    Level(ls, d, cs) && Steps(ls) && Parented(t, ls, d)
  }

  lemma StepsAppend(a: seq<Line>, b: seq<Line>)
    requires Steps(a) && Steps(b)
    requires a != [] && b != [] ==> b[0].depth <= a[|a| - 1].depth + 1
    ensures Steps(a + b)
  {
    var ls := a + b;
    forall i | 0 < i < |ls| ensures ls[i].depth <= ls[i - 1].depth + 1 {
      if i < |a| {
        assert ls[i] == a[i] && ls[i - 1] == a[i - 1];
      } else if i == |a| {
        assert ls[i] == b[0] && ls[i - 1] == a[i - 1];
      } else {
        assert ls[i] == b[i - |a|] && ls[i - 1] == b[i - 1 - |a|];
      }
    }
  }

  /** A parent line found in `b` is still the parent once `a` is put before `b`. */
  lemma ParentShift(t: map<Url, Node>, a: seq<Line>, b: seq<Line>, i: int, j: int)
    requires ParentAt(t, b, i, j)
    ensures ParentAt(t, a + b, i + |a|, j + |a|)
  {
    var ls := a + b;
    assert ls[i + |a|] == b[i] && ls[j + |a|] == b[j];
    forall k | j + |a| < k < i + |a| ensures ls[k].depth >= b[i].depth {
      assert ls[k] == b[k - |a|];
    }
  }

  /** A parent line found in `a` is still the parent once `b` is put after `a`. */
  lemma ParentKeep(t: map<Url, Node>, a: seq<Line>, b: seq<Line>, i: int, j: int)
    requires ParentAt(t, a, i, j)
    ensures ParentAt(t, a + b, i, j)
  {
    var ls := a + b;
    assert ls[i] == a[i] && ls[j] == a[j];
    forall k | j < k < i ensures ls[k].depth >= a[i].depth {
      assert ls[k] == a[k];
    }
  }

  lemma ParentedAppend(t: map<Url, Node>, a: seq<Line>, b: seq<Line>, d: nat)
    requires Parented(t, a, d) && Parented(t, b, d)
    ensures Parented(t, a + b, d)
  {
    var ls := a + b;
    forall i | 0 <= i < |ls| && ls[i].depth > d ensures HasParent(t, ls, i) {
      if i < |a| {
        assert ls[i] == a[i] && HasParent(t, a, i);
        var j :| ParentAt(t, a, i, j);
        ParentKeep(t, a, b, i, j);
      } else {
        assert ls[i] == b[i - |a|] && HasParent(t, b, i - |a|);
        var j :| ParentAt(t, b, i - |a|, j);
        ParentShift(t, a, b, i - |a|, j);
      }
    }
  }

  /** Two outlines of the same level, one after the other, form one outline. */
  lemma OutlineAppend(t: map<Url, Node>, a: seq<Line>, b: seq<Line>, d: nat, cs: seq<Url>)
    requires Outline(t, a, d, cs) && Outline(t, b, d, cs)
    ensures Outline(t, a + b, d, cs)
  {
    StepsAppend(a, b);
    ParentedAppend(t, a, b, d);
    var ls := a + b;
    forall i | 0 <= i < |ls| ensures ls[i].depth >= d && (ls[i].depth == d ==> ls[i].url in cs) {
      if i < |a| {
        assert ls[i] == a[i];
      } else {
        assert ls[i] == b[i - |a|];
      }
    }
  }

  /** The level's URLs can be widened. */
  lemma OutlineWiden(t: map<Url, Node>, ls: seq<Line>, d: nat, cs: seq<Url>, cs': seq<Url>)
    requires Outline(t, ls, d, cs) && forall x :: x in cs ==> x in cs'
    ensures Outline(t, ls, d, cs')
  {
  }

  /** Putting the line of `u` at `d` above an outline of its listed children at `d + 1`. */
  lemma OutlineUnder(t: map<Url, Node>, u: Url, d: nat, ls: seq<Line>)
    requires u in t && t[u].Children?
    requires Outline(t, ls, d + 1, t[u].links)
    ensures Outline(t, [Line(d, u)] + ls, d, [u])
  {
    var out := [Line(d, u)] + ls;
    forall i | 0 < i < |out| ensures out[i] == ls[i - 1] {
    }
    StepsAppend([Line(d, u)], ls);
    ParentedUnder(t, u, d, ls);
  }

  lemma ParentedUnder(t: map<Url, Node>, u: Url, d: nat, ls: seq<Line>)
    requires u in t && t[u].Children?
    requires Level(ls, d + 1, t[u].links) && Parented(t, ls, d + 1)
    ensures Parented(t, [Line(d, u)] + ls, d)
  {
    var out := [Line(d, u)] + ls;
    forall i | 0 <= i < |out| && out[i].depth > d ensures HasParent(t, out, i) {
      assert i > 0 && out[i] == ls[i - 1];
      if ls[i - 1].depth == d + 1 {
        ParentIsHead(t, u, d, ls, i);
        assert ParentAt(t, out, i, 0);
      } else {
        assert HasParent(t, ls, i - 1);
        var j :| ParentAt(t, ls, i - 1, j);
        ParentShift(t, [Line(d, u)], ls, i - 1, j);
        assert ParentAt(t, out, i, j + 1);
      }
    }
  }

  /** A line at `d + 1` below the line of `u` at `d` has that line as its parent. */
  lemma ParentIsHead(t: map<Url, Node>, u: Url, d: nat, ls: seq<Line>, i: int)
    requires u in t && t[u].Children?
    requires 0 < i <= |ls| && ls[i - 1].depth == d + 1 && ls[i - 1].url in t[u].links
    requires forall k :: 0 <= k < |ls| ==> ls[k].depth >= d + 1
    ensures ParentAt(t, [Line(d, u)] + ls, i, 0)
  {
    var out := [Line(d, u)] + ls;
    assert out[i] == ls[i - 1] && out[0] == Line(d, u);
    forall k | 0 < k < i ensures out[k].depth >= d + 1 {
      assert out[k] == ls[k - 1];
    }
  }

  /**
   * `print_site_tree(t, u, depth, visited)` prints an indented outline: its
   * own line at `depth`, and below it, one level deeper each time, the lines
   * of the children the tree lists for it.
   */
  lemma {:induction false} PrintOutline(t: map<Url, Node>, u: Url, depth: nat, visited: set<Url>)
    ensures Outline(t, Print(t, u, depth, visited).0, depth, [u])
    decreases t.Keys - visited, 0, 0
  {
    if u !in visited && u in t && t[u].Children? {
      var v := visited + {u};
      PrintChildrenOutline(t, t[u].links, depth + 1, v);
      OutlineUnder(t, u, depth, PrintChildren(t, t[u].links, depth + 1, v).0);
    } else if u !in visited {
      assert Print(t, u, depth, visited).0 == [Line(depth, u)];
    }
  }

  lemma {:induction false} PrintChildrenOutline(t: map<Url, Node>, cs: seq<Url>, depth: nat, visited: set<Url>)
    ensures Outline(t, PrintChildren(t, cs, depth, visited).0, depth, cs)
    decreases t.Keys - visited, 1, |cs|
  {
    if cs != [] {
      var (a, v) := Print(t, cs[0], depth, visited);
      var (b, v') := PrintChildren(t, cs[1..], depth, v);
      PrintOutline(t, cs[0], depth, visited);
      PrintChildrenOutline(t, cs[1..], depth, v);
      OutlineWiden(t, a, depth, [cs[0]], cs);
      OutlineWiden(t, b, depth, cs[1..], cs);
      OutlineAppend(t, a, b, depth, cs);
    }
  }

  /**
   * The printout of the site tree is hierarchical: it starts with the root at
   * depth 0; every later line is at least one level deep and at most one
   * level deeper than the line before it; and each line at depth `e + 1` has
   * a parent line (`ParentAt`): the nearest line above it at depth `e`,
   * whose URL the tree lists it under.
   */
  lemma PrintSiteTreeHierarchy(t: map<Url, Node>, root: Url)
    ensures PrintSiteTree(t, root)[0] == Line(0, root)
    ensures forall i :: 0 < i < |PrintSiteTree(t, root)| ==>
      1 <= PrintSiteTree(t, root)[i].depth <= PrintSiteTree(t, root)[i - 1].depth + 1
    ensures forall i :: 0 < i < |PrintSiteTree(t, root)| ==> HasParent(t, PrintSiteTree(t, root), i)
  {
    var ls := PrintSiteTree(t, root);
    PrintOutline(t, root, 0, {});
    PrintOnce(t, root, 0, {});
    forall i | 0 < i < |ls| ensures 1 <= ls[i].depth {
      assert Urls(ls)[0] == ls[0].url && Urls(ls)[i] == ls[i].url;
    }
  }

  /** Printing the site tree from `root`, as `main` calls it: depth 0, nothing visited. */
  function PrintSiteTree(t: map<Url, Node>, root: Url): (r: seq<Line>)
    ensures |r| >= 1 && r[0] == Line(0, root)
  {
    Print(t, root, 0, {}).0
  }

  /**
   * A walk prints each URL at most once, and prints exactly the URLs it adds
   * to `visited`.
   */
  lemma {:induction false} PrintOnce(t: map<Url, Node>, u: Url, depth: nat, visited: set<Url>)
    ensures NoDup(Urls(Print(t, u, depth, visited).0))
    ensures forall x :: x in Urls(Print(t, u, depth, visited).0) <==> x in Print(t, u, depth, visited).1 - visited
    decreases t.Keys - visited, 0, 0
  {
    if u !in visited && u in t && t[u].Children? {
      var v := visited + {u};
      var (ls, v') := PrintChildren(t, t[u].links, depth + 1, v);
      PrintChildrenOnce(t, t[u].links, depth + 1, v);
      assert Urls([Line(depth, u)] + ls) == [u] + Urls(ls);
      NoDupAppend([u], Urls(ls));
    } else if u !in visited {
      assert Urls([Line(depth, u)]) == [u];
    }
  }

  lemma {:induction false} PrintChildrenOnce(t: map<Url, Node>, cs: seq<Url>, depth: nat, visited: set<Url>)
    ensures NoDup(Urls(PrintChildren(t, cs, depth, visited).0))
    ensures forall x :: x in Urls(PrintChildren(t, cs, depth, visited).0) <==> x in PrintChildren(t, cs, depth, visited).1 - visited
    decreases t.Keys - visited, 1, |cs|
  {
    if cs != [] {
      var (a, v) := Print(t, cs[0], depth, visited);
      var (b, v') := PrintChildren(t, cs[1..], depth, v);
      PrintOnce(t, cs[0], depth, visited);
      PrintChildrenOnce(t, cs[1..], depth, v);
      assert Urls(a + b) == Urls(a) + Urls(b);
      NoDupAppend(Urls(a), Urls(b));
    }
  }

  /** The whole printout names each URL once, and names exactly the URLs reachable from the root through child lists. */
  lemma PrintSiteTreeOnce(t: map<Url, Node>, root: Url)
    ensures NoDup(Urls(PrintSiteTree(t, root)))
    ensures forall x :: x in Urls(PrintSiteTree(t, root)) <==> x in Print(t, root, 0, {}).1
    ensures forall x :: x in Urls(PrintSiteTree(t, root)) <==> ReachableFrom(t, root, x)
  {
    PrintOnce(t, root, 0, {});
    PrintVisitsAsExport(t, root, 0, {});
    Export.BuildVisitsReachable(t, root);
  }

  /**
   * Printing and exporting walk the same URLs: both skip a URL seen before
   * and descend exactly into child lists, so they leave the same `visited`.
   */
  lemma {:induction false} PrintVisitsAsExport(t: map<Url, Node>, u: Url, depth: nat, visited: set<Url>)
    ensures Print(t, u, depth, visited).1 == Export.Build(t, u, visited).1
    decreases t.Keys - visited, 0, 0
  {
    if u !in visited && u in t && t[u].Children? {
      PrintChildrenVisitsAsExport(t, t[u].links, depth + 1, visited + {u}, []);
    }
  }

  lemma {:induction false} PrintChildrenVisitsAsExport(t: map<Url, Node>, cs: seq<Url>, depth: nat, visited: set<Url>,
                                                        acc: seq<(Url, Export.Doc)>)
    ensures PrintChildren(t, cs, depth, visited).1 == Export.BuildChildren(t, cs, visited, acc).1
    decreases t.Keys - visited, 1, |cs|
  {
    if cs != [] {
      var (d, v) := Export.Build(t, cs[0], visited);
      PrintVisitsAsExport(t, cs[0], depth, visited);
      PrintChildrenVisitsAsExport(t, cs[1..], depth, v, Store(acc, cs[0], d));
    }
  }

  /**
   * The printout and the export agree: with duplicate-free child lists, as
   * the crawl stores them, a URL is expanded by the export exactly when it is
   * printed and has no error marker.
   */
  lemma PrintMatchesExport(t: map<Url, Node>, root: Url)
    requires Export.DistinctChildren(t)
    ensures forall x :: x in Export.Flat(Export.ExportTree(t, root)) <==>
      x in Urls(PrintSiteTree(t, root)) && Export.Expandable(t, x)
  {
    PrintVisitsAsExport(t, root, 0, {});
    PrintSiteTreeOnce(t, root);
    Export.ExportExpandsExactlyOnce(t, root);
  }

  /**
   * Every URL expanded into `{"children": ...}` by the export is printed:
   * the printout names at least the URLs the export expands.
   */
  lemma PrintCoversExport(t: map<Url, Node>, root: Url)
    ensures forall x :: x in Export.Flat(Export.ExportTree(t, root)) ==> x in Urls(PrintSiteTree(t, root))
  {
    Export.BuildExpandsOnce(t, root, {});
    assert Export.Flat(Export.ExportTree(t, root)) == Export.EntryExpanded(Export.ExportTree(t, root)[0]);
    PrintVisitsAsExport(t, root, 0, {});
    PrintSiteTreeOnce(t, root);
  }
}
