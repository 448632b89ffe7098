/**
 * `display_html_tables`: the rows of the two tables built from the page
 * records, one for meta tags and one for the other tags. Building the pandas
 * DataFrames is left out; each table is the list of rows appended to it.
 */
module Tables {
  import opened Site
  import opened PageInfo

  /** One table row: `{"Página": page, "Etiqueta": label, "Contenido": content}`. */
  datatype Row = Row(page: Url, tag: string, content: string)

  /** The tags of the HTML table, in the order their rows are appended for each page. */
  const HtmlTags: seq<string> := ["h1", "h2", "h3", "span", "p", "label"]

  /**
   * `info.get(HtmlTags[k], [])`: the texts of the `k`-th tag; a failed page
   * has none.
   */
  function Texts(info: Info, k: nat): (r: seq<string>)
    requires k < |HtmlTags|
    ensures info.Failed? ==> r == []
  {
    if info.Failed? then []
    else if k == 0 then info.h1
    else if k == 1 then info.h2
    else if k == 2 then info.h3
    else if k == 3 then info.span
    else if k == 4 then info.p
    else info.labels
  }

  /** The `k`-th tag of `HtmlTags` reads the record's field of that name. */
  lemma TextsOfTag(info: Info, k: nat)
    requires info.Page? && k < |HtmlTags|
    ensures Texts(info, k) == [info.h1, info.h2, info.h3, info.span, info.p, info.labels][k]
  {
  }

  /** The meta rows of one page: one per entry of its meta dict, in dict order; none for a failed page. */
  function PageMetaRows(page: Url, info: Info): (rows: seq<Row>)
    ensures info.Failed? ==> rows == []
  {
    if info.Page? then seq(|info.meta|, j requires 0 <= j < |info.meta| => Row(page, info.meta[j].0, info.meta[j].1))
    else []
  }

  /** The rows of the `k`-th tag of one page: one per text, in document order. */
  function TagRows(page: Url, info: Info, k: nat): seq<Row>
    requires k < |HtmlTags|
  {
    seq(|Texts(info, k)|, j requires 0 <= j < |Texts(info, k)| => Row(page, HtmlTags[k], Texts(info, k)[j]))
  }

  /** The HTML rows of one page for the first `n` tags of `HtmlTags`. */
  function PageHtmlRows(page: Url, info: Info, n: nat): seq<Row>
    requires n <= |HtmlTags|
  {
    if n == 0 then [] else PageHtmlRows(page, info, n - 1) + TagRows(page, info, n - 1)
  }

  /** The meta table of the pages, page after page in dict order. */
  function MetaRows(pages: seq<(Url, Info)>): seq<Row> {
    if pages == [] then []
    else MetaRows(pages[..|pages| - 1]) + PageMetaRows(pages[|pages| - 1].0, pages[|pages| - 1].1)
  }

  /** The HTML table of the pages, page after page in dict order. */
  function HtmlRows(pages: seq<(Url, Info)>): seq<Row> {
    if pages == [] then []
    else HtmlRows(pages[..|pages| - 1]) + PageHtmlRows(pages[|pages| - 1].0, pages[|pages| - 1].1, |HtmlTags|)
  }

  /**
   * `display_html_tables(page_info)` on the pages of the `page_info` dict, in
   * order: the meta rows, then the HTML rows.
   */
  method DisplayHtmlTables(pages: seq<(Url, Info)>) returns (metaData: seq<Row>, htmlData: seq<Row>)
    ensures metaData == MetaRows(pages)
    ensures htmlData == HtmlRows(pages)
  {
    metaData := MetaTable(pages);
    htmlData := HtmlTable(pages);
  }

  /** The first loop of `display_html_tables`: the meta rows of every page that has a meta dict. */
  method MetaTable(pages: seq<(Url, Info)>) returns (metaData: seq<Row>)
    ensures metaData == MetaRows(pages)
  {
    metaData := [];
    var i := 0;
    while i < |pages|
      invariant 0 <= i <= |pages|
      invariant metaData == MetaRows(pages[..i])
    {
      var (page, info) := pages[i];
      assert pages[..i + 1][..i] == pages[..i];
      if info.Page? {
        var j := 0;
        while j < |info.meta|
          invariant 0 <= j <= |info.meta|
          invariant metaData == MetaRows(pages[..i]) + PageMetaRows(page, info)[..j]
        {
          var (key, value) := info.meta[j];
          metaData := metaData + [Row(page, key, value)];
          assert PageMetaRows(page, info)[..j + 1] == PageMetaRows(page, info)[..j] + [Row(page, key, value)];
          j := j + 1;
        }
        assert PageMetaRows(page, info)[..j] == PageMetaRows(page, info);
      }
      i := i + 1;
    }
    assert pages[..i] == pages;
  }

  /** The second loop of `display_html_tables`: for each page, the texts of each tag in turn. */
  method HtmlTable(pages: seq<(Url, Info)>) returns (htmlData: seq<Row>)
    ensures htmlData == HtmlRows(pages)
  {
    htmlData := [];
    var i := 0;
    while i < |pages|
      invariant 0 <= i <= |pages|
      invariant htmlData == HtmlRows(pages[..i])
    {
      var (page, info) := pages[i];
      assert pages[..i + 1][..i] == pages[..i];
      htmlData := AppendPageHtmlRows(htmlData, page, info);
      assert HtmlRows(pages[..i + 1]) == HtmlRows(pages[..i]) + PageHtmlRows(page, info, |HtmlTags|);
      i := i + 1;
    }
    assert pages[..i] == pages;
  }

  /** The middle loop of `display_html_tables`: the rows of each tag of one page, tag after tag. */
  method AppendPageHtmlRows(rows: seq<Row>, page: Url, info: Info) returns (rows': seq<Row>)
    ensures rows' == rows + PageHtmlRows(page, info, |HtmlTags|)
  {
    rows' := rows;
    var k := 0;
    while k < |HtmlTags|
      invariant 0 <= k <= |HtmlTags|
      invariant rows' == rows + PageHtmlRows(page, info, k)
    {
      rows' := AppendTagRows(rows', page, info, k);
      k := k + 1;
    }
  }

  /** The innermost loop of `display_html_tables`: one row per text of the `k`-th tag, appended in order. */
  method AppendTagRows(rows: seq<Row>, page: Url, info: Info, k: nat) returns (rows': seq<Row>)
    requires k < |HtmlTags|
    ensures rows' == rows + TagRows(page, info, k)
  {
    rows' := rows;
    var tag := HtmlTags[k];
    var texts := Texts(info, k);
    var j := 0;
    while j < |texts|
      invariant 0 <= j <= |texts|
      invariant rows' == rows + TagRows(page, info, k)[..j]
    {
      rows' := rows' + [Row(page, tag, texts[j])];
      assert TagRows(page, info, k)[..j + 1] == TagRows(page, info, k)[..j] + [Row(page, tag, texts[j])];
      j := j + 1;
    }
    assert TagRows(page, info, k)[..j] == TagRows(page, info, k);
  }

  /** `r` is the row of an entry of the meta dict of the `i`-th page, which was fetched. */
  predicate MetaRowAt(pages: seq<(Url, Info)>, i: int, r: Row) {
    0 <= i < |pages| && pages[i].1.Page? && r.page == pages[i].0 && (r.tag, r.content) in pages[i].1.meta
  }

  /**
   * A meta row is exactly an entry of the meta dict of a page that was
   * fetched, labelled with that page.
   */
  lemma {:induction false} MetaRowsMembership(pages: seq<(Url, Info)>, r: Row)
    ensures r in MetaRows(pages) <==> exists i :: MetaRowAt(pages, i, r)
    decreases |pages|
  {
    if pages != [] {
      var init := pages[..|pages| - 1];
      var n := |pages| - 1;
      var (page, info) := pages[n];
      assert MetaRows(pages) == MetaRows(init) + PageMetaRows(page, info);
      MetaRowsMembership(init, r);
      assert r in PageMetaRows(page, info) <==> MetaRowAt(pages, n, r) by {
        if MetaRowAt(pages, n, r) {
          var j :| 0 <= j < |info.meta| && info.meta[j] == (r.tag, r.content);
          assert PageMetaRows(page, info)[j] == r;
        }
      }
      forall i | 0 <= i < n
        ensures MetaRowAt(pages, i, r) == MetaRowAt(init, i, r)
      {
        assert init[i] == pages[i];
      }
      assert (exists i :: MetaRowAt(pages, i, r)) <==> (exists i :: MetaRowAt(init, i, r)) || MetaRowAt(pages, n, r) by {
        if exists i :: MetaRowAt(pages, i, r) {
          var i :| MetaRowAt(pages, i, r);
          assert i == n || MetaRowAt(init, i, r);
        }
      }
    }
  }

  /**
   * An HTML row is exactly a text of one of the six tags of a page, labelled
   * with that page and that tag; failed pages give no rows.
   */
  lemma {:induction false} HtmlRowsMembership(pages: seq<(Url, Info)>, r: Row)
    ensures r in HtmlRows(pages) <==> exists i :: HtmlRowAt(pages, i, r)
    decreases |pages|
  {
    if pages != [] {
      var init := pages[..|pages| - 1];
      var n := |pages| - 1;
      var (page, info) := pages[n];
      assert HtmlRows(pages) == HtmlRows(init) + PageHtmlRows(page, info, |HtmlTags|);
      HtmlRowsMembership(init, r);
      PageHtmlRowsMembership(page, info, |HtmlTags|, r);
      forall i | 0 <= i < n
        ensures HtmlRowAt(pages, i, r) == HtmlRowAt(init, i, r)
      {
        assert init[i] == pages[i];
      }
      assert HtmlRowAt(pages, n, r) == HtmlRowOf(page, info, r);
      assert (exists i :: HtmlRowAt(pages, i, r)) <==> (exists i :: HtmlRowAt(init, i, r)) || HtmlRowAt(pages, n, r) by {
        if exists i :: HtmlRowAt(pages, i, r) {
          var i :| HtmlRowAt(pages, i, r);
          assert i == n || HtmlRowAt(init, i, r);
        }
      }
    }
  }

  /** `r` is the row of a text of the `k`-th tag of `page`. */
  predicate TagRowOf(page: Url, info: Info, k: nat, r: Row)
    requires k < |HtmlTags|
  {
    r.page == page && r.tag == HtmlTags[k] && r.content in Texts(info, k)
  }

  /** `r` is the row of a text of one of the six tags of `page`. */
  predicate HtmlRowOf(page: Url, info: Info, r: Row) {
    exists k :: 0 <= k < |HtmlTags| && TagRowOf(page, info, k, r)
  }

  /** `r` is an HTML row of the `i`-th page. */
  predicate HtmlRowAt(pages: seq<(Url, Info)>, i: int, r: Row) {
    0 <= i < |pages| && HtmlRowOf(pages[i].0, pages[i].1, r)
  }

  lemma {:induction false} PageHtmlRowsMembership(page: Url, info: Info, n: nat, r: Row)
    requires n <= |HtmlTags|
    ensures r in PageHtmlRows(page, info, n) <==> exists k :: 0 <= k < n && TagRowOf(page, info, k, r)
  {
    if n > 0 {
      PageHtmlRowsMembership(page, info, n - 1, r);
      var k := n - 1;
      assert r in TagRows(page, info, k) <==> TagRowOf(page, info, k, r) by {
        if TagRowOf(page, info, k, r) {
          var j :| 0 <= j < |Texts(info, k)| && Texts(info, k)[j] == r.content;
          assert TagRows(page, info, k)[j] == r;
        }
      }
    }
  }

  /** The position of a tag in `HtmlTags`. */
  function TagRank(tag: string): nat {
    if tag == "h1" then 0
    else if tag == "h2" then 1
    else if tag == "h3" then 2
    else if tag == "span" then 3
    else if tag == "p" then 4
    else 5
  }

  /** The six tags are distinct: each one's rank is its position. */
  lemma TagRankOf(k: nat)
    requires k < |HtmlTags|
    ensures TagRank(HtmlTags[k]) == k
  {
  }

  /**
   * Within one page the HTML rows come in the tag order h1, h2, h3, span, p,
   * label: a row's tag is one of the first `n`, and rows of an earlier tag
   * come before rows of a later one.
   */
  lemma {:induction false} PageHtmlRowsInTagOrder(page: Url, info: Info, n: nat)
    requires n <= |HtmlTags|
    ensures forall a :: 0 <= a < |PageHtmlRows(page, info, n)| ==>
      TagRank(PageHtmlRows(page, info, n)[a].tag) < n &&
      PageHtmlRows(page, info, n)[a].tag == HtmlTags[TagRank(PageHtmlRows(page, info, n)[a].tag)]
    ensures forall a, b :: 0 <= a < b < |PageHtmlRows(page, info, n)| ==>
      TagRank(PageHtmlRows(page, info, n)[a].tag) <= TagRank(PageHtmlRows(page, info, n)[b].tag)
  {
    if n > 0 {
      PageHtmlRowsInTagOrder(page, info, n - 1);
      var prev := PageHtmlRows(page, info, n - 1);
      var rows := PageHtmlRows(page, info, n);
      TagRankOf(n - 1);
      assert forall a :: 0 <= a < |prev| ==> rows[a] == prev[a];
      assert forall a :: |prev| <= a < |rows| ==> rows[a].tag == HtmlTags[n - 1];
    }
  }
}
