/**
 * `extract_page_info`: the record kept for one page. HTTP and HTML parsing
 * are left out; a parsed page is given as the stripped texts of its `h1`,
 * `h2`, `h3`, `span`, `p` and `label` elements, in document order, and the
 * attribute maps of its `<meta>` tags (`label` is a Dafny keyword, so that
 * field is called `labels`). What is modelled is how those become
 * the record, in particular the dict of meta tags.
 */
module PageInfo {
  import opened Wrappers
  import opened Collections
  import opened Site

  /** The attributes of one `<meta>` tag. */
  type Attrs = map<string, string>

  /** A parsed page, as BeautifulSoup would give it. */
  datatype Parsed = Parsed(h1: seq<string>, h2: seq<string>, h3: seq<string>, span: seq<string>,
                           p: seq<string>, labels: seq<string>, metas: seq<Attrs>)

  /**
   * The record of one page: its tag texts and its meta dict, or, when the
   * request or the parse raised, `{"url": url, "error": str(e)}`.
   */
  datatype Info =
    | Page(url: Url, h1: seq<string>, h2: seq<string>, h3: seq<string>, span: seq<string>,
           p: seq<string>, labels: seq<string>, meta: seq<(string, string)>)
    | Failed(url: Url, error: string)

  /** `m.get(name, default)`. */
  function Attr(m: Attrs, name: string, default: string): (r: string)
    ensures name in m ==> r == m[name]
    ensures name !in m ==> r == default
  {
    if name in m then m[name] else default
  }

  /** The key of a meta tag in the meta dict: `name`, else `property`, else `"unknown"`. */
  function MetaKey(m: Attrs): (k: string)
    ensures "name" in m ==> k == m["name"]
    ensures "name" !in m && "property" in m ==> k == m["property"]
    ensures "name" !in m && "property" !in m ==> k == "unknown"
  {
    Attr(m, "name", Attr(m, "property", "unknown"))
  }

  /** The value of a meta tag in the meta dict: `content`, else `"unknown"`. */
  function MetaValue(m: Attrs): (v: string)
    ensures "content" in m ==> v == m["content"]
    ensures "content" !in m ==> v == "unknown"
  {
    Attr(m, "content", "unknown")
  }

  /** The keys of the tags, in document order. */
  function MetaKeys(tags: seq<Attrs>): (ks: seq<string>)
    ensures |ks| == |tags|
  {
    seq(|tags|, i requires 0 <= i < |tags| => MetaKey(tags[i]))
  }

  lemma MetaKeysSnoc(tags: seq<Attrs>)
    requires tags != []
    ensures MetaKeys(tags) == MetaKeys(tags[..|tags| - 1]) + [MetaKey(tags[|tags| - 1])]
  {
  }

  /**
   * The dict comprehension over the meta tags, in document order: each tag
   * assigns its value under its key, so a key keeps the position of its
   * first tag.
   */
  function MetaDict(tags: seq<Attrs>): (r: seq<(string, string)>)
    ensures NoDup(Keys(r))
    ensures Keys(r) == Distinct(MetaKeys(tags))
  {
    if tags == [] then []
    else
      var init := tags[..|tags| - 1];
      var last := tags[|tags| - 1];
      var d := MetaDict(init);
      StoreNoDup(d, MetaKey(last), MetaValue(last));
      MetaKeysSnoc(tags);
      DistinctSnoc([], MetaKeys(init), MetaKey(last));
      Store(d, MetaKey(last), MetaValue(last))
  }

  /** `tags[i]` is the last tag whose key is `k`. */
  predicate LastTag(tags: seq<Attrs>, k: string, i: int) {
    0 <= i < |tags| && MetaKey(tags[i]) == k &&
    forall j :: i < j < |tags| ==> MetaKey(tags[j]) != k
  }

  /**
   * The value of the last tag whose key is `k`, read from the end of the
   * list: an independent reading of "a later tag overwrites an earlier one".
   */
  function LastValue(tags: seq<Attrs>, k: string): (r: Option<string>)
    ensures r.None? <==> k !in MetaKeys(tags)
  {
    if tags == [] then None
    else
      var init := tags[..|tags| - 1];
      var last := tags[|tags| - 1];
      MetaKeysSnoc(tags);
      if MetaKey(last) == k then Some(MetaValue(last)) else LastValue(init, k)
  }

  /** When `tags[i]` is the last tag with key `k`, its value is the one kept for `k`. */
  lemma {:induction false} LastValueIsLast(tags: seq<Attrs>, k: string, i: int)
    requires LastTag(tags, k, i)
    ensures LastValue(tags, k) == Some(MetaValue(tags[i]))
    decreases |tags|
  {
    var init := tags[..|tags| - 1];
    if i < |tags| - 1 {
      assert MetaKey(tags[|tags| - 1]) != k;
      assert forall j :: 0 <= j < |init| ==> init[j] == tags[j];
      LastValueIsLast(init, k, i);
    }
  }

  /**
   * Looking a key up in the meta dict gives the value of the last tag with
   * that key, and nothing for a key no tag has.
   */
  lemma {:induction false} MetaLastWins(tags: seq<Attrs>, k: string)
    ensures Get(MetaDict(tags), k) == LastValue(tags, k)
    decreases |tags|
  {
    if tags != [] {
      var init := tags[..|tags| - 1];
      var last := tags[|tags| - 1];
      MetaLastWins(init, k);
      if MetaKey(last) == k {
        StoreGet(MetaDict(init), k, MetaValue(last));
      } else {
        StoreOther(MetaDict(init), MetaKey(last), MetaValue(last), k);
      }
    }
  }

  /**
   * `extract_page_info(url)` given the outcome of fetching and parsing the
   * page: the record of the page, or the error.
   */
  function ExtractPageInfo(url: Url, page: Result<Parsed, string>): (r: Info)
    ensures r.url == url
    ensures r.Failed? <==> page.Err?
    ensures r.Failed? ==> r.error == page.error
    ensures r.Page? ==> (r.h1 == page.value.h1 && r.h2 == page.value.h2 && r.h3 == page.value.h3 &&
      r.span == page.value.span && r.p == page.value.p && r.labels == page.value.labels)
    ensures r.Page? ==> NoDup(Keys(r.meta)) && forall k :: Get(r.meta, k) == LastValue(page.value.metas, k)
    ensures r.Page? ==> Keys(r.meta) == Distinct(MetaKeys(page.value.metas))
  {
    match page
    case Ok(c) =>
      forall k ensures Get(MetaDict(c.metas), k) == LastValue(c.metas, k) {
        MetaLastWins(c.metas, k);
      }
      Page(url, c.h1, c.h2, c.h3, c.span, c.p, c.labels, MetaDict(c.metas))
    case Err(e) => Failed(url, e)
  }
}
