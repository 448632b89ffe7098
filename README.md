# Site-tree crawler, modelled in Dafny

This project models the core of the `webscraping` crawler (`main.py`):

- **The breadth-first crawl** `extract_site_tree`. It starts at a seed URL and keeps a FIFO queue of `(url, depth)` pairs, a `visited` set and the `site_tree` dictionary. For every URL it visits, it records either the distinct same-origin links of the page or `{"error": ...}`.
- **The two readers of the site tree**, which walk it depth first and share one `visited` set: `export_site_tree_as_json` (with its inner `build_tree`) and `print_site_tree`.
- **The per-page record** of `extract_page_info`, in particular its dict of `<meta>` tags.
- **The rows** that `display_html_tables` appends to its meta table and its HTML-tag table.
- **The truncation helper** `summarize_data` of `send_to_gpt`.

The network and the HTML parser are parameters. A `Web` value gives:

- `fetch(url)`: the raw hrefs of a page, or the text of the exception raised;
- `resolve(base, href)`: `urljoin`;
- `netloc(url)`: `urlparse(url).netloc`.

Modules, one per component:

| file | module | what it holds |
|---|---|---|
| `wrappers.dfy` | `Wrappers` | `Option`, `Result` |
| `collections.dfy` | `Collections` | `list(set(xs))` as `Distinct`; the insertion-ordered dict as a sequence of pairs with `Store`/`Get`/`Keys` |
| `site.dfy` | `Site` | the `Web`, the stored `Node` (child list or error), the origin filter, the set of URLs reachable within `k` links, reachability through the child lists of a stored tree |
| `crawler.dfy` | `Crawler` | `ExtractSiteTree`, an imperative `while` loop over the queue, proved against its specification |
| `export.dfy` | `Export` | `build_tree` and the export, threading `visited` |
| `print_tree.dfy` | `PrintTree` | `print_site_tree`, as the lines it prints |
| `page_info.dfy` | `PageInfo` | the page record and its meta dict |
| `tables.dfy` | `Tables` | `display_html_tables`, as nested loops that append rows |
| `summarize.dfy` | `Summarize` | `summarize_data` |

The crawl's loop invariant lives in `Crawler.CrawlInv`. It uses a ghost map from each visited URL to the depth at which it was visited. The queue stays sorted by depth, and its depths span at most two consecutive values. Every link of a page visited below the depth bound has been visited at most one level deeper, or still waits in the queue at that level. With these facts the method proves that the keys are exactly the URLs reachable from the seed in at most `max_depth` links.

Links are resolved against the seed URL, not against the page that holds them (`main.py:36`). A relative href on a deeper page therefore resolves as if it were on the seed page. The model keeps this behaviour.

## Model

| member | source | states |
|---|---|---|
| Crawler.ExtractSiteTree | main.py:17-45 | a page is requested only where its URL becomes a key (the ghost log `fetched` equals the keys), so each URL is requested at most once; each key holds the node its fetch gives; the keys are exactly the URLs reachable from the seed within `max_depth` same-origin links (so an entry deeper than the bound never becomes a key); the seed is the first key when `max_depth >= 0`, the only key when `max_depth == 0`, and there are no keys when `max_depth < 0`; every later key is a listed child of an earlier key; the ghost result `dist` is each key's distance from the seed (the fewest links that reach it), and the keys come in breadth-first order, by nondecreasing distance |
| Crawler.Enqueued | main.py:41 | the generator passed to `queue.extend` yields, in order, one entry `(link, depth + 1)` per link |
| Crawler.VisitPage | main.py:31-43 | a successful fetch stores the distinct same-origin links and enqueues the links with their duplicates; a failed fetch stores the exception's text and enqueues nothing |
| Crawler.DiscardStep | main.py:26-28 | dropping a popped entry that is too deep or already visited keeps the crawl invariant for the rest of the queue, with the same visited set and tree |
| Crawler.VisitStep | main.py:29-41 | visiting a new URL within the bound keeps the crawl invariant (queue sorted by depth, every queued URL reachable, links of visited pages covered, keys traceable to earlier keys) and strictly shrinks the set of reachable URLs still unvisited |
| Crawler.CrawlComplete | main.py:25-41 | once the queue is empty, every URL reachable within the bound has been visited |
| Crawler.VisitedWithin | main.py:25-41 | a URL reachable in `k` links is visited at depth at most `k` |
| Crawler.VisitKeepsClosed | main.py:41 | appending a visited page's links at `depth + 1` keeps every visited page's links either visited or queued one level deeper |
| Crawler.VisitKeepsOrder | main.py:25-41 | popping the head and appending at `depth + 1` keeps the queue sorted by depth, within two consecutive depths |
| Crawler.VisitKeepsDistances | main.py:25-41 | a visit records a depth within which the URL is reachable, and no smaller than that of any earlier key |
| Crawler.CrawlDistances | main.py:25-45 | once the queue is empty, each key was visited exactly at its distance from the seed, and the keys are in breadth-first order |
| Site.SameOriginLinks | main.py:35-39 | the comprehension keeps at most one link per href, and only links with the seed's network location |
| Site.NodeOf | main.py:40-43 | the value stored for a visited URL is an error exactly when the fetch raised, carrying its text; otherwise a duplicate-free list no longer than the page's hrefs |
| Site.PageLinks | main.py:35-41 | the links enqueued after a visit: none when the fetch raised, otherwise at most one per href, all with the seed's network location |
| Site.SameOriginLinksSpec | main.py:35-39 | a URL is kept exactly when it is the resolution of some href against the seed and has the seed's network location |
| Site.SameOriginOnly | main.py:38 | every kept link has the seed's network location |
| Site.NodeOfSpec | main.py:35-43 | a stored child list has no duplicates and holds exactly the page's same-origin links; a stored error is the fetch's error and comes with no links |
| Site.ReachMonotone | main.py:27 | a larger depth bound reaches at least the same URLs |
| Collections.Distinct | main.py:40 | `list(set(links))` has no duplicates, has exactly the elements of `links`, and is no longer than it |
| Collections.DistinctOfNoDup | main.py:40 | a list without duplicates is its own `list(set(...))` in this model |
| Collections.Get | main.py:105-108 | reading a key of the meta dict finds nothing exactly for an absent key, and otherwise a value stored under that key (the lookup `site_tree.get` of `main.py:81` is `u in t` and `t[u]` on a `map` in `Export.Build` and `PrintTree.Print`) |
| Collections.Store | main.py:105-108 | a dict assignment appends a new key and leaves the order of existing keys alone |
| Collections.StoreGet | main.py:105-108 | after `d[k] = v`, `d[k]` is `v` |
| Collections.StoreOther | main.py:105-108 | `d[k] = v` leaves every other key's value as it was |
| Export.Build | main.py:76-84 | a URL seen before becomes `{}`; a URL absent from the tree becomes `{"children": {}}`; an error marker becomes `{}`; a child list becomes `{"children": ...}` whose keys are the distinct children in order; the URL joins `visited` |
| Export.BuildChildren | main.py:83 | the comprehension's keys are the children added in order, once each; `visited` only grows |
| Export.ExportTree | main.py:86 | the export has exactly one top-level key, the root |
| Export.BuildExpandsOnce | main.py:74-86 | inside the value of `build_tree(u)`, every URL is expanded into `{"children": ...}` at most once, and only URLs that call added to `visited` are expanded |
| Export.BuildChildrenExpandsOnce | main.py:83 | building the children keeps the expanded URLs distinct and within those newly visited |
| Export.StoreFlat | main.py:83 | overwriting or adding one comprehension entry keeps the expanded URLs distinct when the new value expands none already expanded |
| Export.ExportExpandsOnce | main.py:69-86 | the whole export expands each URL at most once; every other occurrence is `{}` |
| Export.CrawledTreeDistinct | main.py:40 | a tree whose values are those the crawl stores has duplicate-free child lists |
| Export.StoreNew | main.py:83 | assigning a key the comprehension's dict does not hold yet appends the entry |
| Export.BuildExpandsAll | main.py:76-84 | with duplicate-free child lists, `build_tree(u)` expands every URL it adds to `visited` that has no error marker |
| Export.BuildChildrenExpandsAll | main.py:83 | with a duplicate-free child list, the comprehension keeps the expansions already built and expands every URL visited meanwhile that has no error marker |
| Export.MirrorsExpandable | main.py:81-84 | a URL expanded into `{"children": ...}` has no error marker in the tree |
| Export.BuildClosed | main.py:69-86 | every URL a `build_tree` call visits has all its listed children visited when the call returns |
| Export.BuildChildrenClosed | main.py:81-83 | every child in the list is visited, and every URL visited on the way has all its listed children visited |
| Export.BuildWithin | main.py:69-86 | started inside a set closed under listed children, `build_tree` visits nothing outside that set |
| Export.BuildChildrenWithin | main.py:81-83 | with every child in a closed set, the comprehension visits nothing outside that set |
| Export.BuildVisitsReachable | main.py:69-86 | the walk from the root visits exactly the URLs reachable from the root through child lists |
| Export.ExportExpandsExactlyOnce | main.py:69-86 | with duplicate-free child lists, as the crawl stores them, the export expands exactly once each URL reachable from the root through child lists that has no error marker, and no other URL |
| Export.BuildMirrors | main.py:81-84 | every `{"children": ...}` in the value lists exactly the distinct children the tree holds for its URL, or nothing for an absent URL |
| Export.ExportMirrors | main.py:69-86 | every `{"children": ...}` of the export lists exactly the distinct children the tree holds for its URL, at every level (which URLs get expanded at all: `Export.ExportExpandsExactlyOnce`) |
| PrintTree.Indent | main.py:60 | the indent is `2 * depth` spaces |
| PrintTree.Render | main.py:60-61 | a printed line is `2 * depth` spaces, then exactly the branch mark `└── `, then the URL |
| PrintTree.Print | main.py:48-66 | a URL seen before prints nothing; otherwise its own line at the given depth comes first, and every line is at least that deep |
| PrintTree.PrintChildren | main.py:64-66 | the loop prints only lines at the children's depth or deeper, and `visited` only grows |
| PrintTree.PrintSiteTree | main.py:48-58 | printing from the root starts with the root at depth 0 |
| PrintTree.OutlineAppend | main.py:64-66 | the printouts of two siblings at the same depth, one after the other, form one indented outline |
| PrintTree.OutlineUnder | main.py:56-66 | a page's line above the outline of its children one level deeper is an outline in which each child's line has the page's line as parent |
| PrintTree.PrintOutline | main.py:56-66 | `print_site_tree(t, u, depth, visited)` prints an indented outline: its own line at `depth`, then only deeper lines, each at most one level below the line before it and each with its parent line above it |
| PrintTree.PrintChildrenOutline | main.py:64-66 | the loop over the children prints an outline whose lines at the children's depth name those children |
| PrintTree.PrintSiteTreeHierarchy | main.py:48-66 | the printout is hierarchical: the root first at depth 0; every later line between 1 and one more than the line before it; each line at depth `e + 1` names a child, in the tree, of the nearest line above it at depth `e` |
| PrintTree.PrintOnce | main.py:56-66 | a walk prints each URL at most once, and prints exactly the URLs it adds to `visited` |
| PrintTree.PrintChildrenOnce | main.py:64-66 | the loop over children prints each URL at most once, exactly those it visits |
| PrintTree.PrintSiteTreeOnce | main.py:48-66 | the whole printout names each URL once, and names a URL exactly when it is reachable from the root through child lists |
| PrintTree.PrintVisitsAsExport | main.py:56-66 | printing and exporting from the same `visited` leave the same `visited` |
| PrintTree.PrintMatchesExport | main.py:48-86 | with duplicate-free child lists, a URL is expanded by the export exactly when it is printed and has no error marker |
| PrintTree.PrintCoversExport | main.py:48-86 | every URL the export expands is also printed |
| PageInfo.Attr | main.py:106 | `meta.get(name, default)`: the attribute's value when the tag has it, the default otherwise |
| PageInfo.MetaKey | main.py:106 | the key of a meta tag is `name`, else `property`, else `"unknown"` |
| PageInfo.MetaValue | main.py:106 | the value of a meta tag is `content`, else `"unknown"` |
| PageInfo.MetaDict | main.py:105-108 | the meta dict's keys are the tags' keys, once each, in order of first appearance |
| PageInfo.LastValue | main.py:105-108 | a key has a value exactly when some tag has that key |
| PageInfo.LastValueIsLast | main.py:105-108 | the value kept for a key is that of the last tag with the key |
| PageInfo.MetaLastWins | main.py:105-108 | looking a key up in the meta dict gives the value of the last tag with that key |
| PageInfo.ExtractPageInfo | main.py:89-121 | the record carries the URL; it is an error record exactly when fetching or parsing failed; otherwise it holds the tag texts and a meta dict whose keys are the distinct meta names in order of first appearance, each with the value of the last tag of that name |
| Tables.DisplayHtmlTables | main.py:141-163 | the meta table and the HTML table are exactly the rows of their specifications |
| Tables.MetaTable | main.py:146-150 | the nested loops append exactly the meta rows, page after page |
| Tables.HtmlTable | main.py:155-159 | the nested loops append exactly the HTML rows, page after page |
| Tables.AppendPageHtmlRows | main.py:157-159 | the rows of one page are appended tag after tag |
| Tables.AppendTagRows | main.py:158-159 | the rows of one tag are appended text after text |
| Tables.Texts | main.py:158 | `info.get(tag, [])`: a failed record, which has no tag keys, gives no texts |
| Tables.TextsOfTag | main.py:112-117 | for a fetched page, the `k`-th tag of `h1, h2, h3, span, p, label` reads the record's list of that tag's texts |
| Tables.PageMetaRows | main.py:148-150 | a page without a meta dict (a failed page) gives no meta rows |
| Tables.MetaRowsMembership | main.py:146-150 | a meta row is exactly an entry of the meta dict of a fetched page, labelled with that page |
| Tables.HtmlRowsMembership | main.py:155-159 | an HTML row is exactly a text of one of the six tags of a page, labelled with the page and the tag; failed pages give none |
| Tables.PageHtmlRowsMembership | main.py:157-159 | the rows of one page are exactly its texts of the six tags |
| Tables.PageHtmlRowsInTagOrder | main.py:157 | within a page, rows come in the tag order h1, h2, h3, span, p, label |
| Summarize.SummarizeData | main.py:194-195 | a text no longer than the limit is returned unchanged; a longer one becomes its first `limit` characters and `"..."`, of length `limit + 3`; with a negative limit, as in Python's slicing, the result is the text without its last `-limit` characters (or nothing, when the text is shorter), followed by `"..."`; the result is always the text or a prefix of it followed by `"..."` |
| Summarize.SummarizeIdempotent | main.py:194-195 | summarizing a summary with the same non-negative limit changes nothing |
| Summarize.SummarizeDefault | main.py:194 | with the default limit 1000, a text of at most 1000 characters is kept and a longer one becomes 1003 characters |

## Left out

- HTTP requests, `raise_for_status`, BeautifulSoup and `get_text(strip=True)`: foreign libraries. `Site.Web.fetch` stands for them in the crawl, and `PageInfo.Parsed` stands for them in `extract_page_info`.
- `urljoin` and `urlparse`: library URL handling, modelled as the uninterpreted functions `Web.resolve` and `Web.netloc`. They are total here. Any exception they raise inside the crawl's `try` would only add more error records, and the model does not give them that path separately.
- The order of `list(set(links))`: Python leaves it unspecified. The model keeps each link's first occurrence. Only the set of children and the absence of duplicates are claimed about it.
- Export.ExportExpandsExactlyOnce: requires duplicate-free child lists. When a child is listed twice, the comprehension's second `build_tree(child)` returns `{}` and overwrites the first value, so that child is never expanded. The crawl never stores such a list (`Export.CrawledTreeDistinct`).
- Crawler.ExtractSiteTree: `max_depth` defaults to 2 in the source. Here it is always an argument.
- `verify_urls_with_table`: a thread pool of HEAD requests feeding a pandas DataFrame.
- `analyze_images`: HEAD requests, plus float division and `round` of sizes.
- The OpenAI call in `send_to_gpt`, and the `str()` rendering of the data passed to `summarize_data`. `Summarize.SummarizeData` takes the text itself.
- `main`: orchestration, console output and `json.dump` to `site_tree.json`.
- The pandas DataFrames of `display_html_tables`: only the lists of rows are modelled.
- Console output of `print_site_tree`: `PrintTree.Print` returns the lines instead, and `PrintTree.Render` gives the text of one line.
- Python's recursion limit, which a very deep site tree would hit in `build_tree` and `print_site_tree`: the model's recursion is unbounded.
- The site tree handed to `print_site_tree` and `export_site_tree_as_json` is a `map`. Both only call `get` on it, so its key order does not matter to them.
