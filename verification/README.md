# product-discoverer: the crawl core in Dafny

product-discoverer crawls every page of a web shop, breadth first from a root
URL. It keeps only links that stay on the shop's domain and survive a fixed
filter. It writes each newly discovered URL exactly once to a per-domain text
file. A small HTTP service wraps the crawl: it validates a batch of domains,
starts one crawl per domain, and serves the results file back by domain name.

This project models that core and proves what it guarantees:

- `Crawler`: the breadth-first crawl of `extract_product_urls_headless`, written
  as a class `Crawl`. Its fields are the FIFO `queue`, the `discovered` and
  `visited` sets, the `total_count` counter, the chunk buffer and the output
  file.
  - Each loop iteration is a method with a `while` loop over a page's anchors.
  - `flush_chunk` is a method.
  - The outer `while queue` loop is a method whose invariants prove:
    - every URL is written to the file exactly once, root first, in discovery order;
    - every discovered page is fetched exactly once, in the same order;
    - the crawl terminates on a finite web;
    - the result is closed under the page links;
    - every URL after the root is reached through a link from an earlier one.
- `LinkFilter`: the per-link filter and canonicaliser of the anchor loop, as a
  pure function `Canonicalize`, with the exact conditions under which it
  accepts a link.
- `Urls`: the `urllib.parse` behaviour the filter relies on.
  - Defined here: `geturl`/`urlunparse`, `parse_qs` grouping, and `urlencode(doseq=True)` with `quote_plus` and UTF-8 percent-escapes.
  - Taken as parameters: `urljoin`, `urlparse` and percent-decoding.
- `Text`, `Seqs`: the Python `str` operations the code uses (`strip`,
  `rstrip`, `lower`, `replace`, `split`, `join`, `in`), order-keeping
  de-duplication, and the one-URL-per-line layout of the results file.
- `Service`: the results file name (`crawl_domain_headless` and
  `download_results`), the crawl request for one domain, the download lookup,
  `ensure_protocol_and_www`, and the all-or-nothing verdict of
  `validate_domains`.

The web is a finite map from URL to the raw `href`s of the rendered page's
anchors, in document order. A URL outside the map is a fetch that produced no
HTML. The file system is a map from file name to contents. A reachability
probe is a function from URL to the outcome of a HEAD request.

The model follows the code exactly, including these points:

- `rstrip("/")` removes every trailing slash, not a single one.
- The netloc check removes every `www.`, not only a leading one.
- The query is re-encoded in order of first appearance of each name, with no
  sorting. The same fields in another order give a different URL (`Urls.QueryOrderMatters`).
- The file lists URLs in discovery order.

## Model

| member | source | states |
|---|---|---|
| Text.RStrip | product_discoverer.py:226 | `rstrip` keeps a prefix of its input and drops only characters of the set. What is left does not end in one, so every trailing `/` goes. |
| Text.StripIdempotent | product_discoverer.py:190 | Stripping an already stripped href changes nothing. |
| Text.Lower | product_discoverer.py:193 | `lower()` maps each character on its own and keeps the length (ASCII letters only). |
| Text.Replace | product_discoverer.py:153 | `replace` leaves a string that does not contain the pattern unchanged. |
| Text.Split | product_discoverer.py:260 | `split('.')` always yields at least one part, and no part holds the separator. |
| Text.JoinSplit | product_discoverer.py:260 | Joining the parts of a split with the separator gives the string back. |
| Seqs.DedupSpec | product_discoverer.py:229-233 | `Dedup` models the "append if not yet discovered" steps over a page's links. Appending its result keeps the order repetition-free, and it adds exactly the candidates that are new. |
| Seqs.DedupOrder | product_discoverer.py:229-233 | The links `Dedup` adds come out in the order of their first occurrence on the page. With `DedupSpec` this fixes its result completely. |
| Seqs.JoinedChunk | product_discoverer.py:160-162 | `"\n".join(chunk) + "\n"` writes exactly the chunk's lines when the chunk is non-empty. On an empty chunk it would write a blank line, which is why the guard is needed. |
| Seqs.SerializeAppend | product_discoverer.py:161-167 | Appending to the file concatenates the texts of the lines written. |
| Seqs.ReadBack | product_discoverer.py:161-167 | Splitting the file text at newlines gives back the lines written, then an empty remainder. |
| Urls.UnparseWithNetloc | product_discoverer.py:318-320 | `Unparse` models `geturl`/`urlunparse`. It writes a non-empty netloc right after `scheme:` as `//netloc`. |
| Urls.FragmentMarker | product_discoverer.py:216 | `#` occurs in `geturl()` exactly when it occurs in the head or the query, or there is a fragment. |
| Urls.QuotePlus | product_discoverer.py:225 | `quote_plus` outputs only unreserved characters, `%` and `+`. |
| Urls.GroupNames | product_discoverer.py:224 | `parse_qs` lists each name once, in order of first appearance. |
| Urls.GroupSpec | product_discoverer.py:224 | Each list of `parse_qs` holds every value of its name, in query order. |
| Urls.NormalizedQueryChars | product_discoverer.py:224-225 | `NormalizeQuery` models `urlencode(dict(parse_qs(q)), doseq=True)`. The normalised query holds only unreserved characters, `%`, `+`, `=` and `&`. In particular it has no `#` and no `/`. |
| Urls.TwoFieldsKeepOrder | product_discoverer.py:224-225 | Two plain fields with different names come out of the normalisation unchanged and in their original order. |
| Urls.QueryOrderMatters | product_discoverer.py:224-226 | The same two fields in the other order normalise to a different query. |
| LinkFilter.Resolve | product_discoverer.py:197-199 | When the `urljoin` result ends in `:`, exactly that one `:` is dropped; otherwise the result is unchanged. |
| LinkFilter.AcceptedLink | product_discoverer.py:190-226 | About `Canonicalize`/`Classify` (the filter) and `DomainNetloc` (lines 152-153). A link is accepted iff all of these hold: no `javascript:` prefix in any case; scheme `http` or `https`; the crawl's host inside the link's `www.`-free host; no excluded extension; no `#`; no excluded word. The accepted URL is the rebuilt URL, with no `#` and no trailing `/`. |
| LinkFilter.RebuildShape | product_discoverer.py:224-226 | Rebuilding a URL without `#` gives a string with no `#` that does not end in `/`. |
| LinkFilter.WhitespaceInsensitive | product_discoverer.py:190 | An href and its stripped form get the same verdict. |
| Crawler.KeptSpec | product_discoverer.py:189-226 | A URL is among the kept links exactly when some href's verdict accepts it. |
| Crawler.PageLinksSpec | product_discoverer.py:183-226 | About `PageLinks`. The links of a page are exactly the URLs the filter produces from its hrefs. A page without HTML has none. |
| Crawler.Crawl.StateFacts | product_discoverer.py:145-163 | In every state: visited ⊆ discovered; the queue holds discovered, unvisited URLs, each once; `total_count` = \|discovered\|; the root stays discovered. The file holds the discovery order except its last \|chunk\| URLs, which sit in the buffer. With chunk size ≥ 1 the buffer holds exactly `(|discovered| - 1) % chunk_size` URLs (the `Buffering` invariant). |
| Crawler.BufferedMod | product_discoverer.py:229-236 | The buffer count `Buffered(a, n)` that the flushing discipline keeps is `a % n`. |
| Crawler.Crawl.constructor | product_discoverer.py:145-167 | The queue and the discovered set hold only the root; nothing is visited; the count is 1; the buffer is empty; the file holds the root's line. The filter is `Canonicalize` for the root's `DomainNetloc`. |
| Crawler.Crawl.Flush | product_discoverer.py:158-163 | The buffered URLs are appended to the file lines and the buffer is emptied. The file text grows by `"\n".join(chunk) + "\n"`, or by nothing when the buffer is empty. |
| Crawler.Crawl.Offer | product_discoverer.py:229-236 | A URL is added iff it was not discovered. Then it joins the discovered set, the queue and the discovery order, and the count grows by one. If the buffer then reaches the chunk size, the file gains the old buffer and the URL and the buffer empties. Otherwise the URL joins the buffer and the file is unchanged. A known URL changes nothing. The buffer count invariant is kept. |
| Crawler.Crawl.Record | product_discoverer.py:229-233 | A new URL joins the discovered set, the end of the queue and the buffer, and the count grows by one. |
| Crawler.Crawl.VisitPage | product_discoverer.py:188-236 | The anchor loop appends to the discovery order and to the queue exactly the page's accepted links that were not yet discovered, in page order. The file only grows, and the buffer count invariant fixes how the new URLs split between file and buffer. |
| Crawler.Crawl.Step | product_discoverer.py:169-236 | One loop iteration pops the queue head, which was never visited, and marks it visited. The order and the queue grow by the page's new links, the file only grows, and the buffer count invariant is kept. A failed fetch leaves the discovered set, the buffer, the file and the count unchanged. |
| Crawler.Crawl.Advance | product_discoverer.py:169-236 | One iteration keeps what the crawl has established about the web and the buffer count invariant. It fetches the queue head, the next URL in discovery order, and marks it visited. The order and the queue grow by the page's new links, the file only grows, and fewer URLs remain to fetch. |
| Crawler.Crawl.Finished | product_discoverer.py:169 | When the queue is empty, every discovered URL has been fetched and the discovery order is closed under the page links. |
| Crawler.Crawl.Run | product_discoverer.py:169-239 | The `while queue` loop and the final flush terminate. The buffer ends empty and the file lists each discovered URL once, root first: its lines are exactly the discovered set, and every discovered URL was visited. The count equals the number of lines, pages are fetched in file order, and the lines are closed under links and justified. |
| Crawler.CrawlStep | product_discoverer.py:169-236 | Fetching the next page and appending its new links keeps every fetched page's links discovered. It keeps the order justified and finite, and shrinks what remains to fetch. |
| Crawler.ExtractProductUrls | product_discoverer.py:109-241 | The crawl returns the number of lines it wrote. The file starts at the root, has no repetition, is closed under the page links, and every later line is linked from an earlier one. |
| Crawler.LeastClosed | product_discoverer.py:169-236 | Any set holding the root and closed under links holds every URL of a justified order. So the crawl writes exactly the least such set. |
| Service.StemSpec | product_discoverer.py:258-262 | About `Stem`, from which `ResultsFile` (lines 263-265, 394) builds `<stem>.txt`. The file stem never holds a `.`. Without a `.` it is the whole scheme-less domain; otherwise it is the label right after the first `.`. |
| Service.StemOfLabels | product_discoverer.py:258-262 | Conversely, `a.b` followed by nothing or by `.…` has stem `b`. |
| Service.SecondLabel | product_discoverer.py:260 | The second part of `a.b…` split at `.` is `b`. |
| Service.CrawlDomain | product_discoverer.py:257-275 | The domain's results file is truncated and then holds the crawl's lines. The count, order and closure facts of the crawl carry over. |
| Service.DownloadResults | product_discoverer.py:387-398 | The results file is found iff its name is present, and is returned with its contents. Otherwise the status is 404. |
| Service.DownloadAfterCrawl | product_discoverer.py:258-262 | The crawl and the download compute the same file name, so the download finds what a crawl of the same domain string wrote. |
| Service.EnsureProtocolAndWwwSpec | product_discoverer.py:303-321 | About `EnsureProtocolAndWww`. The netloc always starts with `www.`, and an existing `www.` is kept. The netloc follows the scheme. A present scheme is kept; `https://www.` results when the prefixed URL parses as https. |
| Service.WithWwwIdempotent | product_discoverer.py:313-315 | Adding `www.` twice is adding it once. |
| Service.Normalized | product_discoverer.py:324 | Every domain is normalised, in request order. |
| Service.UnreachableSpec | product_discoverer.py:326-338 | The failures are exactly the normalised URLs whose HEAD request raised or answered with a status of 400 or more. |
| Service.ValidateDomainsSpec | product_discoverer.py:324-346 | About `ValidateDomains`. The batch passes iff every probe succeeds, and then returns the normalised URLs. Otherwise the status is 400 with exactly the failing URLs. |

## Left out

- Page rendering, scrolling and waiting in the headless browser (`fetch_html_headless`) and installing the browser (`ensure_playwright_installed`): foreign browser and subprocess calls. The rendered page is an entry of the `web` map.
- HTML parsing and anchor extraction: a foreign library. Each page is given directly as its raw hrefs in document order.
- `urljoin`, `urlparse` and percent-decoding (`unquote`): standard-library parsing taken as parameters (`Urls.UrlLib`). The model does not capture `urlparse` raising on malformed input.
- `urlunparse` follows the rule that writes `//` for schemes in the netloc list even when the netloc is empty. Newer Python versions differ only for an empty netloc.
- Case-insensitive matching (`lower()`, `re.IGNORECASE`) covers ASCII letters only; Unicode case folding is not modelled.
- Concurrency: the semaphore, the progress loader task and its cancellation, and the parallel HEAD requests. The crawl loop awaits each fetch before popping the next URL, so it is modelled as sequential.
- Network I/O of the HEAD requests: each request is a `probe` parameter returning a status or an exception.
- Service.ValidateDomains: lists the unreachable URLs in request order, whereas the source appends them as the concurrent checks complete, so only their set is modelled faithfully.
- Text.Replace: the contract states only that a string without the pattern is unchanged. The replacement in general is given by the definition alone.
- The FastAPI endpoints, `BackgroundTasks`, the `min_items=10` request validation and `FileResponse`: serving plumbing.
- The `OUTPUT_DIR` prefix and directory creation: file names are relative to the output directory.
- The max-concurrency parameter: the loop awaits each fetch, so it does not change the crawl.
- The max-scrolls count and the scroll wait: `fetch_html_headless` scrolls that many times to load more content, so both change the hrefs a page yields. They are folded into the `web` map, which gives the page as rendered.
- Newlines inside URLs: `Seqs.ReadBack` reads the file back only for lines without a newline. The crawl does not establish this, because `urlparse` is a parameter here (Python's `urlsplit` removes tab, CR and LF).
