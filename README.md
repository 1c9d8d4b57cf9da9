# Same-domain link crawler, modelled in Dafny

The repository is a small Flask application (`app.py`) that crawls a web site
breadth-first, staying on the site's own netloc, and reports every page whose
HTML contains a given target URL. This project models the crawl engine of
`app.py` and proves what it guarantees:

- `Urls` — the record `urlparse` returns (`scheme`, `netloc`, `path`,
  `params`, `query`, `fragment`), the clean string the crawler builds from it
  (`scheme://netloc` + `path`, then `?query` only when the query is
  non-empty), and `Decode`, a parser that inverts that rebuild on well-formed
  URLs. A URL is well formed when `urlparse` would read its clean string back
  unchanged: a lower-case scheme opened by a letter, no `#`, tab or line
  break in any component, an ASCII netloc without brackets, and no `;` in
  the last path segment.
- `Links` — `extract_links`: the href filter (non-empty, not `javascript:`,
  `mailto:` or `#`), resolution against the page URL, the rebuild, and the
  collection into a set.
- `Pages` — `fetch` (text only on status 200, nothing on other statuses or
  on an exception) and Python's substring test `target_url in html`, the
  only way `app.py` matches the target (app.py:69).
- `Crawling` — the crawl loop of `crawler` as a `Crawler` class whose fields
  are the module-level state of `app.py`: the `progreso` counters `total`
  and `actual`, the `resultados` list and the `crawling_active` flag.
  The FIFO queue and the `visited` set are local variables of `Crawl`.
  `OfferLinks` is the inner loop that queues a page's new same-domain
  links. `ScanNext` is one turn of the loop. `Stop` is the body of the stop
  command.

Code the crawl calls but that is not modelled is passed in as functions.
These are the HTTP client's GET, the `a[href]` values the HTML parser finds
in a document, `urljoin` and `urlparse`. They live in the `Collaborators`
record. Whether a stop command has arrived after `n` pages is the oracle
`stopArrives(n)`. The crawl loop has no bound of its own. To prove that it
terminates, `Crawl` takes a ghost finite set `universe` that contains the
seed and is closed under same-domain links. This says the part of the site
reachable from the seed is finite. The set is never read by the code.

Proved about the crawl, at every loop head and at exit:
- the queue is FIFO: the scanned pages followed by the queue are exactly
  the URLs in the order they were queued;
- no URL is queued twice, and none is scanned twice;
- every queued URL has the seed's netloc;
- `actual` is the number of scanned pages, and `total == actual + |queue|`;
- `resultados` holds exactly the scanned pages whose text contains the
  target, in scan order;
- the order is breadth-first: each queued URL was first found on a page
  queued before it, and scanned no later than the page where the next
  queued URL was first found;
- only pages reachable from the seed by same-domain links are scanned;
- every same-domain link of a scanned page has been queued;
- the loop ends when the queue is empty or a stop has arrived, and the flag
  is cleared afterwards;
- a crawl that drains its queue has scanned every page that same-domain
  links lead to from the seed.

The duplicate check at app.py:56-57 (`if current_url in visited: continue`)
can never fire, because nothing already visited is ever in the queue.
`ScanNext` proves this as an assertion instead of modelling the branch.

## Model

| member | source | states |
|---|---|---|
| Urls.CleanUrl | app.py:32-34 | the clean string: `scheme://netloc`, then the path, then `?query` only when the query is non-empty; its properties are the lemmas below |
| Urls.Decode | app.py:31 | `urlparse` restricted to the clean strings of well-formed URLs: splits scheme, netloc, path and query; what it accepts has a lower-case scheme opened by a letter, nothing `urlparse` would split off or delete, and empty params and fragment |
| Urls.DecodeRefusesEmptyScheme | app.py:31 | a string opening with `://`, which `urlparse` reads as a bare path, is refused |
| Urls.DecodeRefusesUpperCaseScheme | app.py:31 | any string with an upper-case letter before its first `:`, whose scheme `urlparse` would lower-case, is refused |
| Urls.DecodeRefusesNonVerbatim | app.py:31-34 | the clean string of a URL holding params in its last path segment, a `#`, a tab or line break, or a bracket or non-ASCII character in its netloc is refused |
| Urls.DecodeSound | app.py:31-34 | any string `Decode` accepts is the clean form of a well-formed URL without params or fragment |
| Urls.DecodeCleanUrl | app.py:31-34 | decoding the clean string of a well-formed URL gives back its scheme, netloc, path and query; only params and fragment are lost |
| Urls.CleanUrlIdentity | app.py:32-35 | two well-formed URLs give the same clean string iff they agree on scheme, netloc, path and query, so the set keeps one entry per such URL |
| Urls.CleanUrlIdempotent | app.py:31-34 | parsing a clean URL and cleaning it again gives the same string |
| Urls.QueryMarkIffQuery | app.py:33-34 | a `?` appears in the clean string iff the query is non-empty |
| Urls.CleanUrlDropsParamsAndFragment | app.py:30-32 | changing params or fragment does not change the clean string |
| Links.IsCrawlableHref | app.py:28 | the href filter: a kept href is non-empty and does not start with `#`; every non-empty href that starts with anything other than `#`, `j` or `m` is kept |
| Links.ExtractLinks | app.py:23-36 | the set `extract_links` returns, built anchor by anchor; characterised by ExtractLinksMembers |
| Links.ExtractLinksSize | app.py:25-35 | a page gives at most one link per anchor |
| Links.ExtractLinksMembers | app.py:23-36 | a string is in the result iff some href of the page passes the filter and cleans to it |
| Links.ExtractLinksMonotone | app.py:26-35 | a page whose kept hrefs are among another page's hrefs yields a subset of the other page's links |
| Links.ExtractLinksOnlySetMatters | app.py:25-35 | the result depends only on the set of hrefs, not on their order or repetition |
| Links.ExtractLinksRepeatedAnchor | app.py:25-35 | repeating an anchor adds nothing: each clean URL is in the set once |
| Links.ExtractLinksIgnoresRejected | app.py:27-28 | an empty, `javascript:`, `mailto:` or `#` href contributes nothing, wherever it stands |
| Links.ExtractedLinkDecodes | app.py:29-35 | every link is the clean form of some kept href's resolution, and when that resolution is well formed the link decodes back to it without params and fragment |
| Pages.Fetch | app.py:14-21 | text is returned iff the GET gave a response with status 200, and it is that response's text |
| Pages.Contains | app.py:69 | `target_url in html` holds iff the target occurs in the text at some position |
| Pages.ContainsEmpty | app.py:69 | the empty target is in every text |
| Crawling.PageText | app.py:64-66 | the text the loop goes on with: `fetch`'s result unless it is nothing or empty |
| Crawling.PageTextOf | app.py:14-21 | the loop goes on with a page exactly when the GET answered status 200 with a non-empty body, and then with that body |
| Crawling.SameDomainLinks | app.py:78-81 | the extracted links of a page whose netloc is the base domain |
| Crawling.FailedPageOffersNothing | app.py:65-66 | a page whose fetch failed or came back empty offers no links |
| Crawling.Hits | app.py:69-70 | the reported pages among the scanned ones, in scan order; characterised by HitsMembers and HitsAppend |
| Crawling.HitsMembers | app.py:64-70 | a URL is reported iff it was scanned and its fetched text is non-empty and contains the target |
| Crawling.HitsAppend | app.py:69-70 | reports are only appended: scanning more pages keeps the earlier reports, in order, as a prefix |
| Crawling.OfferLinks | app.py:77-86 | the queue is kept as a prefix; a link is appended iff its netloc is the base domain and it is neither visited nor already queued; nothing is appended twice; the count added is the growth of the queue |
| Crawling.ScanKeepsLinksQueued | app.py:74-85 | after a scan, every same-domain link of every scanned page is in the queue or was scanned |
| Crawling.ScanKeepsBreadthFirst | app.py:53-85 | appending the new links of the page just scanned keeps the breadth-first order: every queued URL but the seed was first found on a scanned page queued before it, and these pages never go back in scan order |
| Crawling.ScanPreservesFrontier | app.py:53-86 | one loop turn (head scanned, new same-domain links appended) preserves the frontier invariant: seed first, no duplicates, same netloc as the seed, links queued, each URL found on a page queued before it, breadth-first |
| Crawling.QueuedIsReachable | app.py:77-85 | under the frontier invariant every queued or scanned URL is reachable from the seed by a path of same-domain links |
| Crawling.ScannedAreReachable | app.py:53-86 | under the frontier invariant every scanned page is reachable from the seed |
| Crawling.ScannedOnce | app.py:55-59 | under the frontier invariant no URL is scanned twice and no scanned URL is still queued |
| Crawling.DrainedCrawlReachesAll | app.py:52-86 | when the queue is empty, every page reachable from the seed by same-domain links has been scanned |
| Crawling.Crawler.constructor | app.py:10-12 | the initial state: counters zero, no results, not crawling |
| Crawling.Crawler.Stop | app.py:133-137 | the stop command clears the flag and changes nothing else |
| Crawling.Crawler.ScanNext | app.py:53-86 | the head is not yet visited and becomes visited and scanned; the rest of the queue stays a prefix, followed exactly by the page's new same-domain links; `actual` counts the scanned pages, `total` is scanned plus queued, results are the hits in scan order, and the frontier invariant is kept |
| Crawling.Crawler.Crawl | app.py:38-98 | at exit: the flag is false; `actual` is the number of scanned pages, `total == actual + \|queue\|` and `actual <= total`; results are exactly the hits in scan order; the frontier invariant holds; the queue is empty unless a stop arrived, and no stop arrived before the last scan; every scanned page is reachable from the seed |

## Left out

- Flask routes, templates and JSON responses (app.py:103-146) are request
  plumbing. The start guard at app.py:110-111 races with the spawned thread
  and is not a sequential rule.
- Threads, `asyncio.run` and `async`/`await` (app.py:100-101, 117-119) are
  left out. The loop body is sequential, and status polling that reads the
  counters mid-crawl is not modelled.
- The httpx client, its timeouts, redirects and TLS settings (app.py:14-21,
  51) are the `get` oracle. Its result is a status and text, or a failure.
- selectolax parsing and the `a[href]` selection (app.py:24-27) are the
  `anchors` oracle. It gives the href values in document order. An anchor
  whose href has no value is modelled as the empty href, which the filter
  drops.
- `urljoin` (RFC 3986, section 5.2) and `urlparse` are the `join` and `parse`
  oracles.
- Urls.Decode: it agrees with `urlparse` only on the clean strings of well-formed
  URLs, and refuses everything else. That agreement is read off CPython's
  `urlsplit`, which is not part of this model. IPv6 hosts in brackets are
  outside `WellFormed`, and so are non-ASCII netlocs, which `urlparse`
  refuses when their NFKC normalisation holds `/`, `?`, `#`, `@` or `:`.
- `print` logging and the progress message every 10 pages (app.py:62, 71,
  87, 90-91, 94, 97-98) are output only.
- The catch-all `except` (app.py:93-94) is not modelled. In the source an
  exception raised while scanning a page ends the whole crawl, not just that
  page. The model's oracles cannot raise, so the model has no such path.
- Crawling.Crawler.Crawl: `urlparse(site_url)` at app.py:48 runs before the
  `try` at app.py:50. A malformed seed such as `http://[::1` raises there,
  the `finally` never runs, and `crawling_active` stays true, so
  app.py:110-111 refuses every later start until a stop. The model's
  `ensures !active` does not cover that path.
- Crawling.Crawler.Crawl: termination needs the ghost `universe`, a finite
  set closed under same-domain links. A site whose reachable part is
  infinite is not covered.
- Crawling.Crawler.ScanNext: it needs the same finite `universe`, through
  `ClosedUnder` and the `u in universe` part of `FrontierInvariant`, so a
  loop turn on a site whose reachable part is infinite is not covered.
- Crawling.Crawler.Crawl: the stop command is the oracle `stopArrives`,
  polled at each loop head. A stop that arrives during a fetch is seen at the
  next loop head, as in the source.
- The seed URL is queued as given, without cleaning. A page reached later by
  its clean spelling is a different string and is scanned again. The model
  keeps this behaviour.
- Python's set iteration order in the inner loop (app.py:77) is arbitrary.
  `OfferLinks` takes links in any order. Its contract holds for every order.
- `codex_ayuda.py` is a single call to a hosted chat API and is not part of
  this model.
