# Sitemapper traversal engine in Dafny

A Dafny model of the core of Sitemapper (`sitemapper.py`). Sitemapper starts from one sitemap URL and walks the tree of nested sitemaps. It collects the page URLs every sitemap reports and appends them, filtered, to an output file.

The model covers three parts.

**The traversal engine** (`process_sitemaps_iteratively`) is modelled as the class `Traversal.Crawler`. It has these fields:
- a FIFO `queue` of sitemap URLs;
- the grow-only set `processed`;
- the page-URL accumulator `acc`;
- a ghost `output` sequence standing for the output file;
- a ghost `fetched` log of the order in which sitemaps reach the extractors.

`ProcessNext` is one loop iteration. `Drain` is the loop. `Run` is the loop plus the final flush. These are the proved facts:
- No sitemap reaches the extractors twice.
- The accumulator never exceeds 1000 URLs at the loop head.
- Every written URL passes both filters and was reported for a processed sitemap.
- Every page URL of a processed sitemap that passes both filters is written at least once.
- No written URL contains `?` or `javascript:void(0)`.
- On exit, `processed` is exactly the set of sitemaps reachable from the start, i.e. the least set that contains the start and is closed under nested references.

**The extractors** are modelled in `Extract`. Fetching is abstract. A page fetch yields either a request error or the two lists of regular-expression matches (the `<loc>` bodies and the `href` values). An index fetch yields either a request error or the list of nested sitemap matches. Over those lists, the model does what the source does:
- relative hrefs are resolved against `get_domain(url)`;
- rejected entries are skipped;
- the others are stripped;
- the result is deduplicated.

**The URL filters** (`filter_urls_by_domain`, `filter_in_files`) and a simplified `get_domain` are modelled in `UrlFilter`. The string primitives they use are in `Text`. The Python list-comprehension and set-iteration helpers are in `Collections`.

Three behaviours of the code are easy to misread; the model follows the code:
- `href.lstrip('/')` removes every leading slash, not just one (`Extract.RelativeHrefStripsAllSlashes`).
- An entry is rejected when it *contains* `javascript:void(0)`, *ends with* `#`, or contains `?`. It is not only rejected when it equals the anchor or is a bare `#`. The `#` test runs before stripping (`Extract.HashTestBeforeStrip`).
- Each sitemap is fetched twice: once with browser headers for the page URLs, once without for the nested sitemaps. The model therefore has two independent fetch functions, `pageFetch` and `indexFetch`. It does not assume that they return the same text.

## Model

| member | source | states |
|---|---|---|
| Text.StripLeft | sitemapper.py:35 | `lstrip`: the result is a suffix of the input; everything dropped satisfies the predicate; the first kept character does not |
| Text.Strip | sitemapper.py:46 | `strip()` returns a string that neither starts nor ends with a Python whitespace character |
| Text.StripRemovesOnlyWhitespace | sitemapper.py:46 | `strip()` returns the input minus a leading run and a trailing run of whitespace, and nothing else |
| Text.StripIdempotent | sitemapper.py:46 | stripping a stripped value changes nothing |
| Text.ContainsAt | sitemapper.py:41-43 | Python's `sub in s` holds exactly when `sub` is the slice of `s` at some position |
| Text.ContainedInSlice | sitemapper.py:41-46 | whatever occurs in a slice of a string occurs in the string |
| Text.StripContained | sitemapper.py:41-46 | whatever occurs in the stripped value already occurred in the entry before stripping |
| Collections.Filter | sitemapper.py:70 | a list comprehension with a condition keeps exactly the elements that satisfy it, and no more of them than the input holds |
| Collections.FilterConcat | sitemapper.py:70 | a comprehension filters each part of a list in place, preserving order |
| Collections.FilterNoDup | sitemapper.py:76 | filtering a list without duplicates yields a list without duplicates |
| Collections.Enumerate | sitemapper.py:49 | iterating over a set yields each element exactly once, in unspecified order |
| UrlFilter.FindAny | sitemapper.py:11 | the index of the first character from a given set, or the length when there is none |
| UrlFilter.Netloc | sitemapper.py:11-12 | the network location holds no `/`, `?` or `#` |
| UrlFilter.DomainShape | sitemapper.py:10-12 | every domain has the form `scheme://host`: its first `:` opens `://`, and the host after it holds no `/`, `?` or `#` |
| UrlFilter.DomainOfAbsoluteUrl | sitemapper.py:10-12 | for `scheme://host` followed by a path, query or fragment, `get_domain` is the lower-cased scheme, `://` and the host |
| UrlFilter.SchemeSplit | sitemapper.py:11 | a well-formed scheme is split off at its colon and lower-cased |
| UrlFilter.NetlocIsHost | sitemapper.py:11-12 | the network location after `//` runs up to the first `/`, `?` or `#` |
| UrlFilter.FilterUrlsByDomain | sitemapper.py:68-70 | keeps exactly the URLs that contain the domain as a substring, and keeps a duplicate-free list duplicate-free |
| UrlFilter.PassesFileFilter | sitemapper.py:74-76 | because the include tuple contains `''`, a URL passes the extension filter if and only if its lower-cased form does not end with `.xml` |
| UrlFilter.XmlSuffixAnyCase | sitemapper.py:75-76 | the lower-cased form ends with `.xml` exactly when the URL ends with a dot followed by x, m and l in any case |
| UrlFilter.FilterInFiles | sitemapper.py:72-76 | keeps exactly the URLs whose lower-cased form does not end with `.xml`, and keeps a duplicate-free list duplicate-free |
| UrlFilter.FilterForOutput | sitemapper.py:146 | the composed filters keep exactly the URLs that contain the domain and do not end with `.xml` |
| UrlFilter.DomainFilterIdempotent | sitemapper.py:68-70 | the domain filter applied twice equals the filter applied once |
| UrlFilter.FileFilterIdempotent | sitemapper.py:72-76 | the extension filter applied twice equals the filter applied once |
| UrlFilter.OutputFilterIdempotent | sitemapper.py:146 | the composed filter applied twice equals the filter applied once |
| UrlFilter.FiltersPreserveOrder | sitemapper.py:68-76 | both filters distribute over concatenation, so they preserve input order |
| Extract.Resolve | sitemapper.py:35 | an href starting with `http` is kept unchanged; any other href becomes the domain, one slash, and a remainder that does not start with a slash, is a suffix of the href, and follows only slashes in it |
| Extract.Candidates | sitemapper.py:29-35 | the `<loc>` bodies are used whenever there is one; only without any `<loc>` match are the hrefs used, one resolved value per href, `http` hrefs unchanged and the others under `domain/` |
| Extract.Rejected | sitemapper.py:40-44 | an entry is skipped exactly when it contains `javascript:void(0)`, ends with `#`, or contains the character `?` |
| Extract.CleanedMembers | sitemapper.py:37-46 | a value is produced by the cleaning loop if and only if it is the stripped form of an entry that is not rejected |
| Extract.CleanedStripped | sitemapper.py:46 | every value the cleaning loop produces is already stripped |
| Extract.CleanMatches | sitemapper.py:38-46 | the loop appends, in order, the stripped form of each entry not rejected |
| Extract.PageUrls | sitemapper.py:14-53 | a request error contributes no page URL |
| Extract.StrippedNeverQueried | sitemapper.py:40-46 | the stripped form of an entry that was not rejected contains neither `?` nor `javascript:void(0)` |
| Extract.CleanedNeverQueried | sitemapper.py:37-46 | no value the cleaning loop produces contains `?` or `javascript:void(0)` |
| Extract.QueryNeverReported | sitemapper.py:40-49 | no page URL reported for a sitemap contains `?` or `javascript:void(0)` |
| Extract.ExtractSitemapsFromIndex | sitemapper.py:55-66 | a request error yields no nested sitemap; otherwise the nested sitemaps are exactly the matches, in order |
| Extract.GetUrlsFromSource | sitemapper.py:14-53 | a request error yields `[]`; otherwise the result lists every cleaned URL exactly once, and nothing else |
| Extract.LocReported | sitemapper.py:29-49 | a `<loc>` body that is not rejected and has no surrounding whitespace is reported verbatim |
| Extract.HrefReported | sitemapper.py:29-49 | on a page without `<loc>` bodies, the resolved form of an href is reported when it is not rejected and has no surrounding whitespace |
| Extract.RelativeLinkReported | sitemapper.py:26-49 | a link `/rest` on a page at `scheme://host/...` without `<loc>` bodies puts `scheme://host/rest` among the page URLs when that value is not rejected and has no surrounding whitespace |
| Extract.StripSlashes | sitemapper.py:35 | `lstrip('/')` removes exactly the leading run of slashes |
| Extract.RelativeHrefStripsAllSlashes | sitemapper.py:35 | a relative href that starts with any number of slashes loses all of them before it is appended to the domain |
| Extract.RelativeHrefInDomain | sitemapper.py:35 | a resolved relative href contains the page's domain |
| Extract.StripHashSpace | sitemapper.py:46 | stripping `u + "# "` removes only the trailing space |
| Extract.HashTestBeforeStrip | sitemapper.py:40-46 | an entry ending in `#` followed by a space survives the `#` test, and the value returned for it ends in `#` |
| Extract.RelativeLinkOnSitemapPage | sitemapper.py:26-35 | a link `/rest` on a page at `scheme://host/...` resolves to `scheme://host/rest` |
| Traversal.Unvisited | sitemapper.py:139-141 | a nested sitemap is enqueued if and only if it is listed and not processed, and no more are enqueued than are listed |
| Traversal.NothingQueried | sitemapper.py:146-153 | when every written URL was reported for a processed sitemap, none contains `?` or `javascript:void(0)` |
| Traversal.InitialInv | sitemapper.py:115-122 | before the loop, with only the start queued and nothing processed, accumulated or written, every loop invariant holds |
| Traversal.UnvisitedSnoc | sitemapper.py:139-141 | each pass of the nested-sitemap loop enqueues the sitemap exactly when it is not processed |
| Traversal.LogSkip | sitemapper.py:127-128 | skipping a processed sitemap keeps the extraction log free of repeats, equal to the processed set, and the start processed or queued |
| Traversal.LogStep | sitemapper.py:125-131 | marking a new sitemap processed before extraction extends the log without creating a repeat |
| Traversal.ReachSkip | sitemapper.py:124-128 | after a skip, everything queued still lies in every closed set containing the start |
| Traversal.ReachStep | sitemapper.py:124-141 | after processing, everything processed or queued still lies in every closed set containing the start |
| Traversal.FrontierSkip | sitemapper.py:127-128 | after a skip, every nested sitemap of a processed sitemap is still processed or queued |
| Traversal.FrontierStep | sitemapper.py:131-141 | enqueueing the unprocessed nested sitemaps keeps every nested sitemap of a processed sitemap processed or queued |
| Traversal.OutputStep | sitemapper.py:134-148 | accumulating and the size test leave at most 1000 URLs; the output stays sound and complete |
| Traversal.FinalFlush | sitemapper.py:150-153 | the last flush writes every accumulated URL that passes both filters, and nothing else |
| Traversal.StaysWithin | sitemapper.py:124-141 | an iteration keeps the queue and the processed set inside a closed set, and either processes a new sitemap or shortens the queue |
| Traversal.Drained | sitemapper.py:124 | with an empty queue, the processed set is the least closed set containing the start, and everything written or accumulated came from a processed sitemap |
| Traversal.Crawler.constructor | sitemapper.py:115-122 | the initial state: the queue holds the start only; everything else is empty |
| Traversal.Crawler.WriteFiltered | sitemapper.py:146-147 | a flush appends each accumulated URL that passes both filters exactly once, and changes nothing else |
| Traversal.Crawler.EnqueueUnprocessed | sitemapper.py:138-141 | the queue is extended, in order, by the nested sitemaps that are not processed (repeats kept) |
| Traversal.Crawler.AccumulatePages | sitemapper.py:134-135 | the accumulator grows by exactly the page URLs reported for the sitemap |
| Traversal.Crawler.ProcessNext | sitemapper.py:124-148 | one iteration keeps the invariant. A processed sitemap is dropped with nothing else changed. Otherwise the sitemap joins the processed set and the log, its unprocessed nested sitemaps are enqueued, its page URLs are accumulated, and more than 1000 URLs are flushed and cleared |
| Traversal.Crawler.Drain | sitemapper.py:124-148 | the loop terminates inside a finite closed set, empties the queue, keeps the invariant, and only appends to the output |
| Traversal.Crawler.Run | sitemapper.py:115-153 | on exit, the processed set is exactly the set reachable from the start, and no sitemap was extracted twice. Every written URL passes both filters and came from a processed sitemap. Every such URL of a processed sitemap is written. No written URL contains `?` or `javascript:void(0)` |

## Left out

- HTTP: `session.get`, the request headers and `raise_for_status` become the `pageFetch` and `indexFetch` parameters. A failed request is their `RequestError` value.
- Traversal.Crawler.Run: neither request sets a timeout (sitemapper.py:23 and :58), so a server that accepts the connection and never answers blocks the crawl forever, even over a finite sitemap graph. `pageFetch` and `indexFetch` always return, and termination is proved only for fetches that return.
- The regular expressions (lines 29, 33, 62): their match lists are the contents of a successful fetch.
- `write_to_file`: the file becomes the ghost `output` sequence, one element per written line.
- `search_for_sitemap`, `search_for_sitemap_in_robots`, the `__main__` block and all logging: these are network and interactive I/O, outside the engine.
- Python set iteration order: it decides the order of lines within a flush and of `get_urls_from_source`'s result. The model picks an unspecified order (`Collections.Enumerate`), and every contract speaks of contents only.
- UrlFilter.GetDomain: models `urlsplit` for the scheme and the network location only. It covers leading C0/space removal, tab/CR/LF removal, the scheme rules, and the netloc up to `/`, `?` or `#`. It does not model the `ValueError`s `urlsplit` raises on some netlocs (Python 3.12 `urllib/parse.py`): unbalanced brackets; `_check_bracketed_netloc` (:439-467, called at :516) for text before `[`, anything but `:port` after `]`, or a bracketed host that is neither IPv6 nor IPvFuture; and `_checknetloc` (:421-436, called at :521) for a non-ASCII netloc whose NFKC normalisation contains `/`, `?`, `#`, `@` or `:`. In the source, `get_domain(url)` runs at sitemapper.py:26 only after `session.get(url)` at :23 has returned a response for the same URL. If that request raises a `requests.RequestException` instead, the `except` at :51 returns `[]`, as the model's `RequestError` does. If the request succeeds but `urlsplit` rejects the URL, the `ValueError` is not caught (the `except` at :51 catches only `RequestException`), so `process_sitemaps_iteratively` stops in the middle of the crawl and the URLs accumulated since the last flush are not written. The model gives every URL a domain and the crawl goes on.
- Text.Lower: lower-cases ASCII letters only. Full Unicode `str.lower` is not modelled. Only ASCII letters matter for the `.xml` test.
- Traversal.Crawler.Run: termination is proved only when a finite set (the ghost `universe`) contains the queue and the processed sitemaps and is closed under nested references. The source gives no such bound, and a server that generates endlessly many nested sitemaps makes it run forever.
- Traversal.Crawler.Run: states that each kept URL is written at least once. A URL can be written in several flushes, because the accumulator is cleared between flushes; the model allows this and does not count repetitions.
- Traversal.Crawler: `get_domain(starting_sitemap)` is computed once, in the constructor (the `domain` field). The source recomputes it at every flush from the same unchanging argument.
- Each sitemap is requested twice in the source. The model keeps two independent fetch functions. It does not model the responses differing between the two requests of one sitemap beyond that, e.g. depending on time.
