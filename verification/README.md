# WebScraper bookkeeping, in Dafny

This project models the bookkeeping of the `WebScraper` class in `main.py`. The class is an
asyncio crawler. It fetches pages breadth-first from a seed address, and it extracts,
normalises and deduplicates their readable text. It then writes the text in framed records
to rotating output files. The model runs one step at a time, and each step is a method of a
Dafny class with the same fields:

- `visited`, the set of admitted URLs;
- `frontier`, the FIFO queue of `(url, depth)` work items;
- `htmlQueue`, the queue of fetched bodies waiting for the text processor;
- `uniqueTexts`, the set of records seen so far;
- `buffered`, the deque of records waiting for a flush;
- `currentFileIndex`, the number of the output file being written;
- `files`, the text of each output file, by index.

Two ghost fields record what a run has done:

- `records`, the records written to each file;
- `admittedLog`, every admitted URL in order.

The invariants are stated over these ghost fields.

Modules:

- `Whitespace`: `str.strip()`, `str.split()`, `' '.join(...)`, and the collapse
  `' '.join(s.split())`, over Python's whitespace characters. It proves the collapse's shape,
  idempotence and content preservation.
- `Output`: record framing, the rendering of records into a file, the size measurement
  and the rotation rule.
- `Links`: admission of a dequeued item, the href filter, and link discovery as a
  specification function (`Discover`). The frontier invariant and the queue-check finding
  are proved here.
- `Scraper`: the cleaning pipeline (`CleanedContent`) and the class `WebScraper`. Its methods
  are proved against the functions above, and they keep two invariants:
  - `CrawlInv`, under either evaluation of the "still queued" test (`check`):
    - the frontier is within capacity, and every depth is at least 1;
    - `visited` is exactly the set of admitted URLs;
    - no URL is admitted twice;
    - with the test evaluated on the queued URLs, the frontier is moreover duplicate-free
      and disjoint from `visited`.
  - `OutputInv`:
    - the records written or buffered are pairwise distinct and collapsed, and are exactly
      `uniqueTexts`;
    - each file holds the framed rendering of its records;
    - no file beyond the current index has been opened.
- `Wrappers` holds `Option`, and `Sequences` holds the `NoDups` predicate.

The collaborators are parameters, so the model makes no claim about their behaviour:

- `HtmlLib` carries:
  - `articleText`: readability's summary followed by BeautifulSoup's visible text. It is
    `None` on `ParserError`.
  - `hrefs`: the `href` of every anchor, `""` when an anchor has none.
- `UrlLib` carries:
  - `scheme`: `urlparse(...).scheme`. It is `None` when `urlparse` raises, which ends the
    link loop through the `except`.
  - `join`: `urljoin`.
- `Response` is the HTTP outcome. It is either a failure or a content type and a body.
- `sizes` are the byte sizes of the files matching the output pattern, measured after the
  write.

Two behaviours of the code are easy to misread. The model follows the code in both:

- The length threshold of `process_html` is applied to the stripped text before the
  collapse (main.py:79-80), not to the collapsed record. So an article of 21 or more
  characters whose collapse is shorter is still kept. `Scraper.ThresholdPrecedesCollapse`
  shows this.
- The rotation measure is the total size of every file matching `clean_scraped_data*.txt`
  (main.py:46). It is not the size of the current file. So once the cumulative output has
  reached the ceiling, every later flush advances the index again.

The seed item `(INITIAL_URL, 1)` is queued in `main()` (main.py:133). The model's constructor
queues it at construction, so the seeded state is the initial state.

## Model

| member | source | states |
|---|---|---|
| Whitespace.StripEmptyIffBlank | main.py:66-67 | `text.strip()` is empty exactly when every character of the text is whitespace |
| Whitespace.StripKeepsContent | main.py:77 | stripping removes whitespace only: the non-whitespace characters stay, in order |
| Whitespace.CollapseIsCollapsed | main.py:80 | the collapse has no leading or trailing whitespace, no two adjacent whitespace characters, and no whitespace other than `' '` |
| Whitespace.CollapseFixpoints | main.py:80 | the collapse leaves a text unchanged exactly when the text already has that shape |
| Whitespace.CollapseIdempotent | main.py:80 | collapsing twice gives the same text as collapsing once |
| Whitespace.CollapseKeepsContent | main.py:80 | the collapse keeps every non-whitespace character, in order, and adds none |
| Whitespace.CollapseEmptyIffBlank | main.py:80 | the collapse is empty exactly when the text is all whitespace |
| Whitespace.JoinSplitOfCollapsed | main.py:80 | in a collapsed text, splitting from a word start and joining with single spaces gives back the rest of the text |
| Whitespace.SplitFromKeepsContent | main.py:80 | the words `split()` returns hold exactly the non-whitespace characters of the text, in order |
| Whitespace.CollapseTwoWords | main.py:77-80 | two words around any run of whitespace: stripping changes nothing, and the collapse leaves one space |
| Output.RenderConcat | main.py:39-43 | appending records in two flushes gives the same file text as appending them all in one |
| Output.RenderLength | main.py:40-44 | the rendering is as long as the records together plus, per record, the two tokens and the newline |
| Output.FileSizeInMb | main.py:57-62 | the loop adds up every matching file's size and divides the total by 1024*1024 |
| Output.RotationInBytes | main.py:48 | comparing megabytes with 1000 is the same as comparing the byte total with 1000*1048576 |
| Output.AllRecordsAppendLast | main.py:38-43 | appending records to the file with the current index extends the file-after-file record sequence by exactly those records |
| Links.DiscoverOnlyAppendsFilteredLinks | main.py:110-118 | scanning the links only appends to the frontier, never beyond its capacity. Each appended item is `(urljoin(url, href), depth + 1)` for an href that passes the filter and resolves to an unvisited URL |
| Links.DiscoverFindsEveryLink | main.py:110-118 | when the scan reaches the end, every passing href resolves to a URL that is visited or queued afterwards, unless the frontier is full |
| Links.WellFormedPush | main.py:117-118 | pushing an unvisited, unqueued URL at depth at least 1 onto a frontier with room keeps it bounded, duplicate-free and disjoint from `visited` |
| Links.DiscoverKeepsFrontierBounded | main.py:112-118 | under either evaluation of the "still queued" test, link discovery keeps the frontier within capacity with every depth at least 1 |
| Links.DiscoverKeepsFrontierWellFormed | main.py:112-118 | with the check on queued URLs, link discovery keeps the frontier within capacity, duplicate-free, disjoint from `visited`, with every depth at least 1 |
| Links.QueueCheckAsWrittenNeverFires | main.py:98 | as written, `url in self.queue._queue` never holds, so admission reduces to the depth limit and the visited set |
| Links.AsWrittenQueuesDuplicate | main.py:117-118 | as written, a page linking to an already-queued URL queues it a second time; with the check on queued URLs the frontier is unchanged |
| Links.HeadAdmittedUnlessTooDeep | main.py:98-99 | in a well-formed frontier, the dequeued head passes admission exactly when it is within the depth limit |
| Scraper.CleanedContentKeptIff | main.py:66-79 | a fetched body yields a record exactly when it is not blank, the extraction succeeds, and the stripped article is longer than 20 characters |
| Scraper.BlankTextDropped | main.py:66-67 | a blank body yields no record, whatever the libraries would return |
| Scraper.CleanedContentIsNormalised | main.py:77-80 | every record is non-empty, collapsed, its own collapse, and has exactly the non-whitespace characters of its article |
| Scraper.ThresholdPrecedesCollapse | main.py:79-80 | the threshold applies to the stripped article, so two words around a long whitespace run are kept and collapse to a shorter record |
| Scraper.BufferKeepsOutputState | main.py:81-83 | adding an unseen collapsed record to the seen set and the buffer keeps the records pairwise distinct and equal to the seen set |
| Scraper.AppendKeepsFilesMatch | main.py:38-43 | appending the rendering of records to one file keeps every file equal to the rendering of its records |
| Scraper.FlushKeepsOutputState | main.py:38-43 | a flush empties the buffer, keeps the invariant, and extends the written records by exactly the buffered ones |
| Scraper.RotateKeepsOutputState | main.py:48-49 | moving to the next, unopened file keeps the invariant and changes nothing that is written |
| Scraper.SaveKeepsOutputState | main.py:36-49 | a whole save, with or without rotation, keeps the invariant and writes exactly the buffered records |
| Scraper.WebScraper.constructor | main.py:27-34 | the scraper starts with empty sets, queues and buffer, index 0 and no files. The frontier holds the seed at depth 1, as `main()` queues it at main.py:133 |
| Scraper.WebScraper.AppendBuffer | main.py:38-43 | opening the current file in append mode and draining the buffer oldest first leaves the buffer empty. The file becomes its old text, or nothing, followed by the framed records; no other file changes |
| Scraper.WebScraper.SaveToFile | main.py:36-49 | the buffer ends empty, and only the current file changes, gaining the framed records. The index rises by one exactly when the matching files hold at least 1000*1048576 bytes, the written records grow by exactly the buffered ones, and `OutputInv` is kept |
| Scraper.WebScraper.Keep | main.py:81-83 | an unseen record is added to `uniqueTexts` and to the end of the buffer; a seen record changes nothing. `OutputInv` is kept |
| Scraper.WebScraper.Remember | main.py:81-86 | what is written or buffered grows by the record exactly when it is unseen. Below 10 buffered records, no file and no index changes; at 10, the buffer is flushed into the current file and the index follows the byte ceiling |
| Scraper.WebScraper.ProcessHtml | main.py:64-86 | a dropped body changes nothing. Otherwise exactly `NewRecord` is appended to what is written or buffered, `uniqueTexts` grows by it, the buffer either grows by it or is flushed with it at 10 records, and the buffer stays below 10 |
| Scraper.WebScraper.ProcessNext | main.py:88-93 | takes the oldest body off the processing queue; the text state then changes exactly as `ProcessHtml` states for that body |
| Scraper.WebScraper.Take | main.py:126 | takes the head of the frontier, keeping the crawl invariant |
| Scraper.WebScraper.Fetch | main.py:95-121 | with the "still queued" test that `check` selects (as written or on the queued URLs), a too-deep, visited or queued URL changes nothing; otherwise `visited` gains exactly that URL. An HTML page has its body queued and its links discovered as `Discover` says; a failure or a non-HTML response queues nothing, yet the URL stays visited. `CrawlInv` is kept |
| Scraper.WebScraper.WorkerStep | main.py:123-128 | a worker iteration takes the head. With the test on queued URLs it is admitted exactly when within the depth limit; with the test as written, exactly when within the limit and unvisited. `visited`, the frontier and the body queue change as `Fetch` states, and no URL is ever admitted twice |

## Findings

| source | as written | input that shows it | evidently intended | confidence | as-written member | corrected member |
|---|---|---|---|---|---|---|
| main.py:98, main.py:117 | `url in self.queue._queue` tests a string against a deque of `(url, depth)` tuples, so it is always false. A discovered URL that is already queued, but not yet fetched, is queued again, and the frontier can hold duplicates | A frontier holding `("https://c", 2)`, then a page `https://a` at depth 1 linking to `https://c`: the frontier becomes `[("https://c", 2), ("https://c", 2)]` | Test the URL against the queued URLs, which keeps the frontier duplicate-free | high (not executed) | Links.AsWrittenQueuesDuplicate | Links.DiscoverKeepsFrontierWellFormed |

The class `WebScraper` takes the evaluation of the test as its constant `check`, so both
readings are modelled. Under either, no URL is admitted twice: `CrawlInv` keeps the admitted
URLs duplicate-free, because the visited set alone guarantees that.
`Links.QueueCheckAsWrittenNeverFires` proves that admission as written reduces to the depth
limit and `visited`. Only under the corrected reading is the frontier duplicate-free.

## Left out

- Networking: the aiohttp session, TCP connector, TLS flag and request headers are not
  modelled. The HTTP outcome is the `Response` parameter. An exception raised by the request
  or by reading the body is `Failed`.
- readability, `ParserError` and BeautifulSoup are not modelled. They are the functions in
  `HtmlLib`. BeautifulSoup's `href` of `None` is represented as `""`, which the filter drops
  in the same way.
- `urlparse` and `urljoin` are the functions in `UrlLib`. They are not reimplemented. Of the
  exceptions in the link loop, only the one from `urlparse` is modelled; it ends the loop
  early. An exception from `urljoin` is not modelled.
- `glob` and `os.path.getsize` are not modelled. The file sizes are the `sizes` input, and
  the model does not relate them to the modelled file texts. The texts are sequences of
  characters, not UTF-8 bytes.
- The size is an exact real rather than a Python float. For totals below 2^53 bytes the two
  agree, because the divisor is a power of two.
- Concurrency is not modelled: the semaphore, tasks, cancellation, `task_done`, `join`,
  `os.cpu_count` and the `main()` event loop. Each worker and processor iteration is one
  atomic step. The final `save_to_file()` at main.py:152 is `SaveToFile`.
- The blocking behaviour of `queue.get()` and `queue.put()` is not modelled. `Take` and
  `ProcessNext` require a non-empty queue. A put is reached only with room, after the
  capacity check at main.py:113.
- `print` output is not modelled (main.py:51-54, 73, 121).
- Output files left over from an earlier run are not modelled. The model starts with no
  files.
- Scraper.WebScraper.AppendBuffer: an `open` or `write` failure in `save_to_file`
  (main.py:39-44) is not modelled; the appending always succeeds. In the code such an
  exception propagates through `process_html` and `html_processor`, which have no `except`
  (main.py:88-93). The record already popped at main.py:42 is then lost, and
  `html_processing_queue.join()` at main.py:145 never returns.
- Scraper.CleanedContent: only `ParserError` is modelled, as `articleText` returning `None`.
  Any other exception raised by readability or BeautifulSoup (main.py:70-77) propagates out
  of the processor in the same way, and is not modelled.
- Scraper.WebScraper.Fetch: an exception raised by BeautifulSoup while parsing the links
  (main.py:110) is not modelled. In the code it comes after the body was queued at
  main.py:108, so the body is processed but no link is discovered.
