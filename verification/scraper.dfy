/**
 * The bookkeeping of the `WebScraper` object, one step at a time: admission
 * and link discovery on the crawl side, cleaning, deduplication, buffering,
 * flushing and rotation on the text side.
 */
module Scraper {
  import opened Wrappers
  import opened Sequences
  import opened Whitespace
  import opened Output
  import opened Links

  /** The HTML libraries the scraper calls: the visible text of readability's
      main-content summary (`None` when readability raises `ParserError`), and
      the `href` of every anchor in document order (`""` when an anchor has
      none, which the filter treats like an empty href). */
  datatype HtmlLib = HtmlLib(articleText: string -> Option<string>, hrefs: string -> seq<string>)

  /** The outcome of the HTTP GET: any exception, or the `content-type`
      header (`""` when absent) and the body decoded with replacement. */
  datatype Response = Failed | Page(contentType: string, body: string)

  /** The record that processing `text` yields, or `None` when it is dropped:
      blank input, a parser error, or an article whose stripped text has at
      most 20 characters. The length is measured before the collapse. */
  function CleanedContent(html: HtmlLib, text: string): Option<string> {
    if Strip(text) == [] then None
    else
      match html.articleText(text)
      case None => None
      case Some(article) =>
        var cleaned := Strip(article);
        if |cleaned| > 20 then Some(Collapse(cleaned)) else None
  }

  /** Every record is collapsed, non-empty, a fixpoint of the collapse, and has
      exactly the non-whitespace characters of the article it came from. */
  lemma CleanedContentIsNormalised(html: HtmlLib, text: string)
    requires CleanedContent(html, text).Some?
    ensures var c := CleanedContent(html, text).value;
      IsCollapsed(c) && c != [] && Collapse(c) == c
      && RemoveSpaces(c) == RemoveSpaces(html.articleText(text).value)
  {
    var article := html.articleText(text).value;
    var cleaned := Strip(article);
    CollapseIsCollapsed(cleaned);
    CollapseFixpoints(Collapse(cleaned));
    CollapseKeepsContent(cleaned);
    StripKeepsContent(article);
    StripEmptyIffBlank(cleaned);
    CollapseEmptyIffBlank(cleaned);
    StripEmptyIffBlank(Strip(cleaned));
  }

  /** A record is kept exactly when the input is not blank, the extraction
      succeeds, and the stripped article is longer than 20 characters. */
  lemma CleanedContentKeptIff(html: HtmlLib, text: string)
    ensures CleanedContent(html, text).Some? <==>
      !IsBlank(text) && html.articleText(text).Some?
      && |Strip(html.articleText(text).value)| > 20
  {
    StripEmptyIffBlank(text);
  }

  /** Blank input yields no record, whatever the libraries would say. */
  lemma BlankTextDropped(html: HtmlLib, text: string)
    requires IsBlank(text)
    ensures CleanedContent(html, text) == None
  {
    StripEmptyIffBlank(text);
  }

  /** The length threshold is applied to the stripped article, before the
      collapse: two words around a run of whitespace, 21 characters or more in
      all, are kept even when the record they collapse to is shorter. */
  lemma ThresholdPrecedesCollapse(html: HtmlLib, text: string, w1: string, gap: string, w2: string)
    requires IsToken(w1) && IsToken(w2) && gap != [] && IsBlank(gap)
    requires |w1 + gap + w2| > 20 && !IsBlank(text)
    requires html.articleText(text) == Some(w1 + gap + w2)
    ensures CleanedContent(html, text) == Some(w1 + " " + w2)
  {
    StripEmptyIffBlank(text);
    CollapseTwoWords(w1, gap, w2);
  }

  /** The record of a text that is processed, if it is new to `unique`. */
  function NewRecord(html: HtmlLib, text: string, unique: set<string>): seq<string> {
    match CleanedContent(html, text)
    case Some(c) => Unseen(c, unique)
    case None => []
  }

  /** A record, if it is new to `unique`. */
  function Unseen(c: string, unique: set<string>): seq<string> {
    if c in unique then [] else [c]
  }

  /** The distinct elements of `s`. */
  function Elements(s: seq<string>): set<string> {
    set t | t in s
  }

  /** The text an output file holds; a file that does not exist holds none. */
  function FileText(files: map<nat, string>, i: nat): string {
    if i in files then files[i] else []
  }

  /** Each output file holds the framed rendering of its records. */
  ghost predicate FilesMatch(files: map<nat, string>, records: map<nat, seq<string>>) {
    files.Keys == records.Keys
    && forall i :: i in files ==> files[i] == Render(records[i])
  }

  /** The text-side invariant, over the set of seen records, the buffered
      records, the current file index, the file texts and the records of each
      file: the records written or buffered are pairwise distinct, collapsed,
      and exactly the seen ones; each file holds the framed rendering of its
      records; no file beyond the current index has been opened. */
  ghost predicate OutputState(unique: set<string>, pending: seq<string>, index: nat,
                              files: map<nat, string>, records: map<nat, seq<string>>)
  {
    var emitted := AllRecords(records, index + 1) + pending;
    NoDups(emitted)
    && (forall t :: t in unique <==> t in emitted)
    && (forall t :: t in emitted ==> IsCollapsed(t))
    && FilesMatch(files, records)
    && (forall i :: i in records ==> i <= index)
  }

  /** Appending records to one file, and their rendering to its text, keeps
      the files matching their records. */
  lemma AppendKeepsFilesMatch(files: map<nat, string>, records: map<nat, seq<string>>,
                              index: nat, pending: seq<string>)
    requires FilesMatch(files, records)
    ensures FilesMatch(files[index := FileText(files, index) + Render(pending)],
                       records[index := RecordsOf(records, index) + pending])
  {
    RenderConcat(RecordsOf(records, index), pending);
  }

  /** Buffering a collapsed record that has not been seen keeps the invariant. */
  lemma BufferKeepsOutputState(unique: set<string>, pending: seq<string>, index: nat,
                               files: map<nat, string>, records: map<nat, seq<string>>, c: string)
    requires OutputState(unique, pending, index, files, records)
    requires c !in unique && IsCollapsed(c)
    ensures OutputState(unique + {c}, pending + [c], index, files, records)
  {
    var written := AllRecords(records, index + 1);
    NoDupsAppend(written + pending, c);
    assert written + (pending + [c]) == (written + pending) + [c];
  }

  /** Appending the buffered records to the current file keeps the invariant,
      empties the buffer, and extends what is written by exactly those records. */
  lemma FlushKeepsOutputState(unique: set<string>, pending: seq<string>, index: nat,
                              files: map<nat, string>, records: map<nat, seq<string>>)
    requires OutputState(unique, pending, index, files, records)
    ensures var records' := records[index := RecordsOf(records, index) + pending];
      OutputState(unique, [], index, files[index := FileText(files, index) + Render(pending)], records')
      && AllRecords(records', index + 1) == AllRecords(records, index + 1) + pending
  {
    var records' := records[index := RecordsOf(records, index) + pending];
    var files' := files[index := FileText(files, index) + Render(pending)];
    AllRecordsAppendLast(records, index, pending);
    assert AllRecords(records', index + 1) + [] == AllRecords(records, index + 1) + pending;
    AppendKeepsFilesMatch(files, records, index, pending);
  }

  /** Moving to the next file, which has not been opened, keeps the invariant
      and changes nothing that is written. */
  lemma RotateKeepsOutputState(unique: set<string>, index: nat,
                               files: map<nat, string>, records: map<nat, seq<string>>)
    requires OutputState(unique, [], index, files, records)
    ensures OutputState(unique, [], index + 1, files, records)
    ensures AllRecords(records, index + 2) == AllRecords(records, index + 1)
  {
    assert index + 1 !in records;
  }

  /** A whole save, whether or not it rotates, keeps the invariant and extends
      what is written by exactly the buffered records. */
  lemma SaveKeepsOutputState(unique: set<string>, pending: seq<string>, index: nat,
                             files: map<nat, string>, records: map<nat, seq<string>>, mb: real)
    requires OutputState(unique, pending, index, files, records)
    ensures var records' := records[index := RecordsOf(records, index) + pending];
      var files' := files[index := FileText(files, index) + Render(pending)];
      OutputState(unique, [], NextIndex(index, mb), files', records')
      && AllRecords(records', NextIndex(index, mb) + 1) == AllRecords(records, index + 1) + pending
  {
    FlushKeepsOutputState(unique, pending, index, files, records);
    if RotationDue(mb) {
      var records' := records[index := RecordsOf(records, index) + pending];
      var files' := files[index := FileText(files, index) + Render(pending)];
      RotateKeepsOutputState(unique, index, files', records');
    }
  }

  class WebScraper {
    const html: HtmlLib
    const urls: UrlLib
    /** `None` for no depth limit, as the scraper is configured. */
    const depthLimit: Option<nat>
    /** How the "URL is still queued" test is evaluated: as written, or on the
        queued URLs. */
    const check: Membership

    var visited: set<string>
    /** The frontier queue of `(url, depth)` items, head first. */
    var frontier: seq<WorkItem>
    /** The queue of fetched bodies awaiting processing, head first. */
    var htmlQueue: seq<string>
    var uniqueTexts: set<string>
    /** The deque of records awaiting a flush, oldest first. */
    var buffered: seq<string>
    var currentFileIndex: nat
    /** The text of the output file with each index. */
    var files: map<nat, string>

    /** The records written to each output file, in order. */
    ghost var records: map<nat, seq<string>>
    /** Every URL that passed admission, in order. */
    ghost var admittedLog: seq<string>

    /** The crawl-side invariant. Under either test: the frontier is within
        capacity with every depth at least 1, and the visited set is exactly
        the URLs admitted so far, each admitted once. With the test on queued
        URLs, the frontier is moreover duplicate-free and disjoint from
        `visited`. */
    ghost predicate CrawlInv()
      reads this`visited, this`frontier, this`admittedLog
    {
      Bounded(frontier) && NoDups(admittedLog)
      && (forall u :: u in visited <==> u in admittedLog)
      && (check == UrlMembership ==> WellFormed(frontier, visited))
    }

    /** Every record written so far, file after file. */
    ghost function Written(): seq<string>
      reads this`records, this`currentFileIndex
    {
      AllRecords(records, currentFileIndex + 1)
    }

    /** The text-side invariant, over the fields. */
    ghost predicate OutputInv()
      reads this`uniqueTexts, this`buffered, this`currentFileIndex, this`files, this`records
    {
      OutputState(uniqueTexts, buffered, currentFileIndex, files, records)
    }

    /** The state between two steps: both invariants, and fewer buffered
        records than the flush threshold. */
    ghost predicate Valid()
      reads this
    {
      CrawlInv() && OutputInv() && |buffered| < BUFFER_SIZE
    }

    /** The text side right after `pending` was flushed into the file with
        index `index` of `files0`: the buffer is empty, the file text has the
        framed records appended, and the index has advanced exactly when the
        matching files, of byte sizes `sizes`, reached the ceiling. */
    ghost predicate Flushed(files0: map<nat, string>, index: nat, pending: seq<string>, sizes: seq<nat>)
      reads this`buffered, this`files, this`currentFileIndex
    {
      && buffered == []
      && files == files0[index := FileText(files0, index) + Render(pending)]
      && currentFileIndex == index + (if Sum(sizes) >= MAX_FILE_SIZE_MB * BYTES_PER_MB then 1 else 0)
    }

    /** A fresh scraper with the seed item queued at depth 1. */
    constructor (html: HtmlLib, urls: UrlLib, depthLimit: Option<nat>, check: Membership)
      ensures Valid()
      ensures this.html == html && this.urls == urls && this.depthLimit == depthLimit
      ensures this.check == check
      ensures visited == {} && frontier == [WorkItem(INITIAL_URL, 1)] && htmlQueue == []
      ensures uniqueTexts == {} && buffered == [] && currentFileIndex == 0 && files == map[]
    {
      this.html, this.urls, this.depthLimit, this.check := html, urls, depthLimit, check;
      visited, htmlQueue := {}, [];
      uniqueTexts, buffered, currentFileIndex, files := {}, [], 0, map[];
      records, admittedLog := map[], [];
      frontier := [WorkItem(INITIAL_URL, 1)];
      new;
      assert Urls(frontier) == [INITIAL_URL];
    }

    // -------------------------------------------------------------------------
    // text side

    /** Drains the buffer into the file with index `index`, opened for
        appending (and so created when missing): each record, oldest first,
        is written framed by the start and end tokens and a newline. */
    method AppendBuffer(index: nat)
      modifies this`buffered, this`files
      ensures buffered == []
      ensures files == old(files)[index := FileText(old(files), index) + Render(old(buffered))]
    {
      ghost var pending, files0 := buffered, files;
      ghost var written: seq<string> := [];
      var text := FileText(files, index);
      while buffered != []
        invariant pending == written + buffered
        invariant text == FileText(files0, index) + Render(written)
        modifies this`buffered
        decreases |buffered|
      {
        var r := buffered[0];
        assert buffered == [r] + buffered[1..];
        buffered := buffered[1..];
        AppendFrame(FileText(files0, index), written, r);
        text := text + Frame(r);
        written := written + [r];
      }
      assert written == pending;
      files := files[index := text];
    }

    /** Flushes the buffer into the file with the current index, then advances
        the index when the measured size, `sizes` being the byte sizes of the
        matching files after the write, has reached the ceiling. */
    method SaveToFile(sizes: seq<nat>)
      requires OutputInv()
      modifies this`buffered, this`files, this`records, this`currentFileIndex
      ensures OutputInv()
      ensures Flushed(old(files), old(currentFileIndex), old(buffered), sizes)
      ensures Written() == old(Written()) + old(buffered)
    {
      ghost var pending, files0, records0, index0 := buffered, files, records, currentFileIndex;
      AppendBuffer(currentFileIndex);
      records := records[currentFileIndex := RecordsOf(records, currentFileIndex) + pending];
      var mb := FileSizeInMb(sizes);
      if mb >= MAX_FILE_SIZE_MB as real {
        currentFileIndex := currentFileIndex + 1;
      }
      SaveKeepsOutputState(uniqueTexts, pending, index0, files0, records0, mb);
      RotationInBytes(Sum(sizes));
      assert currentFileIndex == NextIndex(index0, mb);
    }

    /** Keeps a cleaned record unless it has been seen: records it as seen
        and appends it to the buffer. */
    method Keep(content: string)
      requires OutputInv() && IsCollapsed(content)
      modifies this`uniqueTexts, this`buffered
      ensures OutputInv()
      ensures uniqueTexts == old(uniqueTexts) + {content}
      ensures buffered == old(buffered) + Unseen(content, old(uniqueTexts))
    {
      if content !in uniqueTexts {
        BufferKeepsOutputState(uniqueTexts, buffered, currentFileIndex, files, records, content);
        uniqueTexts := uniqueTexts + {content};
        buffered := buffered + [content];
      }
    }

    /** Keeps a cleaned record unless it has been seen, then flushes when the
        buffer has reached `BUFFER_SIZE`. */
    method Remember(content: string, sizes: seq<nat>)
      requires Valid() && IsCollapsed(content)
      modifies this`uniqueTexts, this`buffered, this`files, this`records, this`currentFileIndex
      ensures Valid()
      ensures Written() + buffered == old(Written() + buffered) + Unseen(content, old(uniqueTexts))
      ensures uniqueTexts == old(uniqueTexts) + {content}
      ensures |old(buffered) + Unseen(content, old(uniqueTexts))| < BUFFER_SIZE ==>
        buffered == old(buffered) + Unseen(content, old(uniqueTexts))
        && files == old(files) && currentFileIndex == old(currentFileIndex)
      ensures |old(buffered) + Unseen(content, old(uniqueTexts))| == BUFFER_SIZE ==>
        Flushed(old(files), old(currentFileIndex), old(buffered) + [content], sizes)
    {
      ghost var emitted := Written() + buffered;
      Keep(content);
      assert Written() + buffered == emitted + Unseen(content, old(uniqueTexts));
      if |buffered| >= BUFFER_SIZE {
        SaveToFile(sizes);
        assert Written() + buffered == Written();
      }
    }

    /** Processes one fetched body: drops it when `CleanedContent` does, and
        otherwise remembers its record. */
    method ProcessHtml(text: string, sizes: seq<nat>)
      requires Valid()
      modifies this`uniqueTexts, this`buffered, this`files, this`records, this`currentFileIndex
      ensures Valid()
      ensures Written() + buffered == old(Written() + buffered) + NewRecord(html, text, old(uniqueTexts))
      ensures uniqueTexts == old(uniqueTexts) + Elements(NewRecord(html, text, old(uniqueTexts)))
      ensures |old(buffered) + NewRecord(html, text, old(uniqueTexts))| < BUFFER_SIZE ==>
        buffered == old(buffered) + NewRecord(html, text, old(uniqueTexts))
        && files == old(files) && currentFileIndex == old(currentFileIndex)
      ensures |old(buffered) + NewRecord(html, text, old(uniqueTexts))| == BUFFER_SIZE ==>
        Flushed(old(files), old(currentFileIndex), old(buffered) + NewRecord(html, text, old(uniqueTexts)), sizes)
    {
      if Strip(text) == [] {
        return;
      }
      var article := html.articleText(text);
      if article.None? {
        return;
      }
      var cleanedText := Strip(article.value);
      if |cleanedText| > 20 {
        var cleanedContent := Collapse(cleanedText);
        assert NewRecord(html, text, uniqueTexts) == Unseen(cleanedContent, uniqueTexts);
        CollapseIsCollapsed(cleanedText);
        Remember(cleanedContent, sizes);
      }
    }

    /** One iteration of the processing loop: takes the oldest fetched body off
        its queue and processes it. */
    method ProcessNext(sizes: seq<nat>) returns (text: string)
      requires Valid() && htmlQueue != []
      modifies this`htmlQueue, this`uniqueTexts, this`buffered, this`files, this`records, this`currentFileIndex
      ensures Valid()
      ensures text == old(htmlQueue[0]) && htmlQueue == old(htmlQueue[1..])
      ensures Written() + buffered == old(Written() + buffered) + NewRecord(html, text, old(uniqueTexts))
      ensures uniqueTexts == old(uniqueTexts) + Elements(NewRecord(html, text, old(uniqueTexts)))
      ensures |old(buffered) + NewRecord(html, text, old(uniqueTexts))| < BUFFER_SIZE ==>
        buffered == old(buffered) + NewRecord(html, text, old(uniqueTexts))
        && files == old(files) && currentFileIndex == old(currentFileIndex)
      ensures |old(buffered) + NewRecord(html, text, old(uniqueTexts))| == BUFFER_SIZE ==>
        Flushed(old(files), old(currentFileIndex), old(buffered) + NewRecord(html, text, old(uniqueTexts)), sizes)
    {
      text := htmlQueue[0];
      htmlQueue := htmlQueue[1..];
      ProcessHtml(text, sizes);
    }

    // -------------------------------------------------------------------------
    // crawl side

    /** Takes the head item off the frontier (a worker's `queue.get()`). */
    method Take() returns (item: WorkItem)
      requires CrawlInv() && frontier != []
      modifies this`frontier
      ensures CrawlInv()
      ensures item == old(frontier[0]) && frontier == old(frontier[1..])
    {
      item := frontier[0];
      frontier := frontier[1..];
      assert forall i :: 0 <= i < |frontier| ==> Urls(frontier)[i] == Urls(old(frontier))[i + 1];
    }

    /** Handles one dequeued item: admission, then, for an HTML response, the
        hand-off of the body and the discovery of its links, with the "still
        queued" test that `check` selects. */
    method Fetch(url: string, depth: nat, response: Response) returns (admitted: bool)
      requires CrawlInv()
      modifies this`visited, this`frontier, this`htmlQueue, this`admittedLog
      ensures CrawlInv()
      ensures admitted == Admits(check, depthLimit, url, depth, old(visited), old(frontier))
      ensures visited == if admitted then old(visited) + {url} else old(visited)
      ensures admittedLog == if admitted then old(admittedLog) + [url] else old(admittedLog)
      ensures !(admitted && response.Page? && IsHtml(response.contentType)) ==>
        frontier == old(frontier) && htmlQueue == old(htmlQueue)
      ensures admitted && response.Page? && IsHtml(response.contentType) ==>
        htmlQueue == old(htmlQueue) + [response.body]
        && frontier == Discover(check, urls, url, depth, html.hrefs(response.body),
                                visited, old(frontier)).frontier
    {
      if TooDeep(depthLimit, depth) || url in visited || Queued(check, url, frontier) {
        return false;
      }
      NoDupsAppend(admittedLog, url);
      visited := visited + {url};
      admittedLog := admittedLog + [url];
      if check == UrlMembership {
        assert WellFormed(frontier, visited) by {
          forall k | 0 <= k < |frontier| ensures frontier[k].url != url {
            assert Urls(frontier)[k] == frontier[k].url;
          }
        }
      }
      admitted := true;
      if response.Failed? || !IsHtml(response.contentType) {
        return;
      }
      var body := response.body;
      htmlQueue := htmlQueue + [body];
      var links := html.hrefs(body);
      ghost var start, seen, bodies, log := frontier, visited, htmlQueue, admittedLog;
      var i := 0;
      while i < |links|
        invariant 0 <= i <= |links|
        invariant visited == seen && htmlQueue == bodies && admittedLog == log
        invariant Discover(check, urls, url, depth, links[i..], visited, frontier)
               == Discover(check, urls, url, depth, links, visited, start)
      {
        var href := links[i];
        assert links[i..][0] == href && links[i..][1..] == links[i + 1..];
        if href != "" && !Contains(href, "javascript:") {
          if |frontier| < MAX_QUEUE_SIZE {
            var scheme := urls.scheme(href);
            if scheme.None? {
              // `urlparse` raised: the exception ends the loop
              break;
            }
            if scheme.value != "" && scheme.value != "mailto" {
              var full := urls.join(url, href);
              if full !in visited && !Queued(check, full, frontier) {
                frontier := frontier + [WorkItem(full, depth + 1)];
              }
            }
          }
        }
        i := i + 1;
      }
      assert links[|links|..] == [];
      DiscoverKeepsFrontierBounded(check, urls, url, depth, links, visited, start);
      if check == UrlMembership {
        DiscoverKeepsFrontierWellFormed(urls, url, depth, links, visited, start);
      }
    }

    /** One iteration of a worker: take the head item and handle it. With the
        test on queued URLs, the frontier is well formed, so the head passes
        admission exactly when it is within the depth limit; with the test as
        written, exactly when it is within the depth limit and unvisited. */
    method WorkerStep(response: Response) returns (item: WorkItem, admitted: bool)
      requires CrawlInv() && frontier != []
      modifies this`visited, this`frontier, this`htmlQueue, this`admittedLog
      ensures CrawlInv()
      ensures item == old(frontier[0])
      ensures check == UrlMembership ==> (admitted <==> !TooDeep(depthLimit, item.depth))
      ensures check == TupleMembership ==>
        (admitted <==> !TooDeep(depthLimit, item.depth) && item.url !in old(visited))
      ensures visited == if admitted then old(visited) + {item.url} else old(visited)
      ensures admittedLog == if admitted then old(admittedLog) + [item.url] else old(admittedLog)
      ensures !(admitted && response.Page? && IsHtml(response.contentType)) ==>
        frontier == old(frontier)[1..] && htmlQueue == old(htmlQueue)
      ensures admitted && response.Page? && IsHtml(response.contentType) ==>
        htmlQueue == old(htmlQueue) + [response.body]
        && frontier == Discover(check, urls, item.url, item.depth, html.hrefs(response.body),
                                visited, old(frontier)[1..]).frontier
    {
      if check == UrlMembership {
        HeadAdmittedUnlessTooDeep(depthLimit, visited, frontier);
      } else {
        QueueCheckAsWrittenNeverFires(depthLimit, frontier[0].url, frontier[0].depth, visited, frontier[1..]);
      }
      item := Take();
      admitted := Fetch(item.url, item.depth, response);
    }
  }
}
