/**
 * The crawl-side rules of the scraper: which dequeued work items are admitted
 * for fetching, and which discovered links are pushed onto the frontier.
 */
module Links {
  import opened Wrappers
  import opened Sequences

  /** Capacity of the frontier queue. */
  const MAX_QUEUE_SIZE: nat := 5000000

  /** The seed address; it enters the frontier at depth 1. */
  const INITIAL_URL: string := "https://pl.wikipedia.org/wiki/J%C4%99zyk_programowania"

  /** A frontier entry: a URL and the depth at which it was discovered. */
  datatype WorkItem = WorkItem(url: string, depth: nat)

  /** The URL library the crawler relies on: the scheme that `urlparse` finds
      in an href (`None` when `urlparse` raises), and `urljoin`. */
  datatype UrlLib = UrlLib(scheme: string -> Option<string>, join: (string, string) -> string)

  /** Python's `part in s` for strings. */
  predicate Contains(s: string, part: string)
    decreases |s|
  {
    if |s| < |part| then false
    else s[..|part|] == part || Contains(s[1..], part)
  }

  /** The URLs of the frontier entries, in queue order. */
  function Urls(q: seq<WorkItem>): seq<string> {
    seq(|q|, i requires 0 <= i < |q| => q[i].url)
  }

  // ---------------------------------------------------------------------------
  // the "still queued" test

  /** The values Python compares when it evaluates `x in queue._queue`: the
      needle is a string and the queue holds `(url, depth)` tuples. */
  datatype PyValue = PyStr(s: string) | PyTuple(url: string, depth: int)

  function AsTuples(q: seq<WorkItem>): seq<PyValue> {
    seq(|q|, i requires 0 <= i < |q| => PyTuple(q[i].url, q[i].depth))
  }

  /** How the "URL is still queued" test is evaluated: `TupleMembership` is the
      test as written (a string looked up among tuples), `UrlMembership` the
      test on the queued URLs that the checks evidently mean. */
  datatype Membership = TupleMembership | UrlMembership

  predicate Queued(m: Membership, url: string, q: seq<WorkItem>) {
    match m
    case TupleMembership => PyStr(url) in AsTuples(q)
    case UrlMembership => url in Urls(q)
  }

  // ---------------------------------------------------------------------------
  // admission

  /** The depth limit is set and the item lies beyond it. */
  predicate TooDeep(limit: Option<nat>, depth: nat) {
    limit.Some? && depth > limit.value
  }

  /** A dequeued item passes admission unless it is too deep, its URL was
      visited, or its URL is still queued. */
  predicate Admits(m: Membership, limit: Option<nat>, url: string, depth: nat,
                   visited: set<string>, q: seq<WorkItem>) {
    !(TooDeep(limit, depth) || url in visited || Queued(m, url, q))
  }

  /** Responses whose content type does not mention `text/html` are dropped. */
  predicate IsHtml(contentType: string) {
    Contains(contentType, "text/html")
  }

  // ---------------------------------------------------------------------------
  // link discovery

  /** An href survives the filter: it is non-empty, holds no `javascript:`,
      and parses with a scheme that is neither empty nor `mailto`. */
  predicate LinkPasses(lib: UrlLib, href: string) {
    href != "" && !Contains(href, "javascript:")
    && lib.scheme(href).Some? && lib.scheme(href).value != "" && lib.scheme(href).value != "mailto"
  }

  /** The frontier after a scan of hrefs, and whether the scan reached the end
      (`urlparse` raising ends it early). */
  datatype Scan = Scan(frontier: seq<WorkItem>, finished: bool)

  /** The frontier that scanning `hrefs` of the page at `base`, found at
      `depth`, leaves behind, starting from frontier `q`. */
  function Discover(m: Membership, lib: UrlLib, base: string, depth: nat, hrefs: seq<string>,
                    visited: set<string>, q: seq<WorkItem>): Scan
    decreases |hrefs|
  {
    if hrefs == [] then Scan(q, true)
    else
      var href := hrefs[0];
      if href == "" || Contains(href, "javascript:") || |q| >= MAX_QUEUE_SIZE then
        Discover(m, lib, base, depth, hrefs[1..], visited, q)
      else
        match lib.scheme(href)
        case None => Scan(q, false)
        case Some(scheme) =>
          if scheme == "" || scheme == "mailto" then
            Discover(m, lib, base, depth, hrefs[1..], visited, q)
          else
            var full := lib.join(base, href);
            if full in visited || Queued(m, full, q) then
              Discover(m, lib, base, depth, hrefs[1..], visited, q)
            else
              Discover(m, lib, base, depth, hrefs[1..], visited, q + [WorkItem(full, depth + 1)])
  }

  /** What the frontier keeps under either reading of the "still queued" test:
      within capacity, every depth at least 1. */
  predicate Bounded(q: seq<WorkItem>) {
    |q| <= MAX_QUEUE_SIZE && forall i :: 0 <= i < |q| ==> q[i].depth >= 1
  }

  /** The frontier invariant under the test on queued URLs: bounded, no URL
      twice, no visited URL. */
  predicate WellFormed(q: seq<WorkItem>, visited: set<string>) {
    Bounded(q) && NoDups(Urls(q))
    && forall i :: 0 <= i < |q| ==> q[i].url !in visited
  }

  /** Link discovery only appends, never beyond capacity, and every appended
      item is `(urljoin(base, href), depth + 1)` for an href that survives the
      filter and whose resolved URL is not visited. */
  lemma {:induction false} DiscoverOnlyAppendsFilteredLinks(
      m: Membership, lib: UrlLib, base: string, depth: nat, hrefs: seq<string>,
      visited: set<string>, q: seq<WorkItem>)
    ensures var r := Discover(m, lib, base, depth, hrefs, visited, q).frontier;
      |q| <= |r| && r[..|q|] == q
      && (|q| <= MAX_QUEUE_SIZE ==> |r| <= MAX_QUEUE_SIZE)
      && forall k :: |q| <= k < |r| ==>
           r[k].depth == depth + 1 && r[k].url !in visited
           && exists h :: h in hrefs && LinkPasses(lib, h) && r[k].url == lib.join(base, h)
    decreases |hrefs|
  {
    if hrefs != [] {
      var href, rest := hrefs[0], hrefs[1..];
      var next := Discover(m, lib, base, depth, rest, visited, q);
      if href == "" || Contains(href, "javascript:") || |q| >= MAX_QUEUE_SIZE {
        DiscoverOnlyAppendsFilteredLinks(m, lib, base, depth, rest, visited, q);
      } else if lib.scheme(href).Some? {
        var scheme := lib.scheme(href).value;
        var full := lib.join(base, href);
        if scheme == "" || scheme == "mailto" || full in visited || Queued(m, full, q) {
          DiscoverOnlyAppendsFilteredLinks(m, lib, base, depth, rest, visited, q);
        } else {
          var q' := q + [WorkItem(full, depth + 1)];
          DiscoverOnlyAppendsFilteredLinks(m, lib, base, depth, rest, visited, q');
          var r := Discover(m, lib, base, depth, rest, visited, q').frontier;
          assert r[..|q'|] == q';
          assert r[..|q|] == q by { assert r[..|q|] == r[..|q'|][..|q|]; }
          assert r[|q|] == WorkItem(full, depth + 1) by { assert r[|q|] == r[..|q'|][|q|]; }
          assert LinkPasses(lib, href) && href in hrefs;
        }
      }
    }
  }

  /** Under either reading of the "still queued" test, link discovery keeps the
      frontier within capacity and every depth at least 1. */
  lemma DiscoverKeepsFrontierBounded(
      m: Membership, lib: UrlLib, base: string, depth: nat, hrefs: seq<string>,
      visited: set<string>, q: seq<WorkItem>)
    requires Bounded(q)
    ensures Bounded(Discover(m, lib, base, depth, hrefs, visited, q).frontier)
  {
    var r := Discover(m, lib, base, depth, hrefs, visited, q).frontier;
    DiscoverOnlyAppendsFilteredLinks(m, lib, base, depth, hrefs, visited, q);
    forall k | 0 <= k < |r| ensures r[k].depth >= 1 {
      if k < |q| {
        assert r[k] == r[..|q|][k];
      }
    }
  }

  /** Pushing an unvisited, unqueued URL at depth at least 1 onto a frontier
      with room keeps it well formed. */
  lemma WellFormedPush(q: seq<WorkItem>, visited: set<string>, item: WorkItem)
    requires WellFormed(q, visited) && |q| < MAX_QUEUE_SIZE
    requires item.url !in visited && item.url !in Urls(q) && item.depth >= 1
    ensures WellFormed(q + [item], visited)
  {
    assert Urls(q + [item]) == Urls(q) + [item.url];
    NoDupsAppend(Urls(q), item.url);
  }

  /** With the test on queued URLs, link discovery keeps the frontier well
      formed: bounded, duplicate-free, disjoint from `visited`, depths >= 1. */
  lemma {:induction false} DiscoverKeepsFrontierWellFormed(
      lib: UrlLib, base: string, depth: nat, hrefs: seq<string>,
      visited: set<string>, q: seq<WorkItem>)
    requires WellFormed(q, visited)
    ensures WellFormed(Discover(UrlMembership, lib, base, depth, hrefs, visited, q).frontier, visited)
    decreases |hrefs|
  {
    if hrefs != [] {
      var href, rest := hrefs[0], hrefs[1..];
      if href == "" || Contains(href, "javascript:") || |q| >= MAX_QUEUE_SIZE {
        DiscoverKeepsFrontierWellFormed(lib, base, depth, rest, visited, q);
      } else if lib.scheme(href).Some? {
        var scheme := lib.scheme(href).value;
        var full := lib.join(base, href);
        if scheme == "" || scheme == "mailto" || full in visited || full in Urls(q) {
          DiscoverKeepsFrontierWellFormed(lib, base, depth, rest, visited, q);
        } else {
          WellFormedPush(q, visited, WorkItem(full, depth + 1));
          DiscoverKeepsFrontierWellFormed(lib, base, depth, rest, visited, q + [WorkItem(full, depth + 1)]);
        }
      }
    }
  }

  /** Conversely, when the scan reaches the end, every href that survives the
      filter has its resolved URL visited or queued afterwards, unless the
      frontier is full. */
  lemma {:induction false} DiscoverFindsEveryLink(
      m: Membership, lib: UrlLib, base: string, depth: nat, hrefs: seq<string>,
      visited: set<string>, q: seq<WorkItem>)
    requires Discover(m, lib, base, depth, hrefs, visited, q).finished
    ensures var r := Discover(m, lib, base, depth, hrefs, visited, q).frontier;
      forall h :: h in hrefs && LinkPasses(lib, h) ==>
        lib.join(base, h) in visited || lib.join(base, h) in Urls(r) || |r| >= MAX_QUEUE_SIZE
    decreases |hrefs|
  {
    if hrefs != [] {
      var href, rest := hrefs[0], hrefs[1..];
      var r := Discover(m, lib, base, depth, hrefs, visited, q).frontier;
      var q' := if href == "" || Contains(href, "javascript:") || |q| >= MAX_QUEUE_SIZE
                   || lib.scheme(href).value == "" || lib.scheme(href).value == "mailto"
                   || lib.join(base, href) in visited || Queued(m, lib.join(base, href), q)
                then q else q + [WorkItem(lib.join(base, href), depth + 1)];
      assert Discover(m, lib, base, depth, hrefs, visited, q) == Discover(m, lib, base, depth, rest, visited, q');
      DiscoverFindsEveryLink(m, lib, base, depth, rest, visited, q');
      DiscoverOnlyAppendsFilteredLinks(m, lib, base, depth, rest, visited, q');
      assert r[..|q'|] == q';
      assert |r| >= |q|;
      forall h | h in hrefs && LinkPasses(lib, h)
        ensures lib.join(base, h) in visited || lib.join(base, h) in Urls(r) || |r| >= MAX_QUEUE_SIZE
      {
        if h !in rest {
          assert h == href;
          var full := lib.join(base, href);
          QueuedIsAmongUrls(m, full, q);
          if |q| < MAX_QUEUE_SIZE && full !in visited {
            if q' != q {
              assert q'[|q|].url == full;
              assert Urls(q')[|q|] == full;
            }
            var i :| 0 <= i < |q'| && q'[i].url == full;
            assert r[i] == r[..|q'|][i];
            assert Urls(r)[i] == full;
          }
        }
      }
    }
  }

  // ---------------------------------------------------------------------------
  // the test as written

  /** Under either reading, a URL found "still queued" is one of the queued URLs. */
  lemma QueuedIsAmongUrls(m: Membership, url: string, q: seq<WorkItem>)
    ensures Queued(m, url, q) ==> url in Urls(q)
  {
  }

  /** As written, the "still queued" test never holds: a string is never equal
      to a `(url, depth)` tuple. So admission reduces to the depth limit and
      the visited set. */
  lemma QueueCheckAsWrittenNeverFires(limit: Option<nat>, url: string, depth: nat,
                                      visited: set<string>, q: seq<WorkItem>)
    ensures !Queued(TupleMembership, url, q)
    ensures Admits(TupleMembership, limit, url, depth, visited, q)
        <==> !TooDeep(limit, depth) && url !in visited
  {
  }

  /** A page at depth 1 linking to a URL that is already queued: as written,
      the URL is queued a second time; with the test on queued URLs it is not. */
  lemma AsWrittenQueuesDuplicate()
    ensures var lib := UrlLib(h => Some("https"), (b, h) => h);
      var q := [WorkItem("https://c", 2)];
      var written := Discover(TupleMembership, lib, "https://a", 1, ["https://c"], {"https://a"}, q);
      var intended := Discover(UrlMembership, lib, "https://a", 1, ["https://c"], {"https://a"}, q);
      written.frontier == [WorkItem("https://c", 2), WorkItem("https://c", 2)]
      && !NoDups(Urls(written.frontier))
      && intended.frontier == q
  {
    var lib := UrlLib(h => Some("https"), (b, h) => h);
    var q := [WorkItem("https://c", 2)];
    assert !Contains("https://c", "javascript:");
    QueueCheckAsWrittenNeverFires(None, "https://c", 2, {"https://a"}, q);
    assert Urls(q) == ["https://c"];
    var r := Discover(TupleMembership, lib, "https://a", 1, ["https://c"], {"https://a"}, q).frontier;
    assert Urls(r)[0] == Urls(r)[1];
  }

  /** In a well-formed frontier the head's URL is neither visited nor queued
      behind it, so taking the head and admitting it at once admits it exactly
      when it is within the depth limit. */
  lemma HeadAdmittedUnlessTooDeep(limit: Option<nat>, visited: set<string>, q: seq<WorkItem>)
    requires WellFormed(q, visited) && q != []
    ensures Admits(UrlMembership, limit, q[0].url, q[0].depth, visited, q[1..])
        <==> !TooDeep(limit, q[0].depth)
  {
    assert Urls(q)[0] == q[0].url;
    forall j | 0 <= j < |q| - 1 ensures Urls(q[1..])[j] != q[0].url {
      assert Urls(q[1..])[j] == Urls(q)[j + 1];
    }
  }
}
