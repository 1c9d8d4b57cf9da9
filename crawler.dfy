/**
  * The breadth-first, same-domain crawl of app.py:38-98: a FIFO queue of URLs
  * still to scan, the set of URLs already scanned, the progress counters, the
  * list of pages whose text contains the target URL and the flag that lets
  * the crawl be stopped.
  */
module Crawling {
  import opened Wrappers
  import opened Urls
  import opened Links
  import opened Pages

  /** The code the crawl calls but that is not modelled: the HTTP client's
      GET for each URL, the `a[href]` values the HTML parser finds in a
      document (in document order), and urllib's `urljoin` and `urlparse`. */
  datatype Collaborators = Collaborators(
    get: string -> Response,
    anchors: string -> seq<string>,
    join: (string, string) -> string,
    parse: string -> Url)

  /** The text the loop goes on with for a URL: what `fetch` returns, unless
      that is nothing or empty (app.py:64-66). */
  function PageText(c: Collaborators, url: string): Option<string>
  {
    var text := Fetch(c.get(url));
    if text.Some? && text.value != "" then text else None
  }

  /** The loop goes on with a page's text exactly when the GET answered with
      status 200 and a non-empty body (app.py:17-18, 65-66). */
  lemma PageTextOf(c: Collaborators, url: string)
    ensures PageText(c, url).Some? <==> c.get(url).Response? && c.get(url).status == 200 && c.get(url).text != ""
    ensures PageText(c, url).Some? ==> PageText(c, url).value == c.get(url).text
  {
  }

  /** The page at `url` is reported: its text contains the target URL
      (app.py:69). */
  predicate IsHit(c: Collaborators, target: string, url: string)
  {
    PageText(c, url).Some? && Contains(PageText(c, url).value, target)
  }

  /** The links extracted from the page at `url` (app.py:74). */
  function PageLinks(c: Collaborators, url: string): set<string>
  {
    if PageText(c, url).Some? then ExtractLinks(c.anchors(PageText(c, url).value), url, c.join, c.parse) else {}
  }

  /** The links of the page at `url` whose netloc is `domain` (app.py:78-81). */
  function SameDomainLinks(c: Collaborators, domain: string, url: string): set<string>
  {
    set l | l in PageLinks(c, url) && c.parse(l).netloc == domain
  }

  /** A page whose fetch failed or came back empty offers no links to the
      queue (the `continue` of app.py:65-66). */
  lemma FailedPageOffersNothing(c: Collaborators, domain: string, url: string)
    requires PageText(c, url).None?
    ensures SameDomainLinks(c, domain, url) == {}
  {
  }

  /** The reported pages among `pages`, in the order the pages were scanned. */
  function Hits(c: Collaborators, target: string, pages: seq<string>): seq<string>
  {
    if pages == [] then []
    else
      var last := pages[|pages| - 1];
      Hits(c, target, pages[..|pages| - 1]) + (if IsHit(c, target, last) then [last] else [])
  }

  /** A page is reported exactly when it was scanned and its text contains
      the target. */
  lemma {:induction false} HitsMembers(c: Collaborators, target: string, pages: seq<string>, u: string)
    ensures u in Hits(c, target, pages) <==> u in pages && IsHit(c, target, u)
  {
    if pages != [] {
      var front := pages[..|pages| - 1];
      HitsMembers(c, target, front, u);
      assert pages == front + [pages[|pages| - 1]];
    }
  }

  /** Reports are only ever appended: scanning more pages keeps the earlier
      reports, in order, as a prefix. */
  lemma {:induction false} HitsAppend(c: Collaborators, target: string, a: seq<string>, b: seq<string>)
    ensures Hits(c, target, a + b) == Hits(c, target, a) + Hits(c, target, b)
  {
    if b == [] {
      assert a + b == a;
    } else {
      var front := b[..|b| - 1];
      HitsAppend(c, target, a, front);
      assert (a + b)[..|a + b| - 1] == a + front;
      assert (a + b)[|a + b| - 1] == b[|b| - 1];
    }
  }

  predicate NoDuplicates(s: seq<string>)
  {
    forall i, j :: 0 <= i < j < |s| ==> s[i] != s[j]
  }

  lemma NoDuplicatesAppend(a: seq<string>, b: seq<string>)
    requires NoDuplicates(a) && NoDuplicates(b)
    requires forall x :: x in b ==> x !in a
    ensures NoDuplicates(a + b)
  {
    forall i, j | 0 <= i < j < |a + b| ensures (a + b)[i] != (a + b)[j] {
      if j >= |a| && i < |a| {
        assert (a + b)[j] in b;
      } else if i >= |a| {
        assert (a + b)[i] == b[i - |a|] && (a + b)[j] == b[j - |a|];
      }
    }
  }

  /** The inner loop of app.py:77-86 over the set of links of one page, in
      whatever order the set yields them: a link goes to the back of the
      queue iff its netloc is `domain` and it is neither visited nor already
      queued. Returns the new queue and how many links were added, by which
      the caller raises `total`. */
  method OfferLinks(links: set<string>, domain: string, parse: string -> Url,
                    visited: set<string>, queue: seq<string>)
    returns (newQueue: seq<string>, added: nat)
    ensures |queue| <= |newQueue| && newQueue[..|queue|] == queue
    ensures added == |newQueue| - |queue|
    ensures forall l :: l in newQueue[|queue|..] <==>
              l in links && parse(l).netloc == domain && l !in visited && l !in queue
    ensures NoDuplicates(newQueue[|queue|..])
  {
    newQueue, added := queue, 0;
    var rest := links;
    while rest != {}
      invariant rest <= links
      invariant |queue| <= |newQueue| && newQueue[..|queue|] == queue
      invariant added == |newQueue| - |queue|
      invariant forall l :: l in newQueue[|queue|..] <==>
                  l in links - rest && parse(l).netloc == domain && l !in visited && l !in queue
      invariant NoDuplicates(newQueue[|queue|..])
      decreases rest
    {
      var link :| link in rest;
      rest := rest - {link};
      if parse(link).netloc == domain && link !in visited && link !in newQueue {
        assert link !in queue && link !in newQueue[|queue|..];
        ghost var tail := newQueue[|queue|..];
        newQueue := newQueue + [link];
        added := added + 1;
        assert newQueue[..|queue|] == queue && newQueue[|queue|..] == tail + [link];
      }
    }
  }

  /** `l` is first found on the `j`-th scanned page: it is a same-domain link
      of that page and of no page scanned before it. */
  ghost predicate FirstFoundAt(c: Collaborators, domain: string, processed: seq<string>, l: string, j: nat)
  {
    j < |processed| && l in SameDomainLinks(c, domain, processed[j]) &&
    forall k :: 0 <= k < j ==> l !in SameDomainLinks(c, domain, processed[k])
  }

  /** Breadth-first order of `enqueued` (the seed, then every URL in the order
      it was queued): every URL but the seed was first found on the scanned
      page `parent[i]`, which was itself queued before it, and these pages
      never go back in scan order, so the links of an earlier page are all
      queued before those of a later one. */
  ghost predicate BreadthFirst(c: Collaborators, domain: string, processed: seq<string>,
                               enqueued: seq<string>, parent: seq<nat>)
  {
    |parent| == |enqueued| &&
    (forall i :: 1 <= i < |enqueued| ==>
       parent[i] < i && FirstFoundAt(c, domain, processed, enqueued[i], parent[i])) &&
    (forall i, j :: 1 <= i <= j < |enqueued| ==> parent[i] <= parent[j])
  }

  /** Every same-domain link of a page in `universe` is in `universe`: the
      part of the site reachable from the seed is finite. */
  ghost predicate ClosedUnder(c: Collaborators, domain: string, universe: set<string>)
  {
    forall p, l :: p in universe && l in SameDomainLinks(c, domain, p) ==> l in universe
  }

  /** Every same-domain link of a scanned page has been queued at some time. */
  ghost predicate LinksQueued(c: Collaborators, domain: string, processed: seq<string>, enqueued: seq<string>)
  {
    forall k, l :: 0 <= k < |processed| && l in SameDomainLinks(c, domain, processed[k]) ==> l in enqueued
  }

  /** What holds of the scanned pages and the queue at every loop head:
      the seed comes first, nothing is queued or scanned twice, everything is
      on the seed's netloc, every same-domain link of a scanned page has been
      queued, and the order is breadth-first. */
  ghost predicate FrontierInvariant(c: Collaborators, domain: string, universe: set<string>, seed: string,
                                    processed: seq<string>, queue: seq<string>, parent: seq<nat>)
  {
    var enqueued := processed + queue;
    |enqueued| >= 1 && enqueued[0] == seed &&
    NoDuplicates(enqueued) &&
    (forall u :: u in enqueued ==> u in universe && c.parse(u).netloc == domain) &&
    LinksQueued(c, domain, processed, enqueued) &&
    BreadthFirst(c, domain, processed, enqueued, parent)
  }

  /** `n` copies of `x`. */
  function Fill(n: nat, x: nat): seq<nat>
  {
    seq(n, _ => x)
  }

  lemma ScanKeepsLinksQueued(c: Collaborators, domain: string, processed: seq<string>, enqueued: seq<string>,
                             current: string, appended: seq<string>)
    requires LinksQueued(c, domain, processed, enqueued)
    requires current in enqueued
    requires forall l :: l in SameDomainLinks(c, domain, current) ==> l in enqueued || l in appended
    ensures LinksQueued(c, domain, processed + [current], enqueued + appended)
  {
    var processed' := processed + [current];
    forall k, l | 0 <= k < |processed'| && l in SameDomainLinks(c, domain, processed'[k])
      ensures l in enqueued + appended
    {
      if k < |processed| {
        assert processed'[k] == processed[k];
      }
    }
  }

  lemma ScanKeepsBreadthFirst(c: Collaborators, domain: string, processed: seq<string>, enqueued: seq<string>,
                              parent: seq<nat>, current: string, appended: seq<string>)
    requires BreadthFirst(c, domain, processed, enqueued, parent)
    requires LinksQueued(c, domain, processed, enqueued)
    requires |processed| < |enqueued|
    requires forall l :: l in appended ==> l in SameDomainLinks(c, domain, current) && l !in enqueued
    ensures BreadthFirst(c, domain, processed + [current], enqueued + appended,
                         parent + Fill(|appended|, |processed|))
  {
    var m := |processed|;
    var processed', enqueued' := processed + [current], enqueued + appended;
    var parent' := parent + Fill(|appended|, m);
    forall i | 1 <= i < |enqueued'|
      ensures FirstFoundAt(c, domain, processed', enqueued'[i], parent'[i])
    {
      if i < |enqueued| {
        assert enqueued'[i] == enqueued[i] && parent'[i] == parent[i];
        assert FirstFoundAt(c, domain, processed, enqueued[i], parent[i]);
        forall k | 0 <= k < parent[i] ensures processed'[k] == processed[k] { }
      } else {
        var l := enqueued'[i];
        assert l == appended[i - |enqueued|] && parent'[i] == m;
        forall k | 0 <= k < m ensures l !in SameDomainLinks(c, domain, processed'[k]) {
          assert processed'[k] == processed[k] && l !in enqueued;
          assert l in SameDomainLinks(c, domain, processed[k]) ==> l in enqueued;
        }
      }
    }
    forall i, j | 1 <= i <= j < |enqueued'| ensures parent'[i] <= parent'[j] {
      if i < |enqueued| {
        assert FirstFoundAt(c, domain, processed, enqueued[i], parent[i]);
        if j < |enqueued| {
          assert parent'[j] == parent[j];
        }
      }
    }
  }

  /** One turn of the loop keeps the frontier invariant: the head of the
      queue is scanned, and the same-domain links of its page that are
      neither scanned nor queued go to the back, first found there. */
  lemma ScanPreservesFrontier(c: Collaborators, domain: string, universe: set<string>, seed: string,
                              processed: seq<string>, queue: seq<string>, parent: seq<nat>,
                              appended: seq<string>)
    requires FrontierInvariant(c, domain, universe, seed, processed, queue, parent)
    requires ClosedUnder(c, domain, universe)
    requires queue != []
    requires forall l :: l in appended <==>
               l in SameDomainLinks(c, domain, queue[0]) && l !in processed + [queue[0]] && l !in queue[1..]
    requires NoDuplicates(appended)
    ensures FrontierInvariant(c, domain, universe, seed, processed + [queue[0]], queue[1..] + appended,
                              parent + Fill(|appended|, |processed|))
  {
    var current := queue[0];
    var enqueued := processed + queue;
    assert queue == [current] + queue[1..];
    assert processed + [current] + (queue[1..] + appended) == enqueued + appended;
    assert current in enqueued;
    assert forall l :: l in appended <==> l in SameDomainLinks(c, domain, current) && l !in enqueued;
    NoDuplicatesAppend(enqueued, appended);
    ScanKeepsLinksQueued(c, domain, processed, enqueued, current, appended);
    ScanKeepsBreadthFirst(c, domain, processed, enqueued, parent, current, appended);
  }

  /** `path` follows same-domain links from page to page. */
  ghost predicate LinkPath(c: Collaborators, domain: string, path: seq<string>)
  {
    forall i :: 0 <= i < |path| - 1 ==> path[i + 1] in SameDomainLinks(c, domain, path[i])
  }

  /** Same-domain links lead from the seed to `u`. */
  ghost predicate Reachable(c: Collaborators, domain: string, seed: string, u: string)
  {
    exists path :: |path| >= 1 && path[0] == seed && path[|path| - 1] == u && LinkPath(c, domain, path)
  }

  /** Every URL ever queued, and so every URL scanned, is reachable from the
      seed: it was found on a page queued before it. */
  lemma {:induction false} QueuedIsReachable(c: Collaborators, domain: string, universe: set<string>, seed: string,
                                            processed: seq<string>, queue: seq<string>, parent: seq<nat>, i: nat)
    requires FrontierInvariant(c, domain, universe, seed, processed, queue, parent)
    requires i < |processed + queue|
    ensures Reachable(c, domain, seed, (processed + queue)[i])
    decreases i
  {
    var enqueued := processed + queue;
    if i == 0 {
      assert LinkPath(c, domain, [seed]);
    } else {
      var j := parent[i];
      assert j < i && FirstFoundAt(c, domain, processed, enqueued[i], j);
      QueuedIsReachable(c, domain, universe, seed, processed, queue, parent, j);
      var path :| |path| >= 1 && path[0] == seed && path[|path| - 1] == enqueued[j] && LinkPath(c, domain, path);
      assert processed[j] == enqueued[j];
      var path' := path + [enqueued[i]];
      assert LinkPath(c, domain, path') by {
        forall k | 0 <= k < |path'| - 1 ensures path'[k + 1] in SameDomainLinks(c, domain, path'[k]) {
          if k < |path| - 1 {
            assert path'[k] == path[k] && path'[k + 1] == path[k + 1];
          }
        }
      }
      assert path'[0] == seed && path'[|path'| - 1] == enqueued[i];
    }
  }

  /** Only pages reachable from the seed are ever scanned. */
  lemma ScannedAreReachable(c: Collaborators, domain: string, universe: set<string>, seed: string,
                            processed: seq<string>, queue: seq<string>, parent: seq<nat>)
    requires FrontierInvariant(c, domain, universe, seed, processed, queue, parent)
    ensures forall u :: u in processed ==> Reachable(c, domain, seed, u)
  {
    forall u | u in processed ensures Reachable(c, domain, seed, u) {
      var i :| 0 <= i < |processed| && processed[i] == u;
      assert (processed + queue)[i] == u;
      QueuedIsReachable(c, domain, universe, seed, processed, queue, parent, i);
    }
  }

  /** Nothing is scanned twice, and nothing scanned is still queued. */
  lemma ScannedOnce(c: Collaborators, domain: string, universe: set<string>, seed: string,
                    processed: seq<string>, queue: seq<string>, parent: seq<nat>)
    requires FrontierInvariant(c, domain, universe, seed, processed, queue, parent)
    ensures NoDuplicates(processed)
    ensures forall u :: u in processed ==> u !in queue
  {
    var enqueued := processed + queue;
    forall i, j | 0 <= i < j < |processed| ensures processed[i] != processed[j] {
      assert processed[i] == enqueued[i] && processed[j] == enqueued[j];
    }
    forall u | u in processed ensures u !in queue {
      var i :| 0 <= i < |processed| && processed[i] == u;
      forall j | 0 <= j < |queue| ensures queue[j] != u {
        assert enqueued[i] == u && enqueued[|processed| + j] == queue[j];
      }
    }
  }

  /** A crawl that ran until its queue was empty has scanned every page that
      same-domain links lead to from the seed. */
  lemma {:induction false} DrainedCrawlReachesAll(c: Collaborators, domain: string, universe: set<string>,
                                                 seed: string, processed: seq<string>, parent: seq<nat>,
                                                 path: seq<string>)
    requires FrontierInvariant(c, domain, universe, seed, processed, [], parent)
    requires |path| >= 1 && path[0] == seed && LinkPath(c, domain, path)
    ensures path[|path| - 1] in processed
  {
    assert processed + [] == processed;
    if |path| == 1 {
      assert processed[0] == seed;
    } else {
      var front := path[..|path| - 1];
      assert LinkPath(c, domain, front) by {
        forall i | 0 <= i < |front| - 1 ensures front[i + 1] in SameDomainLinks(c, domain, front[i]) {
          assert front[i] == path[i] && front[i + 1] == path[i + 1];
        }
      }
      DrainedCrawlReachesAll(c, domain, universe, seed, processed, parent, front);
      var k :| 0 <= k < |processed| && processed[k] == front[|front| - 1];
      assert path[|path| - 1] in SameDomainLinks(c, domain, processed[k]);
    }
  }

  /** The module-level state of app.py (app.py:10-12): the progress counters
      `total` and `actual`, the list of reported pages and the flag that keeps
      the crawl running. */
  class Crawler {
    var total: int
    var actual: int
    var results: seq<string>
    var active: bool

    constructor ()
      ensures total == 0 && actual == 0 && results == [] && !active
    {
      total, actual, results, active := 0, 0, [], false;
    }

    /** The stop command (app.py:136): clear the flag and nothing else. */
    method Stop()
      modifies this`active
      ensures !active
    {
      active := false;
    }

    /** One turn of the loop of app.py:53-86: take the head of the queue,
        mark it visited and count it, fetch it, report it when its text
        contains the target, and queue its new same-domain links. The ghost
        parameters carry the scan history the loop invariant speaks of. */
    method ScanNext(c: Collaborators, targetUrl: string, domain: string, ghost universe: set<string>,
                    ghost seed: string, visited: set<string>, queue: seq<string>,
                    ghost processed: seq<string>, ghost parent: seq<nat>)
      returns (visited': set<string>, queue': seq<string>, ghost processed': seq<string>, ghost parent': seq<nat>)
      requires queue != []
      requires FrontierInvariant(c, domain, universe, seed, processed, queue, parent)
      requires ClosedUnder(c, domain, universe)
      requires forall u :: u in visited <==> u in processed
      requires actual == |processed| && total == |processed| + |queue|
      requires results == Hits(c, targetUrl, processed)
      modifies this`actual, this`total, this`results
      ensures queue[0] !in visited && visited' == visited + {queue[0]}
      ensures processed' == processed + [queue[0]]
      ensures |queue'| >= |queue| - 1 && queue'[..|queue| - 1] == queue[1..]
      ensures forall l :: l in queue'[|queue| - 1..] <==>
                l in SameDomainLinks(c, domain, queue[0]) && l !in visited' && l !in queue[1..]
      ensures FrontierInvariant(c, domain, universe, seed, processed', queue', parent')
      ensures forall u :: u in visited' <==> u in processed'
      ensures actual == |processed'| && total == |processed'| + |queue'|
      ensures results == Hits(c, targetUrl, processed')
    {
      var current := queue[0];
      queue' := queue[1..];
      // The check of app.py:56-57 never fires: nothing visited is queued.
      assert current !in visited by {
        ScannedOnce(c, domain, universe, seed, processed, queue, parent);
      }
      visited' := visited + {current};
      actual := actual + 1;
      processed' := processed + [current];
      assert processed'[..|processed'| - 1] == processed;
      var added := 0;
      var text := Fetch(c.get(current));
      if text.Some? && text.value != "" {
        if Contains(text.value, targetUrl) {
          results := results + [current];
        }
        var links := ExtractLinks(c.anchors(text.value), current, c.join, c.parse);
        assert links == PageLinks(c, current);
        queue', added := OfferLinks(links, domain, c.parse, visited', queue');
        total := total + added;
      }
      assert results == Hits(c, targetUrl, processed') by {
        assert PageText(c, current) == if text.Some? && text.value != "" then text else None;
      }
      ghost var appended := queue'[|queue| - 1..];
      assert queue' == queue'[..|queue| - 1] + appended;
      assert total == |processed'| + |queue'|;
      assert forall l :: l in appended <==>
               l in SameDomainLinks(c, domain, current) && l !in processed' && l !in queue[1..];
      parent' := parent + Fill(|appended|, |processed|);
      ScanPreservesFrontier(c, domain, universe, seed, processed, queue, parent, appended);
    }

    /** `crawler(site_url, target_url)`. The HTTP client, the HTML parser and
        urllib are `c`; `stopArrives(n)` says whether a stop command has
        cleared the flag by the time the loop head is reached with `n` pages
        scanned. `universe` is a finite set that holds the seed and every
        same-domain link of its pages; it bounds the crawl and is never read.
        The ghost results are the scanned URLs in scan order, the URLs still
        queued at the end and, for each queued URL, the scanned page it was
        first found on. */
    method Crawl(siteUrl: string, targetUrl: string, c: Collaborators, stopArrives: nat -> bool,
                 ghost universe: set<string>)
      returns (ghost processed: seq<string>, ghost pending: seq<string>, ghost parent: seq<nat>)
      requires siteUrl in universe && ClosedUnder(c, c.parse(siteUrl).netloc, universe)
      modifies this
      ensures !active
      ensures actual == |processed| && total == actual + |pending| && actual <= total
      ensures results == Hits(c, targetUrl, processed)
      ensures FrontierInvariant(c, c.parse(siteUrl).netloc, universe, siteUrl, processed, pending, parent)
      ensures pending == [] || stopArrives(|processed|)
      ensures forall k :: 0 <= k < |processed| ==> !stopArrives(k)
      ensures forall u :: u in processed ==> Reachable(c, c.parse(siteUrl).netloc, siteUrl, u)
    {
      active := true;
      var visited: set<string> := {};
      var queue := [siteUrl];
      results := [];
      total := 1;
      actual := 0;
      var domain := c.parse(siteUrl).netloc;
      processed, parent := [], [0];
      if stopArrives(0) {
        Stop();
      }
      while queue != [] && active
        invariant FrontierInvariant(c, domain, universe, siteUrl, processed, queue, parent)
        invariant forall u :: u in visited <==> u in processed
        invariant actual == |processed| && total == |processed| + |queue|
        invariant results == Hits(c, targetUrl, processed)
        invariant active == !stopArrives(|processed|)
        invariant forall k :: 0 <= k < |processed| ==> !stopArrives(k)
        decreases universe - visited
      {
        assert queue[0] in processed + queue;
        visited, queue, processed, parent :=
          ScanNext(c, targetUrl, domain, universe, siteUrl, visited, queue, processed, parent);
        if stopArrives(actual) {
          Stop();
        }
      }
      active := false;
      pending := queue;
      ScannedAreReachable(c, domain, universe, siteUrl, processed, pending, parent);
    }
  }
}
