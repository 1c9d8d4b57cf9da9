/**
  * Link extraction (app.py:23-36): the raw `href` values of a page are
  * filtered, resolved against the page URL and reduced to clean URLs.
  */
module Links {
  import opened Wrappers
  import opened Urls

  /** Python's `str.startswith`. */
  predicate StartsWith(s: string, prefix: string)
  {
    |prefix| <= |s| && s[..|prefix|] == prefix
  }

  /** The filter of app.py:28: a non-empty href that is not a `javascript:`
      or `mailto:` link and not a same-page `#` anchor. */
  predicate IsCrawlableHref(href: string)
    ensures IsCrawlableHref(href) ==> href != "" && href[0] != '#'
    ensures href != "" && href[0] !in {'#', 'j', 'm'} ==> IsCrawlableHref(href)
  {
    href != "" && !StartsWith(href, "javascript:") && !StartsWith(href, "mailto:") && !StartsWith(href, "#")
  }

  /** The clean URL a kept href becomes: `urljoin` with the page URL, then
      `urlparse`, then the rebuild of app.py:32-34. */
  function CleanLink(baseUrl: string, href: string, join: (string, string) -> string, parse: string -> Url): string
  {
    CleanUrl(parse(join(baseUrl, href)))
  }

  /** The set `extract_links` returns for the hrefs of one page, in document
      order, found on the page at `baseUrl`: each kept href adds its clean link. */
  function ExtractLinks(hrefs: seq<string>, baseUrl: string, join: (string, string) -> string, parse: string -> Url)
    : set<string>
  {
    if hrefs == [] then {}
    else
      var earlier := ExtractLinks(hrefs[..|hrefs| - 1], baseUrl, join, parse);
      var href := hrefs[|hrefs| - 1];
      if IsCrawlableHref(href) then earlier + {CleanLink(baseUrl, href, join, parse)} else earlier
  }

  /** A string is an extracted link exactly when some kept href of the page
      cleans to it. */
  lemma {:induction false} ExtractLinksMembers(hrefs: seq<string>, baseUrl: string,
                                               join: (string, string) -> string, parse: string -> Url, l: string)
    ensures l in ExtractLinks(hrefs, baseUrl, join, parse) <==>
      exists i :: 0 <= i < |hrefs| && IsCrawlableHref(hrefs[i]) && CleanLink(baseUrl, hrefs[i], join, parse) == l
  {
    if hrefs != [] {
      var n := |hrefs| - 1;
      var front := hrefs[..n];
      ExtractLinksMembers(front, baseUrl, join, parse, l);
      if l in ExtractLinks(front, baseUrl, join, parse) {
        var i :| 0 <= i < |front| && IsCrawlableHref(front[i]) && CleanLink(baseUrl, front[i], join, parse) == l;
        assert hrefs[i] == front[i];
      }
      if exists i :: 0 <= i < |hrefs| && IsCrawlableHref(hrefs[i]) && CleanLink(baseUrl, hrefs[i], join, parse) == l {
        var i :| 0 <= i < |hrefs| && IsCrawlableHref(hrefs[i]) && CleanLink(baseUrl, hrefs[i], join, parse) == l;
        if i < n {
          assert front[i] == hrefs[i];
        }
      }
    }
  }

  /** A page gives at most one link per anchor. */
  lemma {:induction false} ExtractLinksSize(hrefs: seq<string>, baseUrl: string,
                                            join: (string, string) -> string, parse: string -> Url)
    ensures |ExtractLinks(hrefs, baseUrl, join, parse)| <= |hrefs|
  {
    if hrefs != [] {
      var front := hrefs[..|hrefs| - 1];
      ExtractLinksSize(front, baseUrl, join, parse);
      var earlier := ExtractLinks(front, baseUrl, join, parse);
      var l := CleanLink(baseUrl, hrefs[|hrefs| - 1], join, parse);
      assert |earlier + {l}| <= |earlier| + 1;
    }
  }

  /** Every link comes from some kept href of the page, so a page whose kept
      hrefs are among another's gives no link the other does not. */
  lemma ExtractLinksMonotone(x: seq<string>, y: seq<string>, baseUrl: string,
                             join: (string, string) -> string, parse: string -> Url)
    requires forall h :: h in x && IsCrawlableHref(h) ==> h in y
    ensures ExtractLinks(x, baseUrl, join, parse) <= ExtractLinks(y, baseUrl, join, parse)
  {
    forall l | l in ExtractLinks(x, baseUrl, join, parse)
      ensures l in ExtractLinks(y, baseUrl, join, parse)
    {
      ExtractLinksMembers(x, baseUrl, join, parse, l);
      ExtractLinksMembers(y, baseUrl, join, parse, l);
      var i :| 0 <= i < |x| && IsCrawlableHref(x[i]) && CleanLink(baseUrl, x[i], join, parse) == l;
      assert x[i] in y;
      var j :| 0 <= j < |y| && y[j] == x[i];
    }
  }

  /** Only the set of hrefs matters: neither their order nor how many anchors
      repeat one changes the result. */
  lemma ExtractLinksOnlySetMatters(x: seq<string>, y: seq<string>, baseUrl: string,
                                   join: (string, string) -> string, parse: string -> Url)
    requires forall h :: h in x <==> h in y
    ensures ExtractLinks(x, baseUrl, join, parse) == ExtractLinks(y, baseUrl, join, parse)
  {
    ExtractLinksMonotone(x, y, baseUrl, join, parse);
    ExtractLinksMonotone(y, x, baseUrl, join, parse);
  }

  /** An anchor repeated later on the page adds nothing: each clean URL is
      in the set once. */
  lemma ExtractLinksRepeatedAnchor(hrefs: seq<string>, i: nat, baseUrl: string,
                                   join: (string, string) -> string, parse: string -> Url)
    requires i < |hrefs|
    ensures ExtractLinks(hrefs + [hrefs[i]], baseUrl, join, parse) == ExtractLinks(hrefs, baseUrl, join, parse)
  {
    ExtractLinksOnlySetMatters(hrefs + [hrefs[i]], hrefs, baseUrl, join, parse);
  }

  /** An href the filter rejects contributes nothing, wherever it stands. */
  lemma ExtractLinksIgnoresRejected(a: seq<string>, href: string, b: seq<string>, baseUrl: string,
                                    join: (string, string) -> string, parse: string -> Url)
    requires !IsCrawlableHref(href)
    ensures ExtractLinks(a + [href] + b, baseUrl, join, parse) == ExtractLinks(a + b, baseUrl, join, parse)
  {
    var x, y := a + [href] + b, a + b;
    assert forall h :: h in x && IsCrawlableHref(h) ==> h in y;
    assert forall h :: h in y ==> h in x;
    ExtractLinksMonotone(x, y, baseUrl, join, parse);
    ExtractLinksMonotone(y, x, baseUrl, join, parse);
  }

  /** Every link is the clean form of what its href resolves to: when that
      resolution is well formed, the link decodes back to it without params
      and fragment, so the link's netloc is the resolved URL's netloc. */
  lemma ExtractedLinkDecodes(hrefs: seq<string>, baseUrl: string, join: (string, string) -> string,
                             parse: string -> Url, l: string)
    requires l in ExtractLinks(hrefs, baseUrl, join, parse)
    ensures exists i ::
              0 <= i < |hrefs| && IsCrawlableHref(hrefs[i]) && CleanLink(baseUrl, hrefs[i], join, parse) == l &&
              (WellFormed(parse(join(baseUrl, hrefs[i]))) ==>
                 Decode(l) == Some(parse(join(baseUrl, hrefs[i])).(params := "", fragment := "")))
  {
    ExtractLinksMembers(hrefs, baseUrl, join, parse, l);
    var i :| 0 <= i < |hrefs| && IsCrawlableHref(hrefs[i]) && CleanLink(baseUrl, hrefs[i], join, parse) == l;
    var u := parse(join(baseUrl, hrefs[i]));
    if WellFormed(u) {
      DecodeCleanUrl(u);
    }
  }
}
