/** The listing crawler (`scrape_screener_data`). The site is a sequence of
    page records, one per result page reached by following "Next"; each
    record says what the browser would report on that page. The downloader
    is represented by what each call of it does (returns a flag or raises),
    since only its logging depends on that. */
module Crawler {
  import opened Text
  import Concalls

  const BASE_SCREENER_URL := "https://www.screener.in"

  /** What `query_selector` and the visibility checks report for one of the
      "Next" selectors, in the order the selectors are tried. */
  datatype Candidate = Candidate(present: bool, visible: bool, enabled: bool)

  predicate Usable(c: Candidate)
  {
    c.present && c.visible && c.enabled
  }

  /** Clicking "Next" and waiting for the DOM content of the next page. */
  datatype Click = Loaded | LoadTimeout | ClickError

  /** One result page: whether the wait for a table row times out, the
      href attributes of the company anchors in the first column, the "Next"
      candidates, and what clicking the chosen one does. */
  datatype ListingPage = ListingPage(tableTimesOut: bool, companyLinks: seq<Option<string>>,
                                     next: seq<Candidate>, click: Click)

  /** What one call of the downloader does. */
  datatype Dispatch = Returned(success: bool) | Raised

  /** How far the setup before the pagination loop gets. */
  datatype Startup =
    | RootDirFails        // `os.makedirs` of the download root raised
    | EngineStartFails    // the automation engine did not start
    | BrowserLaunchFails  // the engine started, the browser did not launch
    | PageSetupFails      // `new_page` or the navigation to the listing raised
    | Started

  datatype Stop =
    | RootDirMissing | SetupFailed
    | TableTimeout | NoCompanyLinks | NoNextControl | NextLoadTimeout | NextClickFailed

  /** How the pagination loop ends: why, on which page (`page_num`), and
      the company URLs handed to the downloader, in order. */
  datatype Trace = Trace(stop: Stop, pageNum: nat, dispatched: seq<string>)

  // ---------------------------------------------------------------------
  // Company URLs on a page

  /** `BASE_SCREENER_URL + href` for every anchor with a non-empty href, in page order. */
  function CompanyUrls(links: seq<Option<string>>): (r: seq<string>)
    ensures |r| <= |links|
  {
    if links == [] then []
    else
      var last := links[|links| - 1];
      CompanyUrls(links[..|links| - 1]) + (if last.Some? && last.value != [] then [BASE_SCREENER_URL + last.value] else [])
  }

  lemma {:induction false} CompanyUrlsAppend(a: seq<Option<string>>, b: seq<Option<string>>)
    ensures CompanyUrls(a + b) == CompanyUrls(a) + CompanyUrls(b)
  {
    if b != [] {
      var init := b[..|b| - 1];
      assert (a + b)[..|a + b| - 1] == a + init;
      CompanyUrlsAppend(a, init);
    } else {
      assert a + b == a;
    }
  }

  /** When every anchor has an href, there is one URL per anchor, in the same order. */
  lemma {:induction false} CompanyUrlsOnePerLink(links: seq<Option<string>>)
    requires forall i :: 0 <= i < |links| ==> links[i].Some? && links[i].value != []
    ensures |CompanyUrls(links)| == |links|
    ensures forall i :: 0 <= i < |links| ==> CompanyUrls(links)[i] == BASE_SCREENER_URL + links[i].value
  {
    if links != [] {
      CompanyUrlsOnePerLink(links[..|links| - 1]);
    }
  }

  /** A URL is built exactly for the anchors whose href is present and non-empty. */
  lemma {:induction false} CompanyUrlsMembers(links: seq<Option<string>>, url: string)
    ensures url in CompanyUrls(links) <==>
      exists i :: 0 <= i < |links| && links[i].Some? && links[i].value != [] && url == BASE_SCREENER_URL + links[i].value
  {
    if links != [] {
      var init := links[..|links| - 1];
      CompanyUrlsMembers(init, url);
      assert forall i :: 0 <= i < |init| ==> init[i] == links[i];
    }
  }

  /** The append loop that builds `company_urls_on_page`. */
  method BuildCompanyUrls(links: seq<Option<string>>) returns (urls: seq<string>)
    ensures urls == CompanyUrls(links)
  {
    urls := [];
    for i := 0 to |links|
      invariant urls == CompanyUrls(links[..i])
    {
      var href := links[i];
      assert links[..i + 1][..i] == links[..i];
      if href.Some? && href.value != [] {
        urls := urls + [BASE_SCREENER_URL + href.value];
      }
    }
    assert links[..|links|] == links;
  }

  /** A listing href `/company/<id>/` leads the downloader to the identifier `id`. */
  lemma CompanyNameOfListingHref(id: string)
    requires id != [] && '/' !in id
    ensures Concalls.CompanyName(BASE_SCREENER_URL + "/company/" + id + "/") == id
  {
    var prefix := BASE_SCREENER_URL + "/company";
    assert BASE_SCREENER_URL + "/company/" + id + "/" == prefix + "/" + id + "/";
    Concalls.CompanyNameOfProfileUrl(prefix, id);
  }

  // ---------------------------------------------------------------------
  // Choosing "Next"

  /** The first candidate that is present, visible and enabled. */
  function FirstUsable(cands: seq<Candidate>): (r: Option<nat>)
    ensures r.Some? ==> r.value < |cands| && Usable(cands[r.value]) &&
                        forall j :: 0 <= j < r.value ==> !Usable(cands[j])
    ensures r.None? <==> forall j :: 0 <= j < |cands| ==> !Usable(cands[j])
  {
    if cands == [] then None
    else if Usable(cands[0]) then Some(0)
    else match FirstUsable(cands[1..])
      case None => None
      case Some(k) => Some(k + 1)
  }

  /** The `for ... break` scan over the "Next" selectors. */
  method SelectNext(cands: seq<Candidate>) returns (next: Option<nat>)
    ensures next == FirstUsable(cands)
  {
    next := None;
    for i := 0 to |cands|
      invariant next.None? && forall j :: 0 <= j < i ==> !Usable(cands[j])
    {
      if Usable(cands[i]) {
        next := Some(i);
        break;
      }
    }
  }

  // ---------------------------------------------------------------------
  // The pagination loop

  /** Page record `k` (0-based); past the last record the site has no table,
      so the wait for its rows times out. */
  function PageAt(pages: seq<ListingPage>, k: nat): ListingPage
  {
    if k < |pages| then pages[k] else ListingPage(true, [], [], LoadTimeout)
  }

  /** The loop from page record `k` on: `page_num` is `k + 1` there. */
  function CrawlFrom(pages: seq<ListingPage>, k: nat): Trace
    decreases |pages| - k
  {
    var p := PageAt(pages, k);
    if p.tableTimesOut then Trace(TableTimeout, k + 1, [])
    else if p.companyLinks == [] then Trace(NoCompanyLinks, k + 1, [])
    else
      var urls := CompanyUrls(p.companyLinks);
      if FirstUsable(p.next).None? then Trace(NoNextControl, k + 1, urls)
      else match p.click
        case LoadTimeout => Trace(NextLoadTimeout, k + 1, urls)
        case ClickError => Trace(NextClickFailed, k + 1, urls)
        case Loaded =>
          var rest := CrawlFrom(pages, k + 1);
          rest.(dispatched := urls + rest.dispatched)
  }

  /** A page from which the loop moves on to the next one. */
  predicate Advances(p: ListingPage)
  {
    !p.tableTimesOut && p.companyLinks != [] && FirstUsable(p.next).Some? && p.click == Loaded
  }

  /** Why the loop ends on a page that does not advance. */
  function StopReason(p: ListingPage): Stop
  {
    if p.tableTimesOut then TableTimeout
    else if p.companyLinks == [] then NoCompanyLinks
    else if FirstUsable(p.next).None? then NoNextControl
    else if p.click == LoadTimeout then NextLoadTimeout
    else NextClickFailed
  }

  /** The company URLs of page records `k` up to (not including) `n`, in order. */
  function UrlsOfPages(pages: seq<ListingPage>, k: nat, n: nat): seq<string>
    requires k <= n
    decreases n - k
  {
    if k == n then [] else CompanyUrls(PageAt(pages, k).companyLinks) + UrlsOfPages(pages, k + 1, n)
  }

  /** One step of the loop: a page that does not advance ends it there,
      for that page's reason; a page that advances hands its companies to
      the downloader and continues on the next page. */
  lemma CrawlFromStep(pages: seq<ListingPage>, k: nat)
    ensures var p := PageAt(pages, k);
      if Advances(p) then
        k < |pages| && CrawlFrom(pages, k) == After(CompanyUrls(p.companyLinks), CrawlFrom(pages, k + 1))
      else
        CrawlFrom(pages, k) ==
          Trace(StopReason(p), k + 1, if StopReason(p) == TableTimeout then [] else CompanyUrls(p.companyLinks))
  {
  }

  /** A trace that stops on page record `k`, after the companies
      `earlier` were dispatched: its reason is that page's, `page_num` is
      `k + 1`, and that page's companies follow unless its table wait timed
      out. */
  lemma StopsOn(pages: seq<ListingPage>, k: nat, earlier: seq<string>)
    requires !Advances(PageAt(pages, k))
    ensures var p, t := PageAt(pages, k), After(earlier, CrawlFrom(pages, k));
      && t.stop == StopReason(p) && t.pageNum == k + 1
      && t.dispatched == earlier + (if p.tableTimesOut then [] else CompanyUrls(p.companyLinks))
  {
    CrawlFromStep(pages, k);
  }

  /** The loop ends within the records it is given; `page_num` has advanced
      exactly over the pages whose "Next" click loaded; and the loop ends on
      the first page that does not advance, for the reason that page gives. */
  lemma {:induction false} CrawlFromEnds(pages: seq<ListingPage>, k: nat)
    requires k <= |pages|
    decreases |pages| - k
    ensures var t := CrawlFrom(pages, k);
      && k + 1 <= t.pageNum <= |pages| + 1
      && (forall j :: k <= j < t.pageNum - 1 ==> Advances(PageAt(pages, j)))
      && !Advances(PageAt(pages, t.pageNum - 1))
      && t.stop == StopReason(PageAt(pages, t.pageNum - 1))
  {
    CrawlFromStep(pages, k);
    if Advances(PageAt(pages, k)) {
      CrawlFromEnds(pages, k + 1);
    }
  }

  /** Trace `t`, started on page record `k`, dispatched the companies of
      every page before its last in page and link order, then those of its
      last page unless that page's table wait timed out. */
  ghost predicate DispatchedInOrder(pages: seq<ListingPage>, k: nat, t: Trace)
  {
    k + 1 <= t.pageNum && t.dispatched == UrlsOfPages(pages, k, t.pageNum - 1) + LastPageUrls(pages, t)
  }

  /** Every company of every processed page is dispatched once, in page
      order and link order; the last page's companies are dispatched unless
      its table wait timed out. */
  lemma {:induction false} CrawlFromDispatches(pages: seq<ListingPage>, k: nat)
    requires k <= |pages|
    decreases |pages| - k
    ensures DispatchedInOrder(pages, k, CrawlFrom(pages, k))
  {
    if Advances(PageAt(pages, k)) {
      CrawlFromDispatches(pages, k + 1);
      CrawlFromStep(pages, k);
      DispatchedPrepend(pages, k, CrawlFrom(pages, k + 1));
    } else {
      DispatchedOnStop(pages, k);
    }
  }

  lemma DispatchedOnStop(pages: seq<ListingPage>, k: nat)
    requires !Advances(PageAt(pages, k))
    ensures DispatchedInOrder(pages, k, CrawlFrom(pages, k))
  {
    CrawlFromStep(pages, k);
    assert UrlsOfPages(pages, k, k) == [];
  }

  /** Page `k` advanced: its companies go in front of the later pages'. */
  lemma DispatchedPrepend(pages: seq<ListingPage>, k: nat, rest: Trace)
    requires DispatchedInOrder(pages, k + 1, rest)
    ensures DispatchedInOrder(pages, k, After(CompanyUrls(PageAt(pages, k).companyLinks), rest))
  {
    var t := After(CompanyUrls(PageAt(pages, k).companyLinks), rest);
    assert LastPageUrls(pages, t) == LastPageUrls(pages, rest);
    UrlsOfPagesCons(pages, k, rest.pageNum - 1, LastPageUrls(pages, rest));
  }

  /** The companies dispatched on the page where trace `t` ends: none when
      its table wait timed out, all of them otherwise. */
  function LastPageUrls(pages: seq<ListingPage>, t: Trace): seq<string>
    requires 1 <= t.pageNum
  {
    if t.stop == TableTimeout then [] else CompanyUrls(PageAt(pages, t.pageNum - 1).companyLinks)
  }

  /** Putting page `k`'s companies in front of those of the later pages. */
  lemma UrlsOfPagesCons(pages: seq<ListingPage>, k: nat, n: nat, last: seq<string>)
    requires k < n
    ensures CompanyUrls(PageAt(pages, k).companyLinks) + (UrlsOfPages(pages, k + 1, n) + last)
         == UrlsOfPages(pages, k, n) + last
  {
    assert UrlsOfPages(pages, k, n) == CompanyUrls(PageAt(pages, k).companyLinks) + UrlsOfPages(pages, k + 1, n);
  }

  /** `page_num` always counts the pages visited: it goes up by one exactly
      when a "Next" click loaded, so the run ends on page 1 whenever the
      first page does not advance. */
  lemma {:induction false} CrawlFromPageCount(pages: seq<ListingPage>, k: nat)
    requires k <= |pages|
    ensures CrawlFrom(pages, k).pageNum == k + 1 <==> !Advances(PageAt(pages, k))
  {
    CrawlFromStep(pages, k);
    if Advances(PageAt(pages, k)) {
      CrawlFromEnds(pages, k + 1);
    }
  }

  /** Prepends the companies dispatched on earlier pages to a trace. */
  function After(earlier: seq<string>, t: Trace): Trace
  {
    t.(dispatched := earlier + t.dispatched)
  }

  lemma AfterAfter(earlier: seq<string>, urls: seq<string>, t: Trace)
    ensures After(earlier, After(urls, t)) == After(earlier + urls, t)
  {
    assert earlier + (urls + t.dispatched) == (earlier + urls) + t.dispatched;
  }

  /** What the downloader does for each URL, in order. */
  function Outcomes(urls: seq<string>, download: string -> Dispatch): (r: seq<Dispatch>)
    ensures |r| == |urls|
  {
    if urls == [] then [] else Outcomes(urls[..|urls| - 1], download) + [download(urls[|urls| - 1])]
  }

  lemma {:induction false} OutcomesAppend(a: seq<string>, b: seq<string>, download: string -> Dispatch)
    ensures Outcomes(a + b, download) == Outcomes(a, download) + Outcomes(b, download)
  {
    if b != [] {
      var init := b[..|b| - 1];
      assert (a + b)[..|a + b| - 1] == a + init;
      OutcomesAppend(a, init, download);
    } else {
      assert a + b == a;
    }
  }

  /** The i-th outcome is the downloader's answer for the i-th URL. */
  lemma {:induction false} OutcomesAt(urls: seq<string>, download: string -> Dispatch, i: nat)
    requires i < |urls|
    ensures Outcomes(urls, download)[i] == download(urls[i])
  {
    if i < |urls| - 1 {
      OutcomesAt(urls[..|urls| - 1], download, i);
    }
  }

  /** The `for company_url in ...` loop: every URL is handed to the
      downloader once, in order, and a raise is caught (it only reaches the
      log), so the next URL is still processed. */
  method DispatchCompanies(urls: seq<string>, download: string -> Dispatch) returns (results: seq<Dispatch>)
    ensures results == Outcomes(urls, download)
  {
    results := [];
    for i := 0 to |urls|
      invariant results == Outcomes(urls[..i], download)
    {
      var outcome := download(urls[i]);
      assert urls[..i + 1][..i] == urls[..i];
      results := results + [outcome];
    }
    assert urls[..|urls|] == urls;
  }

  /** The observable result of a run: how the loop ended, the final
      `page_num`, the companies handed to the downloader and what each call
      did, and the cleanup of the `finally` branch. */
  datatype CrawlReport = CrawlReport(stop: Stop, pageNum: nat, dispatched: seq<string>, results: seq<Dispatch>,
                                     closeAttempted: bool, browserClosed: bool,
                                     stopAttempted: bool, engineStopped: bool)

  /** The `while True` loop over the result pages, started on page 1. */
  method Paginate(pages: seq<ListingPage>, download: string -> Dispatch) returns (t: Trace, results: seq<Dispatch>)
    ensures t == CrawlFrom(pages, 0)
    ensures results == Outcomes(t.dispatched, download)
  {
    var pageNum := 1;
    var dispatched := [];
    results := [];
    while true
      invariant 1 <= pageNum <= |pages| + 1
      invariant CrawlFrom(pages, 0) == After(dispatched, CrawlFrom(pages, pageNum - 1))
      invariant results == Outcomes(dispatched, download)
      decreases |pages| + 1 - pageNum
    {
      var page := PageAt(pages, pageNum - 1);
      if page.tableTimesOut {
        StopsOn(pages, pageNum - 1, dispatched);
        t := Trace(TableTimeout, pageNum, dispatched);
        return;
      }
      if page.companyLinks == [] {
        // the extra row query only decides what is logged
        StopsOn(pages, pageNum - 1, dispatched);
        t := Trace(NoCompanyLinks, pageNum, dispatched);
        return;
      }
      var urls := BuildCompanyUrls(page.companyLinks);
      var outcomes := DispatchCompanies(urls, download);
      ghost var before := dispatched;
      OutcomesAppend(dispatched, urls, download);
      dispatched, results := dispatched + urls, results + outcomes;
      var next := SelectNext(page.next);
      if next.None? {
        StopsOn(pages, pageNum - 1, before);
        t := Trace(NoNextControl, pageNum, dispatched);
        return;
      }
      if page.click == LoadTimeout {
        StopsOn(pages, pageNum - 1, before);
        t := Trace(NextLoadTimeout, pageNum, dispatched);
        return;
      } else if page.click == ClickError {
        StopsOn(pages, pageNum - 1, before);
        t := Trace(NextClickFailed, pageNum, dispatched);
        return;
      }
      CrawlFromStep(pages, pageNum - 1);
      AfterAfter(before, urls, CrawlFrom(pages, pageNum));
      pageNum := pageNum + 1;
    }
  }

  /** `closeRaises` and `stopRaises` say whether `browser.close()` and
      `playwright_instance.stop()` would raise. */
  method ScrapeScreenerData(startup: Startup, pages: seq<ListingPage>, download: string -> Dispatch,
                            closeRaises: bool, stopRaises: bool) returns (r: CrawlReport)
    ensures startup.Started? ==>
              var t := CrawlFrom(pages, 0);
              r.stop == t.stop && r.pageNum == t.pageNum && r.dispatched == t.dispatched
    ensures startup.RootDirFails? ==> r.stop == RootDirMissing
    ensures !startup.Started? ==> r.dispatched == [] && r.pageNum == 0
    ensures !startup.Started? && !startup.RootDirFails? ==> r.stop == SetupFailed
    ensures r.results == Outcomes(r.dispatched, download)
    ensures r.stopAttempted <==> !(startup.RootDirFails? || startup.EngineStartFails?)
    ensures r.closeAttempted <==> !(startup.RootDirFails? || startup.EngineStartFails? || startup.BrowserLaunchFails?)
    ensures r.engineStopped <==> r.stopAttempted && !stopRaises
    ensures r.browserClosed <==> r.closeAttempted && !closeRaises
  {
    if startup.RootDirFails? {
      return CrawlReport(RootDirMissing, 0, [], [], false, false, false, false);
    }
    var engineStarted := !startup.EngineStartFails?;
    var browserLaunched := engineStarted && !startup.BrowserLaunchFails?;
    var t := Trace(SetupFailed, 0, []);
    var results := [];
    if startup.Started? {
      t, results := Paginate(pages, download);
    }
    // finally: each release is attempted in its own try block
    var browserClosed := browserLaunched && !closeRaises;
    var engineStopped := engineStarted && !stopRaises;
    r := CrawlReport(t.stop, t.pageNum, t.dispatched, results, browserLaunched, browserClosed, engineStarted, engineStopped);
  }
}
