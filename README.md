# Earnings-call transcript scraper: a Dafny model

The scraper has two parts. The **listing crawler** (`scrape_screener_data`)
walks the result pages of a stock screen. It follows the "Next" control from
page to page and hands every company profile URL it finds to the **transcript
downloader** (`download_company_concalls`). For one company, the downloader
opens the profile page and finds the "Concalls" card. It collects the PDF links
in that card and downloads each link by clicking it. The files are saved under
`<root>/<company id>/`. It returns whether at least one file was saved.

This project models both parts once the browser is replaced by what it
reports:

- `text.dfy` (module `Text`) writes out the Python string and path operations
  the code uses, over `seq<char>`. These are `strip`, `split(c)[0]`,
  `split(c)[-1]`, `lower`, `endswith` and `posixpath.join`.
- `concalls.dfy` (module `Concalls`) models the downloader:
  - the company identifier, the PDF href filter and the fallback file name;
  - the per-link download loop with its `downloaded_something` flag and its
    lazy directory creation;
  - the ladder of early returns.

  A `CompanyPage` value says how far setup, navigation and the section lookup
  get. `attempt(i)` says what happens to the i-th transcript link: whether
  `new_page` works, the download event, and whether `os.makedirs` and
  `save_as` would succeed. The filesystem is a value holding a set of
  directories and a set of files.
- `crawler.dfy` (module `Crawler`) models the crawler. The site is a sequence
  of page records. Each record holds:
  - whether the row wait times out;
  - the first-column company hrefs;
  - the "Next" candidates, each present/visible/enabled or not;
  - the click outcome.

  Each downloader call is given as what it does: it returns a flag or it
  raises.

Each loop of the source is a method with loop invariants. Each such method is
proved equal to a recursive specification function (`TranscriptUrls`,
`DownloadAll`, `CompanyUrls`, `FirstUsable`, `CrawlFrom`, `Outcomes`). The
source's promises are lemmas about those functions.

Where the code and the intended contract of the scraper differ, this model
follows the code:

- The company directory is created just before `save_as` runs
  (download_concalls.py:156-167), not after a save succeeds. If `save_as` then
  fails, an empty directory is left behind and the call still returns false.
  `Concalls.DirectoryWithoutFile` shows this.
- K succeeding links give exactly K entries in the save log
  (`Concalls.DownloadAllSaves`). They can give fewer than K distinct files,
  because two links with the same save name overwrite one file.
  `Concalls.SameNameOverwrites` shows this.
- The fallback name strips a query string (`report.pdf?x=1` gives
  `report.pdf`; see `Concalls.FallbackFilenameDropsQuery`). The PDF filter
  tests the whole href, query included (download_concalls.py:81). So
  `report.pdf?x=1` is filtered out, but `.../view?file=Q1.pdf` passes, and its
  fallback name is `view.pdf` (download_concalls.py:149-153). When the query
  holds no `/`, every such href with the same text before its `?` falls back
  to the same name, so later saves overwrite earlier ones.
  `Concalls.QueryHrefReachesLoop` shows this. When the query does hold a `/`,
  `href.split("/")[-1]` splits inside it. The fallback is then the text after
  that `/`, a piece of the query: `x/view?f=a/Q1.pdf` passes the filter and is
  saved as `Q1.pdf` (`Concalls.QuerySlashFallback`).

## Model

| member | source | states |
|---|---|---|
| `Text.TrimStart` | download_concalls.py:104 | the leading part of `strip` removes the longest run of the character from the front: what is left starts with another character, and everything removed was that character |
| `Text.TrimEnd` | download_concalls.py:104 | the same for the back of the string |
| `Text.StripEmpty` | download_concalls.py:104-105 | stripping `/` leaves nothing iff the string is only slashes |
| `Text.AfterLast` | download_concalls.py:104 | `split(c)[-1]` (also used at line 149) is a suffix holding no `c`, and is either the whole string or preceded by a `c` |
| `Text.AfterLastOfTail` | download_concalls.py:149 | the last segment of `head + c + tail`, with `tail` free of `c`, is `tail` |
| `Text.BeforeFirst` | download_concalls.py:151 | `split(c)[0]` is a prefix holding no `c`, and is either the whole string or followed by a `c` |
| `Text.BeforeFirstOfHead` | download_concalls.py:151 | the first segment of `head + c + tail`, with `head` free of `c`, is `head` |
| `Text.Lower` | download_concalls.py:81 | `lower()` (also used at line 152) keeps the length and lowers each character |
| `Text.LowerEndsWithAfterPrefix` | download_concalls.py:81 | text put before a string whose lower-case form ends in a suffix keeps that suffix |
| `Text.Join` | download_concalls.py:166 | `os.path.join(dir, name)` (also used at line 108): an absolute `name` is returned as it is; otherwise the result starts with `dir` and ends with `name`, and is `dir + "/" + name` when `dir` is non-empty and does not end in `/`, and `dir + name` when `dir` is empty or ends in `/` |
| `Concalls.CompanyName` | download_concalls.py:104 | the identifier is the last segment of the URL after stripping `/` from both ends: it holds no `/`, ends the stripped URL, and is either all of it or preceded by a `/` in it |
| `Concalls.CompanyNameTrailingSlash` | download_concalls.py:104 | `.../company/INFY/` and `.../company/INFY` give the same identifier |
| `Concalls.CompanyNameEmpty` | download_concalls.py:104-106 | the identifier is empty (the `ValueError` exit) exactly when the URL consists only of slashes |
| `Concalls.CompanyNameOfProfileUrl` | download_concalls.py:103-104 | a profile URL `<prefix>/<id>` or `<prefix>/<id>/` yields identifier `id` |
| `Concalls.UrlTail` | download_concalls.py:149-151 | the text after the last `/` with everything from the first `?` on dropped; the guarded `split("?")` equals an unconditional one, and the result holds no `/` or `?` |
| `Concalls.FallbackFilename` | download_concalls.py:149-153 | the derived name always ends in `.pdf` ignoring case; it is the url tail itself iff that already ends in `.pdf`, otherwise the tail plus `.pdf` |
| `Concalls.SaveFilename` | download_concalls.py:146-153 | a non-empty suggested name is used unchanged; the fallback is used only when the suggestion is empty |
| `Concalls.FallbackFilenameDropsQuery` | download_concalls.py:149-153 | for an href `<path>/<name>?<query>` whose query holds no `/`, the saved name is `name` (or `name.pdf`), never containing the query |
| `Concalls.FallbackFilenameOfPlainTail` | download_concalls.py:149-153 | for an href `<path>/<name>` without a query the saved name is `name`, with `.pdf` added iff missing |
| `Concalls.TranscriptUrls` | download_concalls.py:79-82 | the filter keeps at most one URL per anchor |
| `Concalls.QueryHrefReachesLoop` | download_concalls.py:149-153 | an href `<path>/<name>?<query>` whose query ends in `.pdf` passes the filter of line 81, and, when the query holds no `/`, without a suggested name it is saved as `name` (or `name.pdf`), whatever else the query holds |
| `Concalls.QuerySlashFallback` | download_concalls.py:149-153 | an href `<prefix>/<tail>` with a PDF tail free of `/` and `?` passes the filter of line 81 and falls back to `tail`, even when that `/` is inside a query |
| `Concalls.TranscriptUrlsAppend` | download_concalls.py:78-82 | the filter works link by link and keeps document order: it distributes over concatenation |
| `Concalls.TranscriptUrlsMembers` | download_concalls.py:79-82 | a URL is in the transcript list iff some anchor's href is exactly it, it is non-empty and its lower-case form ends in `.pdf` |
| `Concalls.TranscriptUrlsEmpty` | download_concalls.py:79-90 | the list is empty (the "no PDF transcript URLs" exit) iff no href passes the filter |
| `Concalls.CollectTranscriptUrls` | download_concalls.py:78-82 | the append loop builds exactly the filtered list |
| `Concalls.SaveDownloadEffect` | download_concalls.py:155-169 | after a download arrived: the directory is made iff the flag is unset, it is missing and `makedirs` works; the save to `Join(dir, name)` completes, is logged, writes that file and sets the flag iff `save_as` works and the directory step did not raise; otherwise saves, files and flag are unchanged |
| `Concalls.AttemptLinkEffect` | download_concalls.py:119-179 | one iteration: the page close pairs with the page open; at most one save, to `Join(dir, save name)` (an absolute suggested name is used as it is); the flag is set iff that save completed; the directory is made only when missing and nothing was saved yet, and only after a download arrived and `makedirs` worked |
| `Concalls.DownloadAllConsistent` | download_concalls.py:119-179 | across the loop every opened download page is closed, and `downloaded_something` holds iff at least one save completed |
| `Concalls.DownloadAllTriesEveryLink` | download_concalls.py:119-124 | every transcript link is tried once, in order; which pages are opened and closed depends only on each link's own `new_page` outcome, so a failed link never stops later ones |
| `Concalls.ReadyIff` | download_concalls.py:156-164 | at every point of the loop, the flag is set or the directory exists (so line 156 skips `makedirs`) exactly when the inputs say so: it held before the loop, or an earlier link's download arrived and its `makedirs` worked |
| `Concalls.DownloadAllSaves` | download_concalls.py:155-169 | after any number of iterations the save log is the initial one followed by exactly one `Join(dir, save name)` per succeeding link, in link order; a link succeeds when its page opens, its download arrives, `save_as` works, and `makedirs` works or is skipped because the flag is set or the directory exists; the files are the initial ones plus exactly those paths; the flag is set iff it was set before or something was saved |
| `Concalls.SavedPathsMembers` | download_concalls.py:155-169 | a path is in that log exactly when some succeeding link saves to it |
| `Concalls.SavedPathsNonEmpty` | download_concalls.py:155-169 | something is saved exactly when some link succeeds |
| `Concalls.DownloadAllFlag` | download_concalls.py:169 | `downloaded_something` ends true exactly when it was set before the loop or some link succeeds |
| `Concalls.LinkSavesToEnd` | download_concalls.py:155-169 | conversely, a succeeding link puts its file in the save log and on disk, whether it ran `makedirs` itself or found the directory there or an earlier save done, and makes the flag returned at line 191 true |
| `Concalls.DownloadAllCreatesDirLazily` | download_concalls.py:155-164 | only the company directory is ever created; never when it already existed or a save already completed, and then the flag or the directory stays so; only by a link whose download arrived and whose `makedirs` succeeded |
| `Concalls.SavedImpliesDir` | download_concalls.py:155-169 | once a save has completed the company directory exists, since it is made just before the first save |
| `Concalls.DownloadAllMonotone` | download_concalls.py:119-179 | between any two points of the loop the save log only grows, files and directories are never removed, a set flag stays set and an existing directory stays |
| `Concalls.DirectoryWithoutFile` | download_concalls.py:155-169 | a first link whose `save_as` fails after `makedirs` leaves the directory but no file, and the flag stays false |
| `Concalls.SameNameOverwrites` | download_concalls.py:146-167 | two links whose downloads suggest the same file name give two saves but one file |
| `Concalls.DownloadTranscripts` | download_concalls.py:119-179 | the download loop computes exactly `DownloadAll` from an unset flag and no saves |
| `Concalls.DownloadCompanyConcalls` | download_concalls.py:21-191 | each early return (launch, navigation, heading, card, extraction, no PDFs, empty identifier) returns false and leaves the filesystem untouched with no download attempted; otherwise the result is the loop's over `<root>/<company>`; the result is true iff a save completed; every opened page is closed; the browser and engine are released iff they were acquired |
| `Crawler.CompanyUrls` | main_scraper.py:77-82 | at most one company URL per anchor |
| `Crawler.CompanyUrlsAppend` | main_scraper.py:77-82 | URL building works anchor by anchor and keeps page order |
| `Crawler.CompanyUrlsOnePerLink` | main_scraper.py:77-82 | when every anchor has an href, the i-th URL is `BASE_SCREENER_URL` plus the i-th href |
| `Crawler.CompanyUrlsMembers` | main_scraper.py:78-82 | a URL is built iff it is `BASE_SCREENER_URL` plus some present, non-empty href |
| `Crawler.BuildCompanyUrls` | main_scraper.py:77-82 | the append loop builds exactly `CompanyUrls` |
| `Crawler.CompanyNameOfListingHref` | main_scraper.py:81 | a listing href `/company/<id>/` reaches the downloader as a URL whose identifier is `id` |
| `Crawler.FirstUsable` | main_scraper.py:105-110 | the chosen candidate is present, visible and enabled, and every earlier one is not; none is chosen iff none qualifies |
| `Crawler.SelectNext` | main_scraper.py:105-110 | the `for ... break` scan returns exactly the first usable candidate |
| `Crawler.CrawlFromEnds` | main_scraper.py:53-129 | the loop ends within the given pages; every page before the last advanced; the last does not, and the stop reason is its table timeout, missing links, missing "Next", load timeout or click error |
| `Crawler.CrawlFromDispatches` | main_scraper.py:86-95 | the dispatched URLs are the companies of every processed page in page and link order, each once |
| `Crawler.CrawlFromPageCount` | main_scraper.py:112-120 | `page_num` stays at its page iff that page does not advance, so a first page without "Next" ends the run on page 1 |
| `Crawler.Outcomes` | main_scraper.py:86-95 | one outcome per dispatched URL |
| `Crawler.OutcomesAppend` | main_scraper.py:86-95 | per-company outcomes are gathered URL by URL |
| `Crawler.OutcomesAt` | main_scraper.py:88-95 | the i-th outcome is the downloader's answer for the i-th URL |
| `Crawler.DispatchCompanies` | main_scraper.py:86-95 | every URL is handed to the downloader once, in order; a raise is caught and the next URL is still processed |
| `Crawler.Paginate` | main_scraper.py:53-129 | the `while True` loop computes exactly `CrawlFrom` from page 1, whatever the downloader returns or raises |
| `Crawler.ScrapeScreenerData` | main_scraper.py:28-151 | a failed root directory ends the run with no cleanup; a failed setup dispatches nothing; otherwise the run is the pagination loop's; browser close and engine stop are each attempted iff acquired, independently of whether the other raises |

## Left out

- Playwright itself (`sync_playwright`, `launch`, `goto`, `query_selector*`, `wait_for_selector`, `expect_download`, `click`, `is_visible`): their results are inputs. XPath and CSS selectors are not modelled.
- Timeouts as durations: a timeout is only an outcome value.
- Logging configuration and every log call: they are output only. The no-rows query at main_scraper.py:72-74 only chooses a log line, so the model has no input for it.
- The commented-out `main` at download_concalls.py:193-347 is dead code and is not modelled. It checks `.pdf` case-sensitively.
- The hardcoded listing URL, the download root name and the `headless` flag (main_scraper.py:24-25, 45). `BASE_SCREENER_URL` is kept because URL building uses it.
- `os.makedirs` making parent directories, the bytes written by `save_as`, and `download.path()` temp files. A directory is one path added to a set, and a save is one path added to a set.
- `os.path.join` is modelled as `posixpath.join`. Windows `ntpath` joining, with backslashes and drive letters, is not modelled.
- `str.lower` is modelled for ASCII letters only. Unicode case mapping is not modelled.
- Crawler.Paginate: the site is a finite sequence of page records. A page past the last record acts as one whose table wait times out. The source's `while True` (main_scraper.py:54) has no bound: a site whose "Next" keeps loading never ends it, so "the loop ends within the given pages" holds of this finite model only.
- Crawler.DispatchCompanies: the downloader's outcome is a function of the URL, so a URL listed twice gets the same outcome both times. In the source a second call may answer differently. No proved property depends on the outcome's value.
- Crawler.ScrapeScreenerData: exceptions from unguarded calls inside the loop are not modelled. That is any call in the loop body other than the guarded ones, for example `query_selector_all`, `get_attribute` (main_scraper.py:79), `query_selector` (main_scraper.py:107), `is_visible`, `is_enabled`, and `wait_for_selector` raising something other than a timeout (main_scraper.py:59-61). In the source they reach the outer handler and end the run.
- Crawler.ScrapeScreenerData: the downloader calls are not composed with `Concalls.DownloadCompanyConcalls`. Each call is an outcome (returned flag or raise), because the crawler's control flow ignores it. The files those calls write are not tracked across companies.
- Concalls.DownloadCompanyConcalls: does not model `browser.close()` or `playwright_instance.stop()` raising, on any return path. That covers the early returns and the normal return at download_concalls.py:186-189. Those calls are outside any `try`, so in the source the exception would reach the crawler instead of a result. On the normal path it would replace returning `downloaded_something`. The model also assumes `download_page.is_closed()` is false before the close in `finally`; a failing close is caught there, so it only counts as an attempted close.
