/** The per-company transcript downloader (`download_company_concalls`).
    The browser is replaced by what it reports: a `CompanyPage` says how far
    the setup, the navigation and the "Concalls" section lookup got, and
    `attempt(i)` says what happens when the i-th transcript link is tried.
    The filesystem is a value holding its directories and files. */
module Concalls {
  import opened Text

  const PDF_SUFFIX := ".pdf"

  /** `name.lower().endswith(".pdf")` */
  predicate IsPdfName(name: string)
  {
    EndsWith(Lower(name), PDF_SUFFIX)
  }

  // ---------------------------------------------------------------------
  // Company identifier and file names

  /** `company_url.strip('/').split('/')[-1]`: the last path segment. */
  function CompanyName(companyUrl: string): (r: string)
    ensures '/' !in r
    ensures EndsWith(Strip(companyUrl, '/'), r)
    ensures var t := Strip(companyUrl, '/'); |r| == |t| || t[|t| - |r| - 1] == '/'
  {
    AfterLast(Strip(companyUrl, '/'), '/')
  }

  /** A trailing slash does not change the identifier. */
  lemma CompanyNameTrailingSlash(companyUrl: string)
    ensures CompanyName(companyUrl + "/") == CompanyName(companyUrl)
  {
    StripExtraTrailing(companyUrl, '/');
  }

  /** The identifier is empty exactly when the URL is nothing but slashes,
      which is the only way the empty-name exit can be taken. */
  lemma CompanyNameEmpty(companyUrl: string)
    ensures CompanyName(companyUrl) == [] <==> forall i :: 0 <= i < |companyUrl| ==> companyUrl[i] == '/'
  {
    StripEmpty(companyUrl, '/');
    var t := Strip(companyUrl, '/');
    if t != [] {
      assert t[|t| - 1] != '/';
      AfterLastNonEmpty(t, '/');
    }
  }

  /** A profile URL `<prefix>/<id>` or `<prefix>/<id>/` names the company `id`. */
  lemma CompanyNameOfProfileUrl(prefix: string, id: string)
    requires prefix != [] && prefix[0] != '/'
    requires id != [] && '/' !in id
    ensures CompanyName(prefix + "/" + id) == id
    ensures CompanyName(prefix + "/" + id + "/") == id
  {
    var url := prefix + "/" + id;
    assert url == prefix + ['/'] + id;
    assert url[0] == prefix[0] && url[|url| - 1] == id[|id| - 1];
    StripUntouched(url, '/');
    AfterLastOfTail(prefix, '/', id);
    CompanyNameTrailingSlash(url);
  }

  /** `href.split("/")[-1]`, then cut before the first `?` if there is one. */
  function UrlTail(href: string): (r: string)
    ensures '/' !in r && '?' !in r
    ensures r == BeforeFirst(AfterLast(href, '/'), '?')
  {
    var segment := AfterLast(href, '/');
    if '?' in segment then BeforeFirst(segment, '?') else segment
  }

  /** The name derived from the href when the browser suggests none:
      the url tail, with ".pdf" appended unless it already ends so (in any case). */
  function FallbackFilename(href: string): (r: string)
    ensures IsPdfName(r)
    ensures '/' !in r && '?' !in r
    ensures r == UrlTail(href) <==> IsPdfName(UrlTail(href))
    ensures r != UrlTail(href) ==> r == UrlTail(href) + PDF_SUFFIX
  {
    var name := UrlTail(href);
    if IsPdfName(name) then name
    else
      WithPdfSuffix(name);
      name + PDF_SUFFIX
  }

  /** Appending `.pdf` gives a longer PDF name that gains no `/` or `?`. */
  lemma WithPdfSuffix(name: string)
    ensures IsPdfName(name + PDF_SUFFIX)
    ensures name + PDF_SUFFIX != name
    ensures forall ch :: ch in name + PDF_SUFFIX ==> ch in name || ch in PDF_SUFFIX
    ensures '/' !in PDF_SUFFIX && '?' !in PDF_SUFFIX
  {
    EndsWithPdfAfterAppend(name);
    assert |name + PDF_SUFFIX| == |name| + 4;
  }

  /** The browser's suggested name wins; the fallback is used only when it is empty. */
  function SaveFilename(suggested: string, href: string): (r: string)
    ensures suggested != [] ==> r == suggested
    ensures suggested == [] ==> r == FallbackFilename(href)
  {
    if suggested == [] then FallbackFilename(href) else suggested
  }

  /** A query string after the last path segment is cut off, and ".pdf" is
      appended exactly when the remaining name lacks it: `report.pdf?x=1`
      gives `report.pdf`, `transcript?id=7` gives `transcript.pdf`. */
  lemma FallbackFilenameDropsQuery(path: string, name: string, query: string)
    requires path == [] || path[|path| - 1] == '/'
    requires '/' !in name && '?' !in name && '/' !in query
    ensures FallbackFilename(path + name + "?" + query) == if IsPdfName(name) then name else name + PDF_SUFFIX
  {
    var segment := name + "?" + query;
    assert segment == name + ['?'] + query;
    assert '/' !in segment;
    if path == [] {
      assert path + name + "?" + query == segment;
      AfterLastWithout(segment, '/');
    } else {
      var head := path[..|path| - 1];
      assert path + name + "?" + query == head + ['/'] + segment;
      AfterLastOfTail(head, '/', segment);
    }
    BeforeFirstOfHead(name, '?', query);
  }

  /** Without a query string the whole last segment is the name. */
  lemma FallbackFilenameOfPlainTail(path: string, name: string)
    requires path == [] || path[|path| - 1] == '/'
    requires '/' !in name && '?' !in name
    ensures FallbackFilename(path + name) == if IsPdfName(name) then name else name + PDF_SUFFIX
  {
    if path == [] {
      assert path + name == name;
      AfterLastWithout(name, '/');
    } else {
      var head := path[..|path| - 1];
      assert path + name == head + ['/'] + name;
      AfterLastOfTail(head, '/', name);
    }
  }

  // ---------------------------------------------------------------------
  // PDF filter over the hrefs of the "concall-link" anchors

  /** An href attribute is kept when it is present, non-empty and names a PDF. */
  predicate IsTranscriptHref(href: Option<string>)
  {
    href.Some? && href.value != [] && IsPdfName(href.value)
  }

  /** An href whose query string ends in ".pdf", such as `.../view?file=Q1.pdf`,
      passes the filter although its path does not; its fallback name is
      the text before the `?` and does not depend on the query, so two
      such hrefs that differ only in their query lead to the same name. */
  lemma QueryHrefReachesLoop(path: string, name: string, query: string)
    requires path == [] || path[|path| - 1] == '/'
    requires '/' !in name && '?' !in name && '/' !in query
    requires IsPdfName(query)
    ensures IsTranscriptHref(Some(path + name + "?" + query))
    ensures FallbackFilename(path + name + "?" + query) == if IsPdfName(name) then name else name + PDF_SUFFIX
  {
    LowerEndsWithAfterPrefix(path + name + "?", query, PDF_SUFFIX);
    FallbackFilenameDropsQuery(path, name, query);
  }

  /** The fallback splits on the last `/` of the whole href, even when that
      `/` is inside a query string: `x/view?f=a/Q1.pdf` passes the filter and
      is saved as `Q1.pdf`, a piece of its query. */
  lemma QuerySlashFallback(prefix: string, tail: string)
    requires '/' !in tail && '?' !in tail && IsPdfName(tail)
    ensures IsTranscriptHref(Some(prefix + "/" + tail))
    ensures FallbackFilename(prefix + "/" + tail) == tail
  {
    LowerEndsWithAfterPrefix(prefix + "/", tail, PDF_SUFFIX);
    FallbackFilenameOfPlainTail(prefix + "/", tail);
  }

  /** The transcript list built from the anchors' hrefs, in document order. */
  function TranscriptUrls(hrefs: seq<Option<string>>): (r: seq<string>)
    ensures |r| <= |hrefs|
  {
    if hrefs == [] then []
    else
      var last := hrefs[|hrefs| - 1];
      TranscriptUrls(hrefs[..|hrefs| - 1]) + (if IsTranscriptHref(last) then [last.value] else [])
  }

  /** The filter works link by link: it distributes over concatenation,
      so it keeps document order and drops nothing it accepts. */
  lemma {:induction false} TranscriptUrlsAppend(a: seq<Option<string>>, b: seq<Option<string>>)
    ensures TranscriptUrls(a + b) == TranscriptUrls(a) + TranscriptUrls(b)
  {
    if b != [] {
      var init := b[..|b| - 1];
      assert (a + b)[..|a + b| - 1] == a + init;
      TranscriptUrlsAppend(a, init);
    } else {
      assert a + b == a;
    }
  }

  /** Exactly the present, non-empty, ".pdf"-ending hrefs are kept. */
  lemma {:induction false} TranscriptUrlsMembers(hrefs: seq<Option<string>>, url: string)
    ensures url in TranscriptUrls(hrefs) <==> Some(url) in hrefs && url != [] && IsPdfName(url)
  {
    if hrefs != [] {
      var init := hrefs[..|hrefs| - 1];
      TranscriptUrlsMembers(init, url);
      assert hrefs == init + [hrefs[|hrefs| - 1]];
    }
  }

  /** The list is empty exactly when no href passes the filter. */
  lemma {:induction false} TranscriptUrlsEmpty(hrefs: seq<Option<string>>)
    ensures TranscriptUrls(hrefs) == [] <==> forall i :: 0 <= i < |hrefs| ==> !IsTranscriptHref(hrefs[i])
  {
    if hrefs != [] {
      var init := hrefs[..|hrefs| - 1];
      TranscriptUrlsEmpty(init);
      assert forall i :: 0 <= i < |init| ==> init[i] == hrefs[i];
    }
  }

  /** The append loop that builds `transcript_urls`. */
  method CollectTranscriptUrls(hrefs: seq<Option<string>>) returns (urls: seq<string>)
    ensures urls == TranscriptUrls(hrefs)
  {
    urls := [];
    for i := 0 to |hrefs|
      invariant urls == TranscriptUrls(hrefs[..i])
    {
      var href := hrefs[i];
      assert hrefs[..i + 1][..i] == hrefs[..i];
      if href.Some? && href.value != [] && IsPdfName(href.value) {
        urls := urls + [href.value];
      }
    }
    assert hrefs[..|hrefs|] == hrefs;
  }

  // ---------------------------------------------------------------------
  // Filesystem and browser outcomes

  datatype FileSystem = FileSystem(dirs: set<string>, files: set<string>)

  /** `os.path.exists(path)` */
  predicate Exists(fs: FileSystem, path: string)
  {
    path in fs.dirs || path in fs.files
  }

  /** What the download event gives: nothing (a navigation, wait, click or
      download-event failure, or no temporary path), or a download with the
      browser's suggested file name. */
  datatype Fetch = NoDownload | Download(suggestedFilename: string)

  /** The outcome of trying one transcript link: whether `new_page` worked,
      what the download event gave, and whether `os.makedirs` and `save_as`
      would succeed if they were called. */
  datatype Attempt = Attempt(pageOpens: bool, fetch: Fetch, makeDirsSucceeds: bool, saveSucceeds: bool)

  /** The state the download loop carries: the `downloaded_something` flag,
      the filesystem, the hrefs whose download page was opened and closed,
      and the paths passed to a completed `save_as`, in order. */
  datatype Progress = Progress(downloaded: bool, fs: FileSystem, pagesOpened: seq<string>, pagesClosed: seq<string>, saves: seq<string>)

  function Initial(fs: FileSystem): Progress
  {
    Progress(false, fs, [], [], [])
  }

  /** Directory creation and `save_as` for a fetched download named `name`. */
  function SaveDownload(p: Progress, dir: string, name: string, a: Attempt): Progress
  {
    var needDir := !p.downloaded && !Exists(p.fs, dir);
    if needDir && !a.makeDirsSucceeds then p
    else
      var fs := if needDir then p.fs.(dirs := p.fs.dirs + {dir}) else p.fs;
      if !a.saveSucceeds then p.(fs := fs)
      else
        var path := Join(dir, name);
        p.(fs := fs.(files := fs.files + {path}), saves := p.saves + [path], downloaded := true)
  }

  /** What directory creation and `save_as` do: the directory is made
      exactly when nothing was saved yet, it is missing and `os.makedirs`
      works, and a failing `os.makedirs` aborts the save; otherwise there is one save, to
      `Join(dir, name)`, exactly when `save_as` succeeds, and it sets the
      flag. The pages are untouched. */
  lemma SaveDownloadEffect(p: Progress, dir: string, name: string, a: Attempt)
    ensures var r := SaveDownload(p, dir, name, a);
      && r.pagesOpened == p.pagesOpened && r.pagesClosed == p.pagesClosed
      && (if a.saveSucceeds && (p.downloaded || Exists(p.fs, dir) || a.makeDirsSucceeds)
          then r.saves == p.saves + [Join(dir, name)] && r.fs.files == p.fs.files + {Join(dir, name)} && r.downloaded
          else r.saves == p.saves && r.fs.files == p.fs.files && r.downloaded == p.downloaded)
      && r.fs.dirs == if !p.downloaded && !Exists(p.fs, dir) && a.makeDirsSucceeds then p.fs.dirs + {dir} else p.fs.dirs
  {
  }

  /** One iteration of the download loop; the page close of the `finally`
      branch happens whenever the page was opened. */
  function AttemptLink(p: Progress, dir: string, href: string, a: Attempt): Progress
  {
    if !a.pageOpens then p
    else
      var p1 := p.(pagesOpened := p.pagesOpened + [href]);
      var p2 := if a.fetch.NoDownload? then p1
                else SaveDownload(p1, dir, SaveFilename(a.fetch.suggestedFilename, href), a);
      p2.(pagesClosed := p2.pagesClosed + [href])
  }

  /** The loop keeps two facts: every opened page has been closed, and
      `downloaded_something` holds exactly when some save completed. */
  ghost predicate Consistent(p: Progress)
  {
    p.pagesClosed == p.pagesOpened && (p.downloaded <==> p.saves != [])
  }

  /** The first `n` iterations of the download loop. */
  function DownloadAll(p0: Progress, dir: string, hrefs: seq<string>, attempt: nat -> Attempt, n: nat): Progress
    requires n <= |hrefs|
  {
    if n == 0 then p0
    else AttemptLink(DownloadAll(p0, dir, hrefs, attempt, n - 1), dir, hrefs[n - 1], attempt(n - 1))
  }

  /** Whether the attempt completes a `save_as` from state `p`. */
  predicate LinkSaves(p: Progress, dir: string, a: Attempt)
  {
    a.pageOpens && a.fetch.Download? && a.saveSucceeds &&
    (p.downloaded || Exists(p.fs, dir) || a.makeDirsSucceeds)
  }

  /** What one iteration does: at most one save, to the save file name
      joined to `dir` (an absolute suggested name is used as it is); the
      directory is made exactly when no earlier link saved, it does not
      exist yet, the download arrived and `os.makedirs` works; the page is
      opened and closed together. */
  lemma AttemptLinkEffect(p: Progress, dir: string, href: string, a: Attempt)
    ensures var r := AttemptLink(p, dir, href, a);
      && r.pagesOpened == p.pagesOpened + (if a.pageOpens then [href] else [])
      && r.pagesClosed == p.pagesClosed + (if a.pageOpens then [href] else [])
      && (if LinkSaves(p, dir, a)
          then r.saves == p.saves + [Join(dir, SaveFilename(a.fetch.suggestedFilename, href))]
               && r.fs.files == p.fs.files + {Join(dir, SaveFilename(a.fetch.suggestedFilename, href))}
               && r.downloaded
          else r.saves == p.saves && r.fs.files == p.fs.files && r.downloaded == p.downloaded)
      && r.fs.dirs == if !p.downloaded && !Exists(p.fs, dir) && a.pageOpens && a.fetch.Download? && a.makeDirsSucceeds
                      then p.fs.dirs + {dir} else p.fs.dirs
  {
    if a.pageOpens && a.fetch.Download? {
      SaveDownloadEffect(p.(pagesOpened := p.pagesOpened + [href]), dir, SaveFilename(a.fetch.suggestedFilename, href), a);
    }
  }

  /** The saves, files and flag of one iteration, without its pages and
      directories. */
  lemma AttemptLinkSaves(p: Progress, dir: string, href: string, a: Attempt)
    ensures var r := AttemptLink(p, dir, href, a);
      if LinkSaves(p, dir, a)
      then var path := Join(dir, SaveFilename(a.fetch.suggestedFilename, href));
        r.saves == p.saves + [path] && r.fs.files == p.fs.files + {path} && r.downloaded
      else r.saves == p.saves && r.fs.files == p.fs.files && r.downloaded == p.downloaded
  {
    AttemptLinkEffect(p, dir, href, a);
  }

  /** Every opened page is closed, and the flag holds iff a save completed,
      after any number of iterations. */
  lemma {:induction false} DownloadAllConsistent(p0: Progress, dir: string, hrefs: seq<string>, attempt: nat -> Attempt, n: nat)
    requires n <= |hrefs| && Consistent(p0)
    ensures Consistent(DownloadAll(p0, dir, hrefs, attempt, n))
  {
    if n > 0 {
      DownloadAllConsistent(p0, dir, hrefs, attempt, n - 1);
      AttemptLinkEffect(DownloadAll(p0, dir, hrefs, attempt, n - 1), dir, hrefs[n - 1], attempt(n - 1));
    }
  }

  /** The hrefs among the first `n` whose download page opens, in order. */
  function HrefsWithPage(hrefs: seq<string>, attempt: nat -> Attempt, n: nat): seq<string>
    requires n <= |hrefs|
  {
    if n == 0 then []
    else HrefsWithPage(hrefs, attempt, n - 1) + (if attempt(n - 1).pageOpens then [hrefs[n - 1]] else [])
  }

  /** Every link is tried once, in order, whatever happened to the earlier
      ones: the pages opened (and closed) depend only on each link's own
      `new_page` outcome, never on earlier failures or saves. */
  lemma {:induction false} DownloadAllTriesEveryLink(p0: Progress, dir: string, hrefs: seq<string>, attempt: nat -> Attempt, n: nat)
    requires n <= |hrefs|
    ensures DownloadAll(p0, dir, hrefs, attempt, n).pagesOpened == p0.pagesOpened + HrefsWithPage(hrefs, attempt, n)
    ensures DownloadAll(p0, dir, hrefs, attempt, n).pagesClosed == p0.pagesClosed + HrefsWithPage(hrefs, attempt, n)
  {
    if n > 0 {
      DownloadAllTriesEveryLink(p0, dir, hrefs, attempt, n - 1);
      AttemptLinkEffect(DownloadAll(p0, dir, hrefs, attempt, n - 1), dir, hrefs[n - 1], attempt(n - 1));
    }
  }

  /** Before link `i` the directory is there for a save, as decided by
      the inputs alone: the loop started with the flag set or the directory
      present, or an earlier link reached `os.makedirs` and it worked. */
  ghost predicate Ready(p0: Progress, dir: string, attempt: nat -> Attempt, i: nat)
  {
    || p0.downloaded || Exists(p0.fs, dir)
    || exists j :: 0 <= j < i && attempt(j).pageOpens && attempt(j).fetch.Download? && attempt(j).makeDirsSucceeds
  }

  /** Link `i` completes its save: its page opens, its download arrives,
      the directory is there or `os.makedirs` makes it, and `save_as` works. */
  ghost predicate Succeeds(p0: Progress, dir: string, attempt: nat -> Attempt, i: nat)
  {
    && attempt(i).pageOpens && attempt(i).fetch.Download? && attempt(i).saveSucceeds
    && (attempt(i).makeDirsSucceeds || Ready(p0, dir, attempt, i))
  }

  /** Where the succeeding links among the first `n` save, in link order. */
  ghost function SavedPaths(p0: Progress, dir: string, hrefs: seq<string>, attempt: nat -> Attempt, n: nat): seq<string>
    requires n <= |hrefs|
  {
    if n == 0 then []
    else
      SavedPaths(p0, dir, hrefs, attempt, n - 1) +
      (if Succeeds(p0, dir, attempt, n - 1)
       then [Join(dir, SaveFilename(attempt(n - 1).fetch.suggestedFilename, hrefs[n - 1]))] else [])
  }

  lemma ReadyNext(p0: Progress, dir: string, attempt: nat -> Attempt, i: nat)
    ensures Ready(p0, dir, attempt, i + 1) <==>
      Ready(p0, dir, attempt, i) || (attempt(i).pageOpens && attempt(i).fetch.Download? && attempt(i).makeDirsSucceeds)
  {
    if Ready(p0, dir, attempt, i) && !p0.downloaded && !Exists(p0.fs, dir) {
      var j :| 0 <= j < i && attempt(j).pageOpens && attempt(j).fetch.Download? && attempt(j).makeDirsSucceeds;
      assert 0 <= j < i + 1;
    }
  }

  /** At every point of the loop, the flag is set or the directory exists
      exactly when `Ready` says so. */
  lemma {:induction false} ReadyIff(p0: Progress, dir: string, hrefs: seq<string>, attempt: nat -> Attempt, i: nat)
    requires i <= |hrefs|
    ensures var q := DownloadAll(p0, dir, hrefs, attempt, i);
      q.downloaded || Exists(q.fs, dir) <==> Ready(p0, dir, attempt, i)
  {
    if i > 0 {
      ReadyIff(p0, dir, hrefs, attempt, i - 1);
      ReadyStep(p0, dir, attempt, i - 1, DownloadAll(p0, dir, hrefs, attempt, i - 1), hrefs[i - 1]);
    }
  }

  lemma ReadyStep(p0: Progress, dir: string, attempt: nat -> Attempt, i: nat, q: Progress, href: string)
    requires q.downloaded || Exists(q.fs, dir) <==> Ready(p0, dir, attempt, i)
    ensures var r := AttemptLink(q, dir, href, attempt(i));
      r.downloaded || Exists(r.fs, dir) <==> Ready(p0, dir, attempt, i + 1)
  {
    AttemptLinkEffect(q, dir, href, attempt(i));
    ReadyNext(p0, dir, attempt, i);
  }

  /** What the saves look like after `n` iterations from `p0`, with `r`
      the state reached: the save log is the initial one followed by one
      entry per succeeding link, in link order; the files are the initial
      ones and exactly those paths; and the flag is set exactly when it was
      set before or something was saved. */
  ghost predicate SavesSoFar(p0: Progress, dir: string, hrefs: seq<string>, attempt: nat -> Attempt, n: nat, r: Progress)
    requires n <= |hrefs|
  {
    && r.saves == p0.saves + SavedPaths(p0, dir, hrefs, attempt, n)
    && (forall path :: path in r.fs.files <==> path in p0.fs.files || path in SavedPaths(p0, dir, hrefs, attempt, n))
    && (r.downloaded <==> p0.downloaded || SavedPaths(p0, dir, hrefs, attempt, n) != [])
  }

  lemma {:induction false} DownloadAllSaves(p0: Progress, dir: string, hrefs: seq<string>, attempt: nat -> Attempt, n: nat)
    requires n <= |hrefs|
    ensures SavesSoFar(p0, dir, hrefs, attempt, n, DownloadAll(p0, dir, hrefs, attempt, n))
  {
    if n > 0 {
      DownloadAllSaves(p0, dir, hrefs, attempt, n - 1);
      ReadyIff(p0, dir, hrefs, attempt, n - 1);
      SavesStep(p0, dir, hrefs, attempt, n, DownloadAll(p0, dir, hrefs, attempt, n - 1));
    }
  }

  /** One more iteration keeps the invariant. */
  lemma SavesStep(p0: Progress, dir: string, hrefs: seq<string>, attempt: nat -> Attempt, n: nat, q: Progress)
    requires 0 < n <= |hrefs| && SavesSoFar(p0, dir, hrefs, attempt, n - 1, q)
    requires q.downloaded || Exists(q.fs, dir) <==> Ready(p0, dir, attempt, n - 1)
    ensures SavesSoFar(p0, dir, hrefs, attempt, n, AttemptLink(q, dir, hrefs[n - 1], attempt(n - 1)))
  {
    var r := AttemptLink(q, dir, hrefs[n - 1], attempt(n - 1));
    AttemptLinkSaves(q, dir, hrefs[n - 1], attempt(n - 1));
    var before := SavedPaths(p0, dir, hrefs, attempt, n - 1);
    if Succeeds(p0, dir, attempt, n - 1) {
      var path := Join(dir, SaveFilename(attempt(n - 1).fetch.suggestedFilename, hrefs[n - 1]));
      assert LinkSaves(q, dir, attempt(n - 1));
      assert SavedPaths(p0, dir, hrefs, attempt, n) == before + [path];
      assert r.saves == p0.saves + (before + [path]);
      assert r.fs.files == q.fs.files + {path};
    } else {
      assert !LinkSaves(q, dir, attempt(n - 1));
      assert SavedPaths(p0, dir, hrefs, attempt, n) == before;
    }
  }

  /** Link `i` succeeds and saves to `path`. */
  ghost predicate SavesTo(p0: Progress, dir: string, hrefs: seq<string>, attempt: nat -> Attempt, i: nat, path: string)
    requires i < |hrefs|
  {
    Succeeds(p0, dir, attempt, i) && path == Join(dir, SaveFilename(attempt(i).fetch.suggestedFilename, hrefs[i]))
  }

  /** A path is saved exactly when it is where a succeeding link saves. */
  lemma {:induction false} SavedPathsMembers(p0: Progress, dir: string, hrefs: seq<string>, attempt: nat -> Attempt, n: nat, path: string)
    requires n <= |hrefs|
    ensures path in SavedPaths(p0, dir, hrefs, attempt, n) <==> exists i :: 0 <= i < n && SavesTo(p0, dir, hrefs, attempt, i, path)
  {
    if n > 0 {
      SavedPathsMembers(p0, dir, hrefs, attempt, n - 1, path);
      SavedPathsLast(p0, dir, hrefs, attempt, n, path);
      SavesToNext(p0, dir, hrefs, attempt, n, path);
    }
  }

  lemma SavedPathsLast(p0: Progress, dir: string, hrefs: seq<string>, attempt: nat -> Attempt, n: nat, path: string)
    requires 0 < n <= |hrefs|
    ensures path in SavedPaths(p0, dir, hrefs, attempt, n) <==>
      path in SavedPaths(p0, dir, hrefs, attempt, n - 1) || SavesTo(p0, dir, hrefs, attempt, n - 1, path)
  {
  }

  lemma SavesToNext(p0: Progress, dir: string, hrefs: seq<string>, attempt: nat -> Attempt, n: nat, path: string)
    requires 0 < n <= |hrefs|
    ensures (exists i :: 0 <= i < n && SavesTo(p0, dir, hrefs, attempt, i, path)) <==>
      (exists i :: 0 <= i < n - 1 && SavesTo(p0, dir, hrefs, attempt, i, path)) || SavesTo(p0, dir, hrefs, attempt, n - 1, path)
  {
    if !SavesTo(p0, dir, hrefs, attempt, n - 1, path) && exists i :: 0 <= i < n && SavesTo(p0, dir, hrefs, attempt, i, path) {
      var i :| 0 <= i < n && SavesTo(p0, dir, hrefs, attempt, i, path);
      assert i < n - 1;
    }
  }

  /** Some path is saved exactly when some link succeeds. */
  lemma {:induction false} SavedPathsNonEmpty(p0: Progress, dir: string, hrefs: seq<string>, attempt: nat -> Attempt, n: nat)
    requires n <= |hrefs|
    ensures SavedPaths(p0, dir, hrefs, attempt, n) != [] <==> exists i :: 0 <= i < n && Succeeds(p0, dir, attempt, i)
  {
    if n > 0 {
      SavedPathsNonEmpty(p0, dir, hrefs, attempt, n - 1);
      if !Succeeds(p0, dir, attempt, n - 1) && exists i :: 0 <= i < n && Succeeds(p0, dir, attempt, i) {
        var i :| 0 <= i < n && Succeeds(p0, dir, attempt, i);
        assert i < n - 1;
      }
    }
  }

  /** The loop's `downloaded_something` is true exactly when it was set
      before or some link succeeds. */
  lemma DownloadAllFlag(p0: Progress, dir: string, hrefs: seq<string>, attempt: nat -> Attempt, n: nat)
    requires n <= |hrefs|
    ensures DownloadAll(p0, dir, hrefs, attempt, n).downloaded <==>
      p0.downloaded || exists i :: 0 <= i < n && Succeeds(p0, dir, attempt, i)
  {
    DownloadAllSaves(p0, dir, hrefs, attempt, n);
    SavedPathsNonEmpty(p0, dir, hrefs, attempt, n);
  }

  /** What directory creation looks like after `n` iterations from `p0`,
      with `r` the state reached: the company directory is the only
      directory ever made; none is made when it already existed or a save
      had completed, and then that stays so; and it is made only by a link
      whose download arrived and whose `os.makedirs` succeeded. */
  ghost predicate DirsSoFar(p0: Progress, dir: string, attempt: nat -> Attempt, n: nat, r: Progress)
  {
    && r.fs.dirs <= p0.fs.dirs + {dir}
    && (p0.downloaded || Exists(p0.fs, dir) ==> r.fs.dirs == p0.fs.dirs && (r.downloaded || Exists(r.fs, dir)))
    && (dir in r.fs.dirs && dir !in p0.fs.dirs ==>
          exists i :: 0 <= i < n && attempt(i).pageOpens && attempt(i).fetch.Download? && attempt(i).makeDirsSucceeds)
  }

  lemma {:induction false} DownloadAllCreatesDirLazily(p0: Progress, dir: string, hrefs: seq<string>, attempt: nat -> Attempt, n: nat)
    requires n <= |hrefs|
    ensures DirsSoFar(p0, dir, attempt, n, DownloadAll(p0, dir, hrefs, attempt, n))
  {
    if n > 0 {
      DownloadAllCreatesDirLazily(p0, dir, hrefs, attempt, n - 1);
      DirsStep(p0, dir, attempt, n - 1, DownloadAll(p0, dir, hrefs, attempt, n - 1), hrefs[n - 1]);
    }
  }

  lemma DirsStep(p0: Progress, dir: string, attempt: nat -> Attempt, n: nat, q: Progress, href: string)
    requires DirsSoFar(p0, dir, attempt, n, q)
    ensures DirsSoFar(p0, dir, attempt, n + 1, AttemptLink(q, dir, href, attempt(n)))
  {
    AttemptLinkEffect(q, dir, href, attempt(n));
  }

  /** State `r` only adds to state `q`: saves, files and directories are
      kept, and a set flag or an existing directory stays so. */
  ghost predicate Grows(q: Progress, r: Progress, dir: string)
  {
    && q.saves <= r.saves && q.fs.files <= r.fs.files && q.fs.dirs <= r.fs.dirs
    && (q.downloaded ==> r.downloaded)
    && (Exists(q.fs, dir) ==> Exists(r.fs, dir))
  }

  /** Between any two points of the loop, later iterations only add. */
  lemma {:induction false} DownloadAllMonotone(p0: Progress, dir: string, hrefs: seq<string>, attempt: nat -> Attempt, i: nat, n: nat)
    requires i <= n <= |hrefs|
    ensures Grows(DownloadAll(p0, dir, hrefs, attempt, i), DownloadAll(p0, dir, hrefs, attempt, n), dir)
  {
    if i < n {
      DownloadAllMonotone(p0, dir, hrefs, attempt, i, n - 1);
      GrowsStep(DownloadAll(p0, dir, hrefs, attempt, i), DownloadAll(p0, dir, hrefs, attempt, n - 1), dir, hrefs[n - 1], attempt(n - 1));
    }
  }

  lemma GrowsStep(q: Progress, r: Progress, dir: string, href: string, a: Attempt)
    requires Grows(q, r, dir)
    ensures Grows(q, AttemptLink(r, dir, href, a), dir)
  {
    AttemptLinkEffect(r, dir, href, a);
  }

  /** Once a save has completed the company directory exists: it is made
      just before the first save. */
  lemma {:induction false} SavedImpliesDir(p0: Progress, dir: string, hrefs: seq<string>, attempt: nat -> Attempt, n: nat)
    requires n <= |hrefs| && (p0.downloaded ==> Exists(p0.fs, dir))
    ensures var r := DownloadAll(p0, dir, hrefs, attempt, n); r.downloaded ==> Exists(r.fs, dir)
  {
    if n > 0 {
      SavedImpliesDir(p0, dir, hrefs, attempt, n - 1);
      SavedDirStep(DownloadAll(p0, dir, hrefs, attempt, n - 1), dir, hrefs[n - 1], attempt(n - 1));
    }
  }

  lemma SavedDirStep(q: Progress, dir: string, href: string, a: Attempt)
    requires q.downloaded ==> Exists(q.fs, dir)
    ensures var r := AttemptLink(q, dir, href, a); r.downloaded ==> Exists(r.fs, dir)
  {
    AttemptLinkEffect(q, dir, href, a);
  }

  /** The converse of `DownloadAllSaves`: a succeeding link saves its
      file; the file is still there at the end of the loop and the loop's
      flag is set. */
  lemma LinkSavesToEnd(p0: Progress, dir: string, hrefs: seq<string>, attempt: nat -> Attempt, i: nat, n: nat)
    requires i < n <= |hrefs|
    requires Succeeds(p0, dir, attempt, i)
    ensures var r := DownloadAll(p0, dir, hrefs, attempt, n);
      var path := Join(dir, SaveFilename(attempt(i).fetch.suggestedFilename, hrefs[i]));
      r.downloaded && path in r.saves && path in r.fs.files
  {
    var q := DownloadAll(p0, dir, hrefs, attempt, i);
    ReadyIff(p0, dir, hrefs, attempt, i);
    LinkSavesStep(q, dir, hrefs[i], attempt(i));
    DownloadAllMonotone(p0, dir, hrefs, attempt, i + 1, n);
    PrefixMember(DownloadAll(p0, dir, hrefs, attempt, i + 1).saves, DownloadAll(p0, dir, hrefs, attempt, n).saves,
                 Join(dir, SaveFilename(attempt(i).fetch.suggestedFilename, hrefs[i])));
  }

  /** A link that completes its save from state `p` leaves its path saved
      and written and the flag set. */
  lemma LinkSavesStep(p: Progress, dir: string, href: string, a: Attempt)
    requires LinkSaves(p, dir, a)
    ensures var r, path := AttemptLink(p, dir, href, a), Join(dir, SaveFilename(a.fetch.suggestedFilename, href));
      r.downloaded && path in r.saves && path in r.fs.files
  {
    AttemptLinkEffect(p, dir, href, a);
  }

  lemma PrefixMember(a: seq<string>, b: seq<string>, x: string)
    requires a <= b && x in a
    ensures x in b
  {
    var j :| 0 <= j < |a| && a[j] == x;
    assert b[j] == x;
  }

  /** The directory is made before `save_as` is known to succeed: a first
      link whose save fails leaves an empty company directory behind while
      the call reports that nothing was downloaded. */
  lemma DirectoryWithoutFile(fs: FileSystem, dir: string, hrefs: seq<string>, attempt: nat -> Attempt, name: string)
    requires |hrefs| == 1 && !Exists(fs, dir)
    requires attempt(0) == Attempt(true, Download(name), true, false)
    ensures var r := DownloadAll(Initial(fs), dir, hrefs, attempt, 1);
      r.fs.dirs == fs.dirs + {dir} && dir !in fs.dirs && r.fs.files == fs.files && !r.downloaded
  {
  }

  /** Two links whose downloads suggest the same file name give two saves
      but one file: the second `save_as` overwrites the first. */
  lemma SameNameOverwrites(fs: FileSystem, dir: string, hrefs: seq<string>, attempt: nat -> Attempt, name: string)
    requires |hrefs| == 2 && name != []
    requires attempt(0) == attempt(1) == Attempt(true, Download(name), true, true)
    ensures var r := DownloadAll(Initial(fs), dir, hrefs, attempt, 2);
      |r.saves| == 2 && r.fs.files == fs.files + {Join(dir, name)}
  {
    var a := attempt(0);
    var path := Join(dir, name);
    var p1 := AttemptLink(Initial(fs), dir, hrefs[0], a);
    assert DownloadAll(Initial(fs), dir, hrefs, attempt, 1) == p1;
    AttemptLinkEffect(Initial(fs), dir, hrefs[0], a);
    assert p1.saves == [path] && p1.fs.files == fs.files + {path} && p1.downloaded;
    AttemptLinkEffect(p1, dir, hrefs[1], a);
  }

  /** The download `for` loop. */
  method DownloadTranscripts(dir: string, hrefs: seq<string>, attempt: nat -> Attempt, fs: FileSystem) returns (p: Progress)
    ensures p == DownloadAll(Initial(fs), dir, hrefs, attempt, |hrefs|)
  {
    var downloaded := false;
    var disk := fs;
    var pagesOpened, pagesClosed, saves := [], [], [];
    for i := 0 to |hrefs|
      invariant Progress(downloaded, disk, pagesOpened, pagesClosed, saves) == DownloadAll(Initial(fs), dir, hrefs, attempt, i)
    {
      var href, a := hrefs[i], attempt(i);
      ghost var before := Progress(downloaded, disk, pagesOpened, pagesClosed, saves);
      assert DownloadAll(Initial(fs), dir, hrefs, attempt, i + 1) == AttemptLink(before, dir, href, a);
      if a.pageOpens {
        pagesOpened := pagesOpened + [href];
        if a.fetch.Download? {
          var name := SaveFilename(a.fetch.suggestedFilename, href);
          var aborted := false;
          if !downloaded && !Exists(disk, dir) {
            if a.makeDirsSucceeds {
              disk := disk.(dirs := disk.dirs + {dir});
            } else {
              aborted := true;
            }
          }
          if !aborted && a.saveSucceeds {
            var path := Join(dir, name);
            disk := disk.(files := disk.files + {path});
            saves := saves + [path];
            downloaded := true;
          }
        }
        pagesClosed := pagesClosed + [href];
      }
      assert Progress(downloaded, disk, pagesOpened, pagesClosed, saves) == AttemptLink(before, dir, href, a);
    }
    p := Progress(downloaded, disk, pagesOpened, pagesClosed, saves);
  }

  // ---------------------------------------------------------------------
  // The whole call

  /** How far the browser got for this company: each failing stage is one
      early return of the function. */
  datatype CompanyPage =
    | EngineStartFails        // the automation engine did not start
    | BrowserLaunchFails      // the engine started, the browser did not launch
    | NewPageFails            // the browser launched, `new_page` failed
    | NavigationFails         // `goto(company_url)` failed
    | NoConcallsHeading       // no heading with text "Concalls"
    | NoConcallsCard          // no enclosing documents/concalls card
    | ExtractionFails         // a query or attribute read raised inside the section
    | ConcallsCard(hrefs: seq<Option<string>>)  // href attributes of the "concall-link" anchors

  /** The observable result: the return value, the new filesystem, the
      download pages opened and closed, the completed saves, and whether the
      browser was closed and the engine stopped before returning. */
  datatype Report = Report(ok: bool, fs: FileSystem, pagesOpened: seq<string>, pagesClosed: seq<string>,
                           saves: seq<string>, browserClosed: bool, engineStopped: bool)

  /** Whether the call gets past every early return into the download loop. */
  predicate ReachesDownloads(companyUrl: string, page: CompanyPage)
  {
    page.ConcallsCard? && TranscriptUrls(page.hrefs) != [] && CompanyName(companyUrl) != []
  }

  method DownloadCompanyConcalls(companyUrl: string, downloadRoot: string, page: CompanyPage,
                                 attempt: nat -> Attempt, fs: FileSystem) returns (r: Report)
    ensures !ReachesDownloads(companyUrl, page) ==>
              !r.ok && r.fs == fs && r.pagesOpened == [] && r.pagesClosed == [] && r.saves == []
    ensures ReachesDownloads(companyUrl, page) ==>
              var urls := TranscriptUrls(page.hrefs);
              var p := DownloadAll(Initial(fs), Join(downloadRoot, CompanyName(companyUrl)), urls, attempt, |urls|);
              r.ok == p.downloaded && r.fs == p.fs && r.pagesOpened == p.pagesOpened && r.pagesClosed == p.pagesClosed && r.saves == p.saves
    ensures r.ok <==> r.saves != []
    ensures r.pagesClosed == r.pagesOpened
    ensures r.engineStopped <==> !page.EngineStartFails?
    ensures r.browserClosed <==> !(page.EngineStartFails? || page.BrowserLaunchFails?)
  {
    var nothing := Report(false, fs, [], [], [], true, true);
    match page {
      case EngineStartFails => return nothing.(browserClosed := false, engineStopped := false);
      case BrowserLaunchFails => return nothing.(browserClosed := false);
      case NewPageFails => return nothing;
      case NavigationFails => return nothing;
      case NoConcallsHeading => return nothing;
      case NoConcallsCard => return nothing;
      case ExtractionFails => return nothing;
      case ConcallsCard(hrefs) =>
        var urls := CollectTranscriptUrls(hrefs);
        if urls == [] {
          return nothing;
        }
        var companyName := CompanyName(companyUrl);
        if companyName == [] {
          return nothing;
        }
        var companyDir := Join(downloadRoot, companyName);
        var p := DownloadTranscripts(companyDir, urls, attempt, fs);
        DownloadAllConsistent(Initial(fs), companyDir, urls, attempt, |urls|);
        r := Report(p.downloaded, p.fs, p.pagesOpened, p.pagesClosed, p.saves, true, true);
    }
  }
}
