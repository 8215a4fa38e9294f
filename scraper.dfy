/**
 * `scrapeJobs` of scraper.js: one crawl session for a search term, without a
 * database. Each page's cards are appended to the session's `jobs`; the file is
 * reloaded, `jobs` is filtered against it, and the file is rewritten as the old
 * snapshot followed by that batch; then the "Next" link is followed.
 */
module Scraper {
  import opened Wrappers
  import opened Records
  import opened Dedup
  import opened Storage
  import opened Site

  /** How a session ends: its status, `currentPage`, the accumulated `jobs` and the file. */
  datatype Crawl = Crawl(status: Status, currentPage: nat, jobs: seq<Record>, file: Option<seq<Record>>)

  /** The file after one page: the loaded snapshot followed by the accumulated records it lacks. */
  function Persist(jobs: seq<Record>, file: Option<seq<Record>>): (written: Option<seq<Record>>) {
    var existing := Loaded(file);
    Some(existing + NewJobs(jobs, existing))
  }

  /** The file after the loop, started at page `i` with `jobs`: rewritten on every page whose listing appeared. */
  function FileFrom(pages: seq<Page>, i: nat, jobs: seq<Record>, file: Option<seq<Record>>): (written: Option<seq<Record>>)
    decreases |pages| - i
  {
    if !Persisted(pages, i) then file
    else
      var jobs' := jobs + ExtractPage(pages[i].cards);
      var file' := Persist(jobs', file);
      if Continues(pages, i) then FileFrom(pages, i + 1, jobs', file') else file'
  }

  /** The loop from result page `i` on (0-based; `currentPage` is `i + 1` there). */
  function CrawlFrom(pages: seq<Page>, i: nat, jobs: seq<Record>, file: Option<seq<Record>>): (c: Crawl)
    decreases |pages| - i
  {
    if !Persisted(pages, i) then Crawl(Failed(ListingTimeout), i + 1, jobs, file)
    else
      var jobs' := jobs + ExtractPage(pages[i].cards);
      var file' := Persist(jobs', file);
      if !pages[i].hasNext then Crawl(Done, i + 1, jobs', file')
      else if pages[i].fault == BrokenNext then Crawl(Failed(NextNavigation), i + 1, jobs', file')
      else CrawlFrom(pages, i + 1, jobs', file')
  }

  /** The whole session, starting from the file's content. `currentPage` is 0 when no result page was reached. */
  function Scrape(site: Site, file: Option<seq<Record>>): (c: Crawl) {
    if !site.homeLoads then Crawl(Failed(HomeNavigation), 0, [], file)
    else if !site.cookieBanner then Crawl(Failed(CookieTimeout), 0, [], file)
    else if !site.searchLoads then Crawl(Failed(SearchNavigation), 0, [], file)
    else CrawlFrom(site.pages, 0, [], file)
  }

  /** The body of the `try`: navigation, cookie button, search, then the page loop. */
  method ScrapeSession(site: Site, file: JsonFile) returns (status: Status, currentPage: nat)
    modifies file
    ensures var c := Scrape(site, old(file.content));
      status == c.status && currentPage == c.currentPage && file.content == c.file
  {
    if !site.homeLoads { return Failed(HomeNavigation), 0; }
    if !site.cookieBanner { return Failed(CookieTimeout), 0; }
    if !site.searchLoads { return Failed(SearchNavigation), 0; }
    currentPage := 1;
    var jobs: seq<Record> := [];
    while true
      invariant currentPage >= 1
      invariant CrawlFrom(site.pages, currentPage - 1, jobs, file.content) == Scrape(site, old(file.content))
      decreases |site.pages| - currentPage
    {
      if currentPage > |site.pages| || site.pages[currentPage - 1].fault == NoListing {
        return Failed(ListingTimeout), currentPage;
      }
      var page := site.pages[currentPage - 1];
      jobs := jobs + ExtractPage(page.cards);
      var existing := file.Load();
      var batch := NewJobs(jobs, existing);
      existing := existing + batch;
      file.Save(existing);
      if !page.hasNext {
        break;
      }
      if page.fault == BrokenNext {
        return Failed(NextNavigation), currentPage;
      }
      currentPage := currentPage + 1;
    }
    status := Done;
  }

  /** `scrapeJobs`: open a page handle, run the session, and close the handle on every exit. */
  method ScrapeJobs(site: Site, browser: Browser, file: JsonFile) returns (status: Status, currentPage: nat)
    modifies browser, file
    ensures browser.openPages == old(browser.openPages)
    ensures var c := Scrape(site, old(file.content));
      status == c.status && currentPage == c.currentPage && file.content == c.file
  {
    browser.NewPage();
    status, currentPage := ScrapeSession(site, file);
    browser.ClosePage();
  }

  /**
   * The loop in closed form: it leaves at StopFrom, ends as EndStatus says for
   * that page, with the records JobsFrom accumulates and the file FileFrom writes.
   */
  lemma {:induction false} CrawlFromClosedForm(pages: seq<Page>, i: nat, jobs: seq<Record>, file: Option<seq<Record>>)
    ensures var j := StopFrom(pages, i);
      CrawlFrom(pages, i, jobs, file) == Crawl(EndStatus(pages, j), j + 1, JobsFrom(pages, i, jobs), FileFrom(pages, i, jobs, file))
    decreases |pages| - i
  {
    if Continues(pages, i) {
      var jobs' := jobs + ExtractPage(pages[i].cards);
      CrawlFromClosedForm(pages, i + 1, jobs', Persist(jobs', file));
      assert StopFrom(pages, i) == StopFrom(pages, i + 1);
    } else {
      assert StopFrom(pages, i) == i;
      if !Persisted(pages, i) {
        assert jobs + [] == jobs;
      }
    }
  }

  /**
   * The session's pagination: when the search succeeds, the loop visits pages
   * 1 to `currentPage` (it goes on exactly while a page reaches the next one),
   * ends in Done exactly when the last page visited shows its listing and has no
   * "Next" link, and `jobs` holds the records of all visited pages whose
   * listing appeared, in page order. When a step before the loop fails, nothing
   * is read or written.
   */
  lemma ScrapePagination(site: Site, file: Option<seq<Record>>)
    ensures var c := Scrape(site, file); var pages := site.pages;
      if site.homeLoads && site.cookieBanner && site.searchLoads then
        && 1 <= c.currentPage <= |pages| + 1
        && (forall k :: 0 <= k < c.currentPage - 1 ==> Continues(pages, k))
        && !Continues(pages, c.currentPage - 1)
        && (c.status == Done <==> Persisted(pages, c.currentPage - 1) && !pages[c.currentPage - 1].hasNext)
        && (c.status == Failed(ListingTimeout) <==> !Persisted(pages, c.currentPage - 1))
        && c.jobs == RecordsOf(pages, 0, c.currentPage - 1) + PageRecords(pages, c.currentPage - 1)
      else
        c.status.Failed? && c.currentPage == 0 && c.jobs == [] && c.file == file
  {
    if site.homeLoads && site.cookieBanner && site.searchLoads {
      CrawlFromClosedForm(site.pages, 0, [], file);
      StopFromIsFirstStop(site.pages, 0);
      JobsFromAccumulates(site.pages, 0, []);
      assert [] + RecordsOf(site.pages, 0, StopFrom(site.pages, 0)) == RecordsOf(site.pages, 0, StopFrom(site.pages, 0));
    }
  }

  /** Once a page is persisted, every accumulated link is in the file. */
  lemma PersistCovers(jobs: seq<Record>, file: Option<seq<Record>>)
    ensures Persist(jobs, file).Some?
    ensures Links(jobs) <= Links(Loaded(Persist(jobs, file)))
  {
    MergeCovers(jobs, Loaded(file));
  }

  /**
   * If the file covers the session's records before a page, it covers them when
   * the loop ends, whatever the ending.
   */
  lemma {:induction false} FileFromCovers(pages: seq<Page>, i: nat, jobs: seq<Record>, file: Option<seq<Record>>)
    requires Links(jobs) <= Links(Loaded(file))
    ensures Links(JobsFrom(pages, i, jobs)) <= Links(Loaded(FileFrom(pages, i, jobs, file)))
    decreases |pages| - i
  {
    if !Persisted(pages, i) {
      assert jobs + [] == jobs;
    } else {
      var jobs' := jobs + ExtractPage(pages[i].cards);
      PersistCovers(jobs', file);
      if Continues(pages, i) {
        FileFromCovers(pages, i + 1, jobs', Persist(jobs', file));
      }
    }
  }

  /**
   * With no other writer, the file covers every link the session accumulated:
   * after each page, all links of `jobs` are in the persisted snapshot, on every
   * exit of the loop.
   */
  lemma ScrapeCovers(site: Site, file: Option<seq<Record>>)
    ensures var c := Scrape(site, file); Links(c.jobs) <= Links(Loaded(c.file))
  {
    if site.homeLoads && site.cookieBanner && site.searchLoads {
      CrawlFromClosedForm(site.pages, 0, [], file);
      FileFromCovers(site.pages, 0, [], file);
    }
  }

  /**
   * `after` extends `before`, and every record it adds is one of `jobs` with a
   * link `before` does not have.
   */
  ghost predicate AppendsFrom(before: seq<Record>, after: seq<Record>, jobs: seq<Record>) {
    && before <= after
    && forall k :: |before| <= k < |after| ==> after[k] in jobs && after[k].link !in Links(before)
  }

  /** Two appends in a row are one append, of records from the longer accumulated list. */
  lemma AppendsChain(a: seq<Record>, b: seq<Record>, c: seq<Record>, jobs: seq<Record>, jobs': seq<Record>)
    requires AppendsFrom(a, b, jobs) && AppendsFrom(b, c, jobs') && jobs <= jobs'
    ensures AppendsFrom(a, c, jobs')
  {
    LinksOfPrefix(a, b);
    forall k | |a| <= k < |c| ensures c[k] in jobs' && c[k].link !in Links(a) {
      if k < |b| {
        assert c[k] == b[k];
        assert b[k] in jobs;
        var m :| 0 <= m < |jobs| && jobs[m] == b[k];
        assert jobs'[m] == b[k];
      }
    }
  }

  lemma PersistAppends(jobs: seq<Record>, file: Option<seq<Record>>)
    ensures AppendsFrom(Loaded(file), Loaded(Persist(jobs, file)), jobs)
  {
    var existing := Loaded(file);
    var added := NewJobs(jobs, existing);
    NewJobsMembers(jobs, existing);
    assert Loaded(Persist(jobs, file)) == existing + added;
    forall k | |existing| <= k < |existing + added|
      ensures (existing + added)[k] in jobs && (existing + added)[k].link !in Links(existing)
    {
      assert (existing + added)[k] == added[k - |existing|];
      assert added[k - |existing|] in added;
    }
  }

  /**
   * Append-only growth: the snapshot the loop starts with stays a prefix of the
   * file; every record added comes from the session's `jobs` and has a link the
   * starting snapshot did not have. The file only goes from missing to present,
   * never back.
   */
  lemma {:induction false} FileFromGrows(pages: seq<Page>, i: nat, jobs: seq<Record>, file: Option<seq<Record>>)
    ensures var f := FileFrom(pages, i, jobs, file);
      AppendsFrom(Loaded(file), Loaded(f), JobsFrom(pages, i, jobs)) && (file.Some? ==> f.Some?)
    decreases |pages| - i
  {
    if Persisted(pages, i) {
      var jobs' := jobs + ExtractPage(pages[i].cards);
      var file' := Persist(jobs', file);
      PersistAppends(jobs', file);
      if Continues(pages, i) {
        FileFromGrows(pages, i + 1, jobs', file');
        JobsFromExtends(pages, i + 1, jobs');
        AppendsChain(Loaded(file), Loaded(file'), Loaded(FileFrom(pages, i + 1, jobs', file')), jobs', JobsFrom(pages, i + 1, jobs'));
      }
    }
  }

  /** The session's effect on the file is append-only (the properties of FileFromGrows for the whole session). */
  lemma ScrapeKeepsSnapshot(site: Site, file: Option<seq<Record>>)
    ensures var c := Scrape(site, file);
      && Loaded(file) <= Loaded(c.file)
      && (forall k :: |Loaded(file)| <= k < |Loaded(c.file)| ==>
            Loaded(c.file)[k] in c.jobs && Loaded(c.file)[k].link !in Links(Loaded(file)))
      && (file.Some? ==> c.file.Some?)
  {
    if site.homeLoads && site.cookieBanner && site.searchLoads {
      CrawlFromClosedForm(site.pages, 0, [], file);
      FileFromGrows(site.pages, 0, [], file);
    }
  }

  /** A file that already covers the accumulated links is rewritten as it is. */
  lemma PersistCovered(jobs: seq<Record>, file: Option<seq<Record>>)
    requires file.Some? && Links(jobs) <= Links(file.value)
    ensures Persist(jobs, file) == file
  {
    NewJobsEmpty(jobs, file.value);
    assert file.value + [] == file.value;
  }

  /**
   * Re-running the loop from the same point over the same pages, with the file the
   * first run left, rewrites that file unchanged.
   */
  lemma {:induction false} FileFromTwice(pages: seq<Page>, i: nat, jobs: seq<Record>, file: Option<seq<Record>>)
    ensures var f := FileFrom(pages, i, jobs, file); FileFrom(pages, i, jobs, f) == f
    decreases |pages| - i
  {
    if Persisted(pages, i) {
      var jobs' := jobs + ExtractPage(pages[i].cards);
      var file' := Persist(jobs', file);
      var f := FileFrom(pages, i, jobs, file);
      PersistCovers(jobs', file);
      if Continues(pages, i) {
        FileFromCovers(pages, i + 1, jobs', file');
        JobsFromExtends(pages, i + 1, jobs');
        FileFromGrows(pages, i + 1, jobs', file');
        // The final file covers the final jobs, which extend jobs', so the rerun's batch at page i is empty.
        LinksOfPrefix(jobs', JobsFrom(pages, i + 1, jobs'));
        PersistCovered(jobs', f);
        FileFromTwice(pages, i + 1, jobs', file');
      } else {
        PersistCovered(jobs', file');
      }
    }
  }

  /**
   * Idempotence: running the same session again over unchanged pages, with the
   * file the first run left, leaves the file unchanged and ends exactly as the
   * first run did.
   */
  lemma ScrapeIdempotent(site: Site, file: Option<seq<Record>>)
    ensures var c := Scrape(site, file); Scrape(site, c.file) == c
  {
    if site.homeLoads && site.cookieBanner && site.searchLoads {
      CrawlFromClosedForm(site.pages, 0, [], file);
      CrawlFromClosedForm(site.pages, 0, [], Scrape(site, file).file);
      FileFromTwice(site.pages, 0, [], file);
    }
  }
}
