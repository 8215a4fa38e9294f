/**
 * `scrapeJobs` of fishscraper.js: the session of scraper.js with a second sink.
 * After the file is rewritten on a page, every job of that page's batch is
 * passed, in order, to `storeJobInDB`; a rejected query or insert ends the
 * session, leaving the file as already written.
 */
module FishScraper {
  import opened Wrappers
  import opened Records
  import opened Dedup
  import opened Storage
  import opened Site
  import opened Database
  import opened Scraper

  /** How a session ends: as a `Crawl`, plus the table afterwards. */
  datatype Outcome = Outcome(status: Status, currentPage: nat, jobs: seq<Record>, file: Option<seq<Record>>, rows: seq<Row>)

  /** The failure a rejection of the database is reported as. */
  function DbFailure(e: DbError): (f: Failure) {
    match e
    case QueryError => DbQuery
    case InsertError => DbInsert
  }

  /** The loop from result page `i` on (0-based), with the table sink after each file write. */
  function FishFrom(pages: seq<Page>, i: nat, jobs: seq<Record>, file: Option<seq<Record>>, rows: seq<Row>,
                    jobTitle: string, fault: Record -> DbFault): (o: Outcome)
    decreases |pages| - i
  {
    if !Persisted(pages, i) then Outcome(Failed(ListingTimeout), i + 1, jobs, file, rows)
    else
      var jobs' := jobs + ExtractPage(pages[i].cards);
      var batch := NewJobs(jobs', Loaded(file));
      var file' := Persist(jobs', file);
      var s := StoreAll(rows, batch, jobTitle, fault);
      if s.error.Some? then Outcome(Failed(DbFailure(s.error.value)), i + 1, jobs', file', s.rows)
      else if !pages[i].hasNext then Outcome(Done, i + 1, jobs', file', s.rows)
      else if pages[i].fault == BrokenNext then Outcome(Failed(NextNavigation), i + 1, jobs', file', s.rows)
      else FishFrom(pages, i + 1, jobs', file', s.rows, jobTitle, fault)
  }

  /** The whole session for search term `jobTitle`, from the file's content and the table's rows. */
  function FishScrape(site: Site, file: Option<seq<Record>>, rows: seq<Row>, jobTitle: string, fault: Record -> DbFault): (o: Outcome) {
    if !site.homeLoads then Outcome(Failed(HomeNavigation), 0, [], file, rows)
    else if !site.cookieBanner then Outcome(Failed(CookieTimeout), 0, [], file, rows)
    else if !site.searchLoads then Outcome(Failed(SearchNavigation), 0, [], file, rows)
    else FishFrom(site.pages, 0, [], file, rows, jobTitle, fault)
  }

  /** The body of the `try`: navigation, cookie button, search, then the page loop with both sinks. */
  method FishScrapeSession(site: Site, file: JsonFile, table: Table, jobTitle: string, fault: Record -> DbFault)
    returns (status: Status, currentPage: nat)
    modifies file, table
    ensures var o := FishScrape(site, old(file.content), old(table.rows), jobTitle, fault);
      status == o.status && currentPage == o.currentPage && file.content == o.file && table.rows == o.rows
  {
    if !site.homeLoads { return Failed(HomeNavigation), 0; }
    if !site.cookieBanner { return Failed(CookieTimeout), 0; }
    if !site.searchLoads { return Failed(SearchNavigation), 0; }
    currentPage := 1;
    var jobs: seq<Record> := [];
    while true
      invariant currentPage >= 1
      invariant FishFrom(site.pages, currentPage - 1, jobs, file.content, table.rows, jobTitle, fault)
             == FishScrape(site, old(file.content), old(table.rows), jobTitle, fault)
      decreases |site.pages| - currentPage
    {
      if currentPage > |site.pages| || site.pages[currentPage - 1].fault == NoListing {
        return Failed(ListingTimeout), currentPage;
      }
      var page := site.pages[currentPage - 1];
      jobs := jobs + ExtractPage(page.cards);
      var existing := file.Load();
      var batch := NewJobs(jobs, existing);
      existing := existing + batch;
      file.Save(existing);
      var error := StoreBatch(table, batch, jobTitle, fault);
      if error.Some? {
        return Failed(DbFailure(error.value)), currentPage;
      }
      if !page.hasNext {
        break;
      }
      if page.fault == BrokenNext {
        return Failed(NextNavigation), currentPage;
      }
      currentPage := currentPage + 1;
    }
    status := Done;
  }

  /** `scrapeJobs`: open a page handle, run the session, and close the handle on every exit. */
  method FishScrapeJobs(site: Site, browser: Browser, file: JsonFile, table: Table, jobTitle: string, fault: Record -> DbFault)
    returns (status: Status, currentPage: nat)
    modifies browser, file, table
    ensures browser.openPages == old(browser.openPages)
    ensures var o := FishScrape(site, old(file.content), old(table.rows), jobTitle, fault);
      status == o.status && currentPage == o.currentPage && file.content == o.file && table.rows == o.rows
  {
    browser.NewPage();
    status, currentPage := FishScrapeSession(site, file, table, jobTitle, fault);
    browser.ClosePage();
  }

  /**
   * With a database that rejects nothing, the session visits the same pages, ends
   * the same way and leaves the same file as the session without a database.
   */
  lemma {:induction false} FishFromAgrees(pages: seq<Page>, i: nat, jobs: seq<Record>, file: Option<seq<Record>>, rows: seq<Row>,
                                           jobTitle: string, fault: Record -> DbFault)
    requires forall j :: fault(j) == NoFault
    ensures var o := FishFrom(pages, i, jobs, file, rows, jobTitle, fault);
      Crawl(o.status, o.currentPage, o.jobs, o.file) == CrawlFrom(pages, i, jobs, file)
    decreases |pages| - i
  {
    if Persisted(pages, i) {
      var jobs' := jobs + ExtractPage(pages[i].cards);
      var batch := NewJobs(jobs', Loaded(file));
      StoreAllNoFault(rows, batch, jobTitle, fault);
      if Continues(pages, i) {
        FishFromAgrees(pages, i + 1, jobs', Persist(jobs', file), StoreAll(rows, batch, jobTitle, fault).rows, jobTitle, fault);
      }
    }
  }

  /** The whole session agrees with Scraper.Scrape when the database rejects nothing. */
  lemma FishScrapeAgrees(site: Site, file: Option<seq<Record>>, rows: seq<Row>, jobTitle: string, fault: Record -> DbFault)
    requires forall j :: fault(j) == NoFault
    ensures var o := FishScrape(site, file, rows, jobTitle, fault);
      Crawl(o.status, o.currentPage, o.jobs, o.file) == Scrape(site, file)
  {
    if site.homeLoads && site.cookieBanner && site.searchLoads {
      FishFromAgrees(site.pages, 0, [], file, rows, jobTitle, fault);
    }
  }

  /** The loop stops at the first page that does not reach the next one, or earlier. */
  lemma {:induction false} FishFromStops(pages: seq<Page>, i: nat, jobs: seq<Record>, file: Option<seq<Record>>, rows: seq<Row>,
                                          jobTitle: string, fault: Record -> DbFault)
    ensures i + 1 <= FishFrom(pages, i, jobs, file, rows, jobTitle, fault).currentPage <= StopFrom(pages, i) + 1
    decreases |pages| - i
  {
    if Persisted(pages, i) {
      var jobs' := jobs + ExtractPage(pages[i].cards);
      var s := StoreAll(rows, NewJobs(jobs', Loaded(file)), jobTitle, fault);
      if s.error.None? && Continues(pages, i) {
        assert StopFrom(pages, i) == StopFrom(pages, i + 1);
        FishFromStops(pages, i + 1, jobs', Persist(jobs', file), s.rows, jobTitle, fault);
      }
    }
  }

  /**
   * The loop ends with a listing timeout exactly when the listing of its last
   * page did not appear; every other end, a rejection by the database
   * included, happens on a page whose listing appeared.
   */
  lemma {:induction false} FishFromEndsListed(pages: seq<Page>, i: nat, jobs: seq<Record>, file: Option<seq<Record>>, rows: seq<Row>,
                                               jobTitle: string, fault: Record -> DbFault)
    ensures var o := FishFrom(pages, i, jobs, file, rows, jobTitle, fault);
      o.status == Failed(ListingTimeout) <==> !Persisted(pages, o.currentPage - 1)
    decreases |pages| - i
  {
    if Persisted(pages, i) {
      var jobs' := jobs + ExtractPage(pages[i].cards);
      var s := StoreAll(rows, NewJobs(jobs', Loaded(file)), jobTitle, fault);
      if s.error.None? && Continues(pages, i) {
        FishFromNext(pages, i, jobs, file, rows, jobTitle, fault);
        FishFromEndsListed(pages, i + 1, jobs', Persist(jobs', file), s.rows, jobTitle, fault);
      } else {
        FishFromEndsHere(pages, i, jobs, file, rows, jobTitle, fault);
      }
    }
  }

  /** A page that reaches the next one, with nothing rejected by the database, hands the loop on to that page. */
  lemma FishFromNext(pages: seq<Page>, i: nat, jobs: seq<Record>, file: Option<seq<Record>>, rows: seq<Row>,
                     jobTitle: string, fault: Record -> DbFault)
    requires Continues(pages, i)
    requires var jobs' := jobs + ExtractPage(pages[i].cards);
      StoreAll(rows, NewJobs(jobs', Loaded(file)), jobTitle, fault).error.None?
    ensures var jobs' := jobs + ExtractPage(pages[i].cards);
      FishFrom(pages, i, jobs, file, rows, jobTitle, fault)
        == FishFrom(pages, i + 1, jobs', Persist(jobs', file), StoreAll(rows, NewJobs(jobs', Loaded(file)), jobTitle, fault).rows, jobTitle, fault)
  {
  }

  /** A page whose listing appeared, unless it reaches the next one and the database rejected nothing, ends the loop with its records accumulated and the file rewritten. */
  lemma FishFromEndsHere(pages: seq<Page>, i: nat, jobs: seq<Record>, file: Option<seq<Record>>, rows: seq<Row>,
                         jobTitle: string, fault: Record -> DbFault)
    requires Persisted(pages, i)
    requires var jobs' := jobs + ExtractPage(pages[i].cards);
      StoreAll(rows, NewJobs(jobs', Loaded(file)), jobTitle, fault).error.Some? || !Continues(pages, i)
    ensures var o := FishFrom(pages, i, jobs, file, rows, jobTitle, fault); var jobs' := jobs + ExtractPage(pages[i].cards);
      o.currentPage == i + 1 && o.jobs == jobs' && o.file == Persist(jobs', file)
  {
  }

  /** Without a rejection by the database, the loop ends where and as the session without a database does. */
  lemma {:induction false} FishFromStopsClean(pages: seq<Page>, i: nat, jobs: seq<Record>, file: Option<seq<Record>>, rows: seq<Row>,
                                               jobTitle: string, fault: Record -> DbFault)
    requires DbClean(FishFrom(pages, i, jobs, file, rows, jobTitle, fault))
    ensures var o := FishFrom(pages, i, jobs, file, rows, jobTitle, fault);
      o.currentPage == StopFrom(pages, i) + 1 && o.status == EndStatus(pages, StopFrom(pages, i))
    decreases |pages| - i
  {
    if Persisted(pages, i) {
      var jobs' := jobs + ExtractPage(pages[i].cards);
      var s := StoreAll(rows, NewJobs(jobs', Loaded(file)), jobTitle, fault);
      if Continues(pages, i) {
        assert StopFrom(pages, i) == StopFrom(pages, i + 1);
        FishFromStopsClean(pages, i + 1, jobs', Persist(jobs', file), s.rows, jobTitle, fault);
      } else {
        assert StopFrom(pages, i) == i;
      }
    } else {
      assert StopFrom(pages, i) == i;
    }
  }

  /**
   * The session's pagination: when the search succeeds, every page before the
   * last one visited reached the next one; the session ends on a database
   * rejection only on a page whose listing appeared, and otherwise ends exactly
   * as Scraper.ScrapePagination describes.
   */
  lemma FishScrapePagination(site: Site, file: Option<seq<Record>>, rows: seq<Row>, jobTitle: string, fault: Record -> DbFault)
    ensures var o := FishScrape(site, file, rows, jobTitle, fault); var pages := site.pages;
      if site.homeLoads && site.cookieBanner && site.searchLoads then
        && 1 <= o.currentPage <= |pages| + 1
        && (forall k :: 0 <= k < o.currentPage - 1 ==> Continues(pages, k))
        && (DbClean(o) ==> !Continues(pages, o.currentPage - 1) && o.status == EndStatus(pages, o.currentPage - 1))
        && (!DbClean(o) ==> Persisted(pages, o.currentPage - 1))
      else
        o.status.Failed? && o.currentPage == 0 && o.jobs == [] && o.file == file && o.rows == rows
  {
    if site.homeLoads && site.cookieBanner && site.searchLoads {
      FishFromStops(site.pages, 0, [], file, rows, jobTitle, fault);
      FishFromEndsListed(site.pages, 0, [], file, rows, jobTitle, fault);
      if DbClean(FishFrom(site.pages, 0, [], file, rows, jobTitle, fault)) {
        FishFromStopsClean(site.pages, 0, [], file, rows, jobTitle, fault);
      }
      StopFromIsFirstStop(site.pages, 0);
    }
  }

  /** The records accumulated before page `i` stay a prefix of the loop's final `jobs`. */
  lemma {:induction false} FishFromExtends(pages: seq<Page>, i: nat, jobs: seq<Record>, file: Option<seq<Record>>, rows: seq<Row>,
                                            jobTitle: string, fault: Record -> DbFault)
    ensures jobs <= FishFrom(pages, i, jobs, file, rows, jobTitle, fault).jobs
    decreases |pages| - i
  {
    if Persisted(pages, i) {
      var jobs' := jobs + ExtractPage(pages[i].cards);
      var s := StoreAll(rows, NewJobs(jobs', Loaded(file)), jobTitle, fault);
      if s.error.None? && Continues(pages, i) {
        FishFromExtends(pages, i + 1, jobs', Persist(jobs', file), s.rows, jobTitle, fault);
      }
    }
  }

  /**
   * The file is written before the table: whatever ends the loop, a rejection
   * by the database included, the file covers every accumulated link, so it
   * holds the whole batch of the last page.
   */
  lemma {:induction false} FishFromCovers(pages: seq<Page>, i: nat, jobs: seq<Record>, file: Option<seq<Record>>, rows: seq<Row>,
                                           jobTitle: string, fault: Record -> DbFault)
    requires Links(jobs) <= Links(Loaded(file))
    ensures var o := FishFrom(pages, i, jobs, file, rows, jobTitle, fault); Links(o.jobs) <= Links(Loaded(o.file))
    decreases |pages| - i
  {
    if Persisted(pages, i) {
      var jobs' := jobs + ExtractPage(pages[i].cards);
      var s := StoreAll(rows, NewJobs(jobs', Loaded(file)), jobTitle, fault);
      PersistCovers(jobs', file);
      if s.error.None? && Continues(pages, i) {
        FishFromNext(pages, i, jobs, file, rows, jobTitle, fault);
        FishFromCovers(pages, i + 1, jobs', Persist(jobs', file), s.rows, jobTitle, fault);
      } else {
        FishFromEndsHere(pages, i, jobs, file, rows, jobTitle, fault);
      }
    }
  }

  /** With no other writer, the file covers every link of the session, on every exit. */
  lemma FishScrapeCovers(site: Site, file: Option<seq<Record>>, rows: seq<Row>, jobTitle: string, fault: Record -> DbFault)
    ensures var o := FishScrape(site, file, rows, jobTitle, fault); Links(o.jobs) <= Links(Loaded(o.file))
  {
    if site.homeLoads && site.cookieBanner && site.searchLoads {
      FishFromCovers(site.pages, 0, [], file, rows, jobTitle, fault);
    }
  }

  /** `row` is the row, under `jobTitle`, of one of `jobs` whose link is not in `known`. */
  ghost predicate FoundRow(row: Row, jobs: seq<Record>, known: set<string>, jobTitle: string) {
    exists j :: j in jobs && row == RowOf(j, jobTitle) && j.link !in known
  }

  /** `after` extends `before`, and every row it adds is a FoundRow. */
  ghost predicate AddedFrom(before: seq<Row>, after: seq<Row>, jobs: seq<Record>, known: set<string>, jobTitle: string) {
    && before <= after
    && forall k :: |before| <= k < |after| ==> FoundRow(after[k], jobs, known, jobTitle)
  }

  /** Two stretches of added rows in a row are one, with the earlier known links and the later accumulated records. */
  lemma AddedChain(a: seq<Row>, b: seq<Row>, c: seq<Row>, jobs: seq<Record>, jobs': seq<Record>,
                   known: set<string>, known': set<string>, jobTitle: string)
    requires AddedFrom(a, b, jobs, known, jobTitle) && AddedFrom(b, c, jobs', known', jobTitle)
    requires jobs <= jobs' && known <= known'
    ensures AddedFrom(a, c, jobs', known, jobTitle)
  {
    assert a <= c by {
      assert forall k :: 0 <= k < |a| ==> c[k] == b[k] == a[k];
    }
    forall k | |a| <= k < |c| ensures FoundRow(c[k], jobs', known, jobTitle) {
      if k < |b| {
        assert c[k] == b[k];
        var j :| j in jobs && b[k] == RowOf(j, jobTitle) && j.link !in known;
        var m :| 0 <= m < |jobs| && jobs[m] == j;
        assert jobs'[m] == j;
        assert c[k] == b[k];
      } else {
        var j :| j in jobs' && c[k] == RowOf(j, jobTitle) && j.link !in known';
      }
    }
  }

  /** One page's batch goes to the table as rows of that page's accumulated jobs, with links the loaded file lacked. */
  lemma BatchAdded(rows: seq<Row>, jobs: seq<Record>, file: Option<seq<Record>>, jobTitle: string, fault: Record -> DbFault)
    ensures AddedFrom(rows, StoreAll(rows, NewJobs(jobs, Loaded(file)), jobTitle, fault).rows, jobs, Links(Loaded(file)), jobTitle)
  {
    var batch := NewJobs(jobs, Loaded(file));
    var after := StoreAll(rows, batch, jobTitle, fault).rows;
    StoreAllAppends(rows, batch, jobTitle, fault);
    NewJobsMembers(jobs, Loaded(file));
    forall k | |rows| <= k < |after| ensures FoundRow(after[k], jobs, Links(Loaded(file)), jobTitle) {
      var j :| j in batch && after[k] == RowOf(j, jobTitle);
    }
  }

  /**
   * The table only grows, and every row the session adds is the row of one of
   * its jobs whose link the starting file did not have: a job already in the
   * file is never inserted.
   */
  lemma {:induction false} FishFromAdds(pages: seq<Page>, i: nat, jobs: seq<Record>, file: Option<seq<Record>>, rows: seq<Row>,
                                         jobTitle: string, fault: Record -> DbFault)
    ensures var o := FishFrom(pages, i, jobs, file, rows, jobTitle, fault);
      AddedFrom(rows, o.rows, o.jobs, Links(Loaded(file)), jobTitle)
    decreases |pages| - i
  {
    if Persisted(pages, i) {
      var jobs' := jobs + ExtractPage(pages[i].cards);
      var file' := Persist(jobs', file);
      var s := StoreAll(rows, NewJobs(jobs', Loaded(file)), jobTitle, fault);
      BatchAdded(rows, jobs', file, jobTitle, fault);
      if s.error.None? && Continues(pages, i) {
        var o := FishFrom(pages, i + 1, jobs', file', s.rows, jobTitle, fault);
        FishFromAdds(pages, i + 1, jobs', file', s.rows, jobTitle, fault);
        FishFromExtends(pages, i + 1, jobs', file', s.rows, jobTitle, fault);
        PersistAppends(jobs', file);
        LinksOfPrefix(Loaded(file), Loaded(file'));
        AddedChain(rows, s.rows, o.rows, jobs', o.jobs, Links(Loaded(file)), Links(Loaded(file')), jobTitle);
      }
    }
  }

  /**
   * Over a whole session the table is append-only and every added row is the
   * row, under the search term, of a job the session found: its link was not in
   * the starting file and is in the final one.
   */
  lemma FishScrapeAdds(site: Site, file: Option<seq<Record>>, rows: seq<Row>, jobTitle: string, fault: Record -> DbFault)
    ensures var o := FishScrape(site, file, rows, jobTitle, fault);
      && rows <= o.rows
      && forall k :: |rows| <= k < |o.rows| ==>
           FoundRow(o.rows[k], o.jobs, Links(Loaded(file)), jobTitle) && o.rows[k].originalJobLink in Links(Loaded(o.file))
  {
    if site.homeLoads && site.cookieBanner && site.searchLoads {
      var o := FishFrom(site.pages, 0, [], file, rows, jobTitle, fault);
      FishFromAdds(site.pages, 0, [], file, rows, jobTitle, fault);
      FishFromCovers(site.pages, 0, [], file, rows, jobTitle, fault);
      AddedLinksKnown(rows, o.rows, o.jobs, Links(Loaded(file)), Links(Loaded(o.file)), jobTitle);
    }
  }

  /** Every row added from records whose links all lie in `final` has its link in `final`. */
  lemma AddedLinksKnown(before: seq<Row>, after: seq<Row>, jobs: seq<Record>, known: set<string>, final: set<string>, jobTitle: string)
    requires AddedFrom(before, after, jobs, known, jobTitle) && Links(jobs) <= final
    ensures forall k :: |before| <= k < |after| ==> after[k].originalJobLink in final
  {
    forall k | |before| <= k < |after| ensures after[k].originalJobLink in final {
      assert FoundRow(after[k], jobs, known, jobTitle);
      var j :| j in jobs && after[k] == RowOf(j, jobTitle) && j.link !in known;
      LinksOf(jobs, j);
    }
  }

  /** The loop keeps a table without duplicate links free of them, whatever the database answers. */
  lemma {:induction false} FishFromKeepsUnique(pages: seq<Page>, i: nat, jobs: seq<Record>, file: Option<seq<Record>>, rows: seq<Row>,
                                                jobTitle: string, fault: Record -> DbFault)
    requires UniqueLinks(rows)
    ensures UniqueLinks(FishFrom(pages, i, jobs, file, rows, jobTitle, fault).rows)
    decreases |pages| - i
  {
    if Persisted(pages, i) {
      var jobs' := jobs + ExtractPage(pages[i].cards);
      var batch := NewJobs(jobs', Loaded(file));
      var s := StoreAll(rows, batch, jobTitle, fault);
      StoreAllKeepsUnique(rows, batch, jobTitle, fault);
      if s.error.None? && Continues(pages, i) {
        FishFromKeepsUnique(pages, i + 1, jobs', Persist(jobs', file), s.rows, jobTitle, fault);
      }
    }
  }

  /** At most one row per link: a session keeps a table without duplicate links free of them. */
  lemma FishScrapeKeepsUnique(site: Site, file: Option<seq<Record>>, rows: seq<Row>, jobTitle: string, fault: Record -> DbFault)
    requires UniqueLinks(rows)
    ensures UniqueLinks(FishScrape(site, file, rows, jobTitle, fault).rows)
  {
    if site.homeLoads && site.cookieBanner && site.searchLoads {
      FishFromKeepsUnique(site.pages, 0, [], file, rows, jobTitle, fault);
    }
  }

  /** A session with no rejection by the database. */
  predicate DbClean(o: Outcome) {
    o.status != Failed(DbQuery) && o.status != Failed(DbInsert)
  }

  /** A file that exists when the loop starts still exists when it ends: every page rewrites it. */
  lemma {:induction false} FishFromFileSome(pages: seq<Page>, i: nat, jobs: seq<Record>, file: Option<seq<Record>>, rows: seq<Row>,
                                             jobTitle: string, fault: Record -> DbFault)
    requires file.Some?
    ensures FishFrom(pages, i, jobs, file, rows, jobTitle, fault).file.Some?
    decreases |pages| - i
  {
    if Persisted(pages, i) {
      var jobs' := jobs + ExtractPage(pages[i].cards);
      var s := StoreAll(rows, NewJobs(jobs', Loaded(file)), jobTitle, fault);
      if s.error.None? && Continues(pages, i) {
        FishFromFileSome(pages, i + 1, jobs', Persist(jobs', file), s.rows, jobTitle, fault);
      }
    }
  }

  /** A page whose accumulated links the file already covers rewrites the file as it is and inserts nothing. */
  lemma FishCoveredPage(pages: seq<Page>, i: nat, jobs: seq<Record>, file: Option<seq<Record>>, rows: seq<Row>,
                        jobTitle: string, fault: Record -> DbFault)
    requires Persisted(pages, i) && file.Some?
    requires Links(jobs + ExtractPage(pages[i].cards)) <= Links(file.value)
    ensures var jobs' := jobs + ExtractPage(pages[i].cards);
      FishFrom(pages, i, jobs, file, rows, jobTitle, fault)
        == if Continues(pages, i) then FishFrom(pages, i + 1, jobs', file, rows, jobTitle, fault)
           else Outcome(EndStatus(pages, i), i + 1, jobs', file, rows)
  {
    var jobs' := jobs + ExtractPage(pages[i].cards);
    NewJobsEmpty(jobs', file.value);
    PersistCovered(jobs', file);
    assert StoreAll(rows, [], jobTitle, fault) == Stored(None, rows);
  }

  /**
   * Re-running from the same point over the same pages, with the file a run
   * without database rejections left, ends the same way and rewrites the file
   * unchanged; it makes no database call, so it leaves any table `rows'` as it
   * is, whatever the database `fault'` would answer.
   */
  lemma {:induction false} FishFromTwice(pages: seq<Page>, i: nat, jobs: seq<Record>, file: Option<seq<Record>>, rows: seq<Row>,
                                          jobTitle: string, fault: Record -> DbFault, rows': seq<Row>, fault': Record -> DbFault)
    requires DbClean(FishFrom(pages, i, jobs, file, rows, jobTitle, fault))
    ensures var o := FishFrom(pages, i, jobs, file, rows, jobTitle, fault);
      FishFrom(pages, i, jobs, o.file, rows', jobTitle, fault') == o.(rows := rows')
    decreases |pages| - i
  {
    if Persisted(pages, i) {
      var o := FishFrom(pages, i, jobs, file, rows, jobTitle, fault);
      var jobs' := jobs + ExtractPage(pages[i].cards);
      var file' := Persist(jobs', file);
      var s := StoreAll(rows, NewJobs(jobs', Loaded(file)), jobTitle, fault);
      PersistCovers(jobs', file);
      if Continues(pages, i) {
        assert o == FishFrom(pages, i + 1, jobs', file', s.rows, jobTitle, fault);
        FishFromCovers(pages, i + 1, jobs', file', s.rows, jobTitle, fault);
        FishFromExtends(pages, i + 1, jobs', file', s.rows, jobTitle, fault);
        FishFromFileSome(pages, i + 1, jobs', file', s.rows, jobTitle, fault);
        LinksOfPrefix(jobs', o.jobs);
        FishCoveredPage(pages, i, jobs, o.file, rows', jobTitle, fault');
        FishFromTwice(pages, i + 1, jobs', file', s.rows, jobTitle, fault, rows', fault');
      } else {
        assert o == Outcome(EndStatus(pages, i), i + 1, jobs', file', s.rows);
        FishCoveredPage(pages, i, jobs, file', rows', jobTitle, fault');
      }
    }
  }

  /**
   * Idempotence: a second session over unchanged pages, with the file the first
   * left (it had no database rejection), leaves the file unchanged and ends
   * exactly as the first did; it inserts nothing into whatever table it meets,
   * however that database would answer.
   */
  lemma FishScrapeIdempotent(site: Site, file: Option<seq<Record>>, rows: seq<Row>, jobTitle: string, fault: Record -> DbFault,
                             rows': seq<Row>, fault': Record -> DbFault)
    requires DbClean(FishScrape(site, file, rows, jobTitle, fault))
    ensures var o := FishScrape(site, file, rows, jobTitle, fault);
      FishScrape(site, o.file, rows', jobTitle, fault') == o.(rows := rows')
  {
    if site.homeLoads && site.cookieBanner && site.searchLoads {
      FishFromTwice(site.pages, 0, [], file, rows, jobTitle, fault, rows', fault');
    }
  }
}
