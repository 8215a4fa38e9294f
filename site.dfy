/**
 * The listing site as seen through the browser, reduced to what the crawl
 * depends on: which steps succeed, what each result page shows and whether it
 * has a "Next" link; and the browser's count of open page handles.
 */
module Site {
  import opened Records

  /** The step of a page visit that fails, if any. */
  datatype PageFault =
    | Clean
    | NoListing    // `waitForSelector('.lister__item')` times out
    | BrokenNext   // `page.goto(nextPageUrl)` fails

  /** One result page: its cards in document order and whether it has a `rel="next"` link. */
  datatype Page = Page(cards: seq<Card>, hasNext: bool, fault: PageFault)

  /**
   * The site as it answers one search term: whether the home page loads, whether
   * the cookie button appears in time, whether typing the term and waiting for the
   * navigation succeed, and the result pages in the order the "Next" links reach
   * them. A result list that is empty, or a "Next" link beyond the last page, shows
   * no listing, so the listing wait times out.
   */
  datatype Site = Site(homeLoads: bool, cookieBanner: bool, searchLoads: bool, pages: seq<Page>)

  /** The step at which a session was ended by the `catch`. */
  datatype Failure =
    | HomeNavigation
    | CookieTimeout
    | SearchNavigation
    | ListingTimeout
    | NextNavigation
    | DbQuery
    | DbInsert

  datatype Status = Done | Failed(step: Failure)

  /** The shared browser: `newPage` opens a page handle, `page.close` releases it. */
  class Browser {
    var openPages: nat

    constructor ()
      ensures openPages == 0
    {
      openPages := 0;
    }

    method NewPage()
      modifies this
      ensures openPages == old(openPages) + 1
    {
      openPages := openPages + 1;
    }

    method ClosePage()
      requires openPages > 0
      modifies this
      ensures openPages == old(openPages) - 1
    {
      openPages := openPages - 1;
    }
  }

  /*
   * Pagination, shared by both scrapers. Pages are numbered from 0 here; while
   * the loop is on page `k`, the source's `currentPage` is `k + 1`.
   */

  /** Page `k` shows its listing, so its cards are read and the file is rewritten. */
  predicate Persisted(pages: seq<Page>, k: int) {
    0 <= k < |pages| && pages[k].fault != NoListing
  }

  /** Page `k` shows its listing, has a "Next" link and reaches the next page. */
  predicate Continues(pages: seq<Page>, k: nat) {
    k < |pages| && pages[k].fault == Clean && pages[k].hasNext
  }

  /** The page at which the loop, started at page `i`, leaves (unless something else ends it first). */
  function StopFrom(pages: seq<Page>, i: nat): (j: nat)
    ensures i <= j
    ensures i <= |pages| ==> j <= |pages|
    decreases |pages| - i
  {
    if Continues(pages, i) then StopFrom(pages, i + 1) else i
  }

  /** How the loop ends when it leaves at page `j`. */
  function EndStatus(pages: seq<Page>, j: nat): (status: Status) {
    if !Persisted(pages, j) then Failed(ListingTimeout)
    else if !pages[j].hasNext then Done
    else Failed(NextNavigation)
  }

  /** The records read off page `j`: none if its listing never appeared. */
  function PageRecords(pages: seq<Page>, j: nat): (records: seq<Record>) {
    if Persisted(pages, j) then ExtractPage(pages[j].cards) else []
  }

  /** The records of pages `i` to `j - 1`, page after page. */
  function RecordsOf(pages: seq<Page>, i: nat, j: nat): (records: seq<Record>)
    requires j <= |pages|
    decreases j - i
  {
    if i >= j then [] else ExtractPage(pages[i].cards) + RecordsOf(pages, i + 1, j)
  }

  /** `jobs = [...jobs, ...newJobs]` on every page from `i` until the loop leaves. */
  function JobsFrom(pages: seq<Page>, i: nat, jobs: seq<Record>): (accumulated: seq<Record>)
    decreases |pages| - i
  {
    if Continues(pages, i) then JobsFrom(pages, i + 1, jobs + ExtractPage(pages[i].cards))
    else jobs + PageRecords(pages, i)
  }

  /**
   * Pagination: the loop goes on exactly while a page reaches the next one, and
   * leaves at the first page `j` that does not. It ends in Done exactly when page
   * `j` shows its listing and has no "Next" link; otherwise the listing wait timed
   * out or the navigation to the next page failed.
   */
  lemma {:induction false} StopFromIsFirstStop(pages: seq<Page>, i: nat)
    requires i <= |pages|
    ensures var j := StopFrom(pages, i);
      && i <= j <= |pages|
      && (forall k :: i <= k < j ==> Continues(pages, k))
      && !Continues(pages, j)
      && (EndStatus(pages, j) == Done <==> Persisted(pages, j) && !pages[j].hasNext)
      && (EndStatus(pages, j) == Failed(ListingTimeout) <==> !Persisted(pages, j))
    decreases |pages| - i
  {
    if Continues(pages, i) {
      StopFromIsFirstStop(pages, i + 1);
    }
  }

  /**
   * `jobs` accumulates across all pages of the session: it gains the records of
   * every page visited whose listing appeared, in page order.
   */
  lemma {:induction false} JobsFromAccumulates(pages: seq<Page>, i: nat, jobs: seq<Record>)
    requires i <= |pages|
    ensures var j := StopFrom(pages, i);
      j <= |pages| && JobsFrom(pages, i, jobs) == jobs + RecordsOf(pages, i, j) + PageRecords(pages, j)
    decreases |pages| - i
  {
    var j := StopFrom(pages, i);
    if Continues(pages, i) {
      var e := ExtractPage(pages[i].cards);
      assert j == StopFrom(pages, i + 1);
      JobsFromAccumulates(pages, i + 1, jobs + e);
      RecordsOfStep(pages, i, j);
      var rest := RecordsOf(pages, i + 1, j);
      assert (jobs + e) + rest == jobs + (e + rest);
    } else {
      assert j == i;
      assert RecordsOf(pages, i, i) == [];
      assert jobs + [] == jobs;
    }
  }

  /** One step of RecordsOf: the first page's records come first. */
  lemma RecordsOfStep(pages: seq<Page>, i: nat, j: nat)
    requires i < j <= |pages|
    ensures RecordsOf(pages, i, j) == ExtractPage(pages[i].cards) + RecordsOf(pages, i + 1, j)
  {
  }

  /** The accumulated records only grow: the `jobs` a page starts with stay a prefix. */
  lemma {:induction false} JobsFromExtends(pages: seq<Page>, i: nat, jobs: seq<Record>)
    ensures jobs <= JobsFrom(pages, i, jobs)
    decreases |pages| - i
  {
    if Continues(pages, i) {
      JobsFromExtends(pages, i + 1, jobs + ExtractPage(pages[i].cards));
    }
  }
}
