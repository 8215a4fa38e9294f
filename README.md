# job-crawler: the crawl, dedup and persist loop

This project models `scrapeJobs`, the per-search-term session of the job-crawler scrapers.
`scraper.js` writes only the JSON file. `fishscraper.js` also writes to the MySQL table `unsolicited_job_post`.

A session goes through these steps:
1. It opens a page handle.
2. It loads the site's home page and waits for the cookie button, then clicks it.
3. It submits the search term.
4. It loops over the result pages. On each page it:
   - reads every listing card into a seven-field record, with a sentinel such as `No Title` for a missing or blank field;
   - appends those records to the session's accumulated `jobs`;
   - reloads `fish4jobs.json` (a failed read or parse gives an empty list);
   - keeps the accumulated records whose `link` is not in the loaded list;
   - rewrites the file as the loaded list followed by that batch;
   - in `fishscraper.js` only, passes each record of the batch in turn to `storeJobInDB`, which inserts a row unless a row already has that link;
   - then follows the "Next" link, or stops when there is none.
5. An error at any step ends the session. The page handle is closed on every exit.

Everything external becomes a value:
- The site becomes a `Site`: flags for the three setup steps and a sequence of `Page`s. Each page has its cards, a has-next flag and a fault (`NoListing`, `BrokenNext`).
- The file becomes the class `Storage.JsonFile`, holding an `Option<seq<Record>>`. `None` stands for a file that is missing or cannot be parsed.
- The table becomes the class `Database.Table`, holding a `seq<Row>`.
- Whether the database rejects the lookup or the insert for a record is a parameter, `fault: Record -> DbFault`.
- The browser's open page handles become a counter in `Site.Browser`.

Modules:
- `Records`: the record, the card, JavaScript `trim`, field defaulting and the card map.
- `Dedup`: the `filter`/`some` batch selection and its properties.
- `Storage`: the file.
- `Site`: pages, statuses, the browser, and the pagination functions shared by both scrapers.
- `Database`: rows, the table class, `storeJobInDB`, `jobExistsInDB` and the insert loop.
- `Scraper`: the session of `scraper.js`.
- `FishScraper`: the session of `fishscraper.js`.

Each session method is proved equal to a functional specification: `Scraper.Scrape` and `FishScraper.FishScrape`. The loop invariant says that the specification of the rest of the loop, run from the current state, gives the specification of the whole session. The lemmas then state, about those functions:
- the pagination;
- that the file covers every accumulated link;
- append-only growth of the file and of the table;
- at most one row per link;
- idempotent reruns;
- that, with a database that rejects nothing, both scrapers agree.

Behaviours of the code worth noting:
- The cookie button wait is mandatory. A timeout there ends the session (`fishscraper.js:74`, `scraper.js:14`).
- A rejected lookup or insert in `storeJobInDB` propagates out of the insert loop and ends the session at `fishscraper.js:152`; the remaining records of the batch are not tried. The file has already been written by then, so the failed record and the rest of its batch are in the file. No later run selects them again. `FishScraper.FishScrapeAdds` states this: no row is ever added for a link already in the file at the start of a session.
- The file is reloaded on every page (`fishscraper.js:111-117`, `scraper.js:51-57`).
- Every read or parse failure gives the empty list, a missing file being only one of them.

## Model

| member | source | states |
|---|---|---|
| Records.TrimStart | fishscraper.js:98 | carries no contract of its own; Records.TrimStartCuts states its properties |
| Records.TrimStartCuts | fishscraper.js:98 | TrimStart's result is a suffix of the input, the cut prefix is all white space, and the result is empty or starts with a non-white character |
| Records.TrimEnd | fishscraper.js:98 | carries no contract of its own; Records.TrimEndCuts states its properties |
| Records.TrimEndCuts | fishscraper.js:98 | TrimEnd's result is a prefix of the input, the cut suffix is all white space, and the result is empty or ends with a non-white character |
| Records.Trim | fishscraper.js:98-104 | carries no contract of its own; Records.TrimSpec and Records.TrimOfTrimmed state its properties |
| Records.TrimSpec | fishscraper.js:98-104 | `String.prototype.trim`: the result is one contiguous piece of the input with only white space before and after it, it has no white space at either end, and it is empty exactly when the input is all white space |
| Records.TrimOfTrimmed | fishscraper.js:98-104 | trimming an already trimmed string changes nothing, so trim is idempotent |
| Records.Text | fishscraper.js:98-104 | carries no contract of its own; Records.TextDefaulting states its properties |
| Records.TextDefaulting | fishscraper.js:98-104 | a text field is never empty and never padded; it is the sentinel when the element is missing or its text is all white space, and the element's trimmed text otherwise |
| Records.Href | fishscraper.js:103 | carries no contract of its own; Records.ExtractRecordDefaults states its properties |
| Records.ExtractRecord | fishscraper.js:97-105 | carries no contract of its own; Records.ExtractRecordDefaults states its properties |
| Records.ExtractPage | fishscraper.js:95-106 | carries no contract of its own; Records.ExtractPageDefaults states its properties |
| Records.ExtractRecordDefaults | fishscraper.js:97-105 | each of the six text fields of a card's record keeps TextDefaulting's promises with its own sentinel; the link is never empty, is the href when there is a non-empty one, and is `No Link` exactly when the anchor is missing, its href is empty or its href is literally `No Link` |
| Records.ExtractPageDefaults | fishscraper.js:95-106 | the card map returns one record per card, in document order, and each record keeps the promises of ExtractRecordDefaults |
| Dedup.Known | fishscraper.js:121 | carries no contract of its own; Dedup.KnownLinks states its meaning |
| Dedup.KnownLinks | fishscraper.js:121 | `existingJobs.some(e => e.link === link)` holds exactly when the link is among the snapshot's links |
| Dedup.NewJobs | fishscraper.js:120-122 | the batch is never longer than the accumulated records |
| Dedup.NewJobsMembers | fishscraper.js:120-122 | a record is in the batch exactly when it is an accumulated record whose link is not in the snapshot |
| Dedup.NewJobsInOrder | fishscraper.js:120-122 | the batch is a subsequence of the accumulated records (order kept), and each record occurs in it as often as in the accumulated records when its link is new, and not at all otherwise (no dedup within the batch) |
| Dedup.NewJobsKeepsAllUnknown | fishscraper.js:120-122 | when no accumulated link is in the snapshot, the batch is all the accumulated records |
| Dedup.NewJobsEmpty | fishscraper.js:120-122 | the batch is empty exactly when every accumulated link is already in the snapshot |
| Dedup.NewJobsAppend | fishscraper.js:108-122 | the filter distributes over concatenation, so re-filtering earlier pages' records together with the new page's is filtering each part |
| Dedup.MergeCovers | fishscraper.js:120-127 | after the merge, every accumulated link is in the snapshot, and the merged snapshot's links are the old links plus the accumulated ones |
| Storage.Loaded | fishscraper.js:111-117 | carries no contract of its own; it is the `existingJobs` the `try`/`catch` leaves, the empty snapshot when there is no file; Storage.JsonFile.Load returns it, and Scraper.PersistCovers and Scraper.PersistAppends state what a page's write does to it |
| Storage.JsonFile.Load | fishscraper.js:111-117 | loading is fail-soft: a missing or unparsable file gives the empty snapshot, anything else gives its content, and nothing changes |
| Storage.JsonFile.Save | fishscraper.js:130 | the file then holds exactly the given snapshot |
| Site.Browser.NewPage | fishscraper.js:66 | one more page handle is open |
| Site.Browser.ClosePage | fishscraper.js:154-156 | one fewer page handle is open |
| Site.Persisted | fishscraper.js:92 | carries no contract of its own; it is the listing wait succeeding; Site.EndStatus, Site.StopFromIsFirstStop and FishScraper.FishFromEndsListed state its role |
| Site.Continues | fishscraper.js:140-145 | carries no contract of its own; it is a page with a "Next" link whose navigation succeeds; Site.StopFromIsFirstStop and FishScraper.FishScrapePagination state its role |
| Site.StopFrom | fishscraper.js:88-149 | the page the loop leaves at is never before the one it starts at, nor past the end of the pages; Site.StopFromIsFirstStop says which page it is |
| Site.EndStatus | fishscraper.js:92-148 | carries no contract of its own; Site.StopFromIsFirstStop states its properties |
| Site.JobsFrom | fishscraper.js:108 | carries no contract of its own; Site.JobsFromAccumulates and Site.JobsFromExtends state its properties |
| Site.StopFromIsFirstStop | fishscraper.js:88-149 | the loop stops at the first page that does not reach the next one; it ends in Done exactly when that page's listing appeared and it has no "Next" link, and in a listing timeout exactly when its listing did not appear |
| Site.JobsFromAccumulates | fishscraper.js:108 | the accumulated records are the records of every visited page whose listing appeared, in page order |
| Site.JobsFromExtends | fishscraper.js:108 | the accumulated records only grow |
| Database.Exists | fishscraper.js:14-22 | carries no contract of its own; it is `result.length > 0` for the lookup by `original_job_link`; Database.Table.JobExists returns it, Database.StoreCases states its effect on a store, and Database.ExistsPrefix keeps it as the table grows |
| Database.RowOf | fishscraper.js:34-44 | carries no contract of its own; Database.StoreCases states the row it builds |
| Database.Store | fishscraper.js:29-62 | carries no contract of its own; Database.StoreCases, Database.StoreAtMostOnce and Database.StoreKeepsUnique state its properties |
| Database.StoreAll | fishscraper.js:134-137 | carries no contract of its own; the StoreAll lemmas below state its properties |
| Database.Table.JobExists | fishscraper.js:14-26 | a rejected query gives no answer; otherwise the answer is whether some row has the link as `original_job_link`, ignoring `websites_id`; the table is not changed |
| Database.Table.Insert | fishscraper.js:53-61 | an insert that is not rejected appends exactly the given row; a rejected one changes nothing |
| Database.Table.StoreJob | fishscraper.js:29-62 | `storeJobInDB`: the outcome and the new table are Store's; a known link leaves the table unchanged, and an unknown one appends at most its row |
| Database.StoreBatch | fishscraper.js:134-137 | the insert loop stores the batch's records in order and stops at the first rejection; its outcome and table are StoreAll's |
| Database.StoreCases | fishscraper.js:29-62 | the lookup fails exactly on a query fault; the insert fails exactly on an insert fault for an unknown link; the table changes exactly when there is no fault and the link is unknown, and then gains one row with `websites_id` 12, the search term as `category_name`, the job's link and `job_posted` 'Yes' |
| Database.StoreAtMostOnce | fishscraper.js:46-51 | storing once more a job that was stored without error inserts nothing |
| Database.StoreKeepsUnique | fishscraper.js:46-61 | the existence check keeps a table without duplicate links free of them |
| Database.StoreAllKeepsUnique | fishscraper.js:134-137 | a whole batch keeps the table free of duplicate links, even when the batch repeats a link |
| Database.StoreAllAppends | fishscraper.js:134-137 | the table only grows, and each added row is the row of one of the batch's jobs, with a link the old table lacked |
| Database.StoreAllComplete | fishscraper.js:134-137 | without a rejection, every batch job's link has a row afterwards |
| Database.StoreAllStopsAtFirstError | fishscraper.js:134-137 | a rejection stops the loop at the first rejected job: the jobs before it were stored without error, and its own call produced the rejection on the table they left |
| Database.StoreAllFresh | fishscraper.js:134-137 | jobs with distinct new links and no rejection append exactly their rows, in batch order |
| Database.StoreAllNoFault | fishscraper.js:134-137 | a database that rejects nothing makes the loop finish without error |
| Database.StoreAllKnown | fishscraper.js:134-137 | a batch whose links all have rows, with no rejected lookup, inserts nothing |
| Scraper.Persist | scraper.js:50-70 | carries no contract of its own; Scraper.PersistCovers, Scraper.PersistAppends and Scraper.PersistCovered state its properties |
| Scraper.FileFrom | scraper.js:28-83 | carries no contract of its own; Scraper.FileFromCovers, Scraper.FileFromGrows and Scraper.FileFromTwice state its properties |
| Scraper.CrawlFrom | scraper.js:28-83 | carries no contract of its own; Scraper.CrawlFromClosedForm and Scraper.ScrapePagination state its properties |
| Scraper.CrawlFromClosedForm | scraper.js:28-83 | the loop leaves at the first page that does not reach the next one, ends as that page decides, with the records of every visited page whose listing appeared and the file the page-by-page rewrites leave |
| Scraper.Scrape | scraper.js:9-85 | carries no contract of its own; Scraper.ScrapeSession is proved equal to it, and the Scrape lemmas below state its properties |
| Scraper.ScrapeSession | scraper.js:9-85 | the try block ends with the status, `currentPage` and file of the session's specification Scrape |
| Scraper.ScrapeJobs | scraper.js:5-91 | as ScrapeSession, and the page handle opened at the start is closed on every exit |
| Scraper.ScrapePagination | scraper.js:24-83 | with a successful search, `currentPage` counts the visited pages; every earlier page reached the next one and the last did not; Done exactly when the last listing appeared without a "Next" link; `jobs` holds the visited pages' records in order; a setup failure reads and writes nothing |
| Scraper.PersistCovers | scraper.js:60-70 | after a page's write every accumulated link is in the file |
| Scraper.FileFromCovers | scraper.js:28-83 | a file that covers the accumulated links before a page still covers them when the loop ends, however it ends |
| Scraper.ScrapeCovers | scraper.js:48-70 | with no other writer the file covers every link the session accumulated, on every exit |
| Scraper.PersistAppends | scraper.js:60-70 | one page's write keeps the old snapshot as a prefix and adds only accumulated records with new links |
| Scraper.FileFromGrows | scraper.js:28-83 | the loop keeps the starting snapshot as a prefix, adds only accumulated records with links it did not have, and never makes a present file missing |
| Scraper.ScrapeKeepsSnapshot | scraper.js:67-70 | the whole session's effect on the file is append-only in that sense |
| Scraper.PersistCovered | scraper.js:60-70 | a file that already covers the accumulated links is rewritten as it is |
| Scraper.FileFromTwice | scraper.js:28-83 | re-running the loop with the file the first run left rewrites that file unchanged |
| Scraper.ScrapeIdempotent | scraper.js:48-70 | a rerun over the same pages with the file the first run left leaves the file unchanged and ends exactly as the first run did |
| FishScraper.FishFrom | fishscraper.js:88-149 | carries no contract of its own; the FishFrom lemmas below state its properties |
| FishScraper.FishScrape | fishscraper.js:69-153 | carries no contract of its own; FishScraper.FishScrapeSession is proved equal to it, and the FishScrape lemmas below state its properties |
| FishScraper.FishScrapeSession | fishscraper.js:69-153 | the try block ends with the status, `currentPage`, file and table of the session's specification FishScrape |
| FishScraper.FishScrapeJobs | fishscraper.js:65-157 | as FishScrapeSession, and the page handle is closed on every exit |
| FishScraper.FishFromAgrees | fishscraper.js:88-149 | with a database that rejects nothing, the loop ends like the loop of `scraper.js`: same status, `currentPage`, `jobs` and file |
| FishScraper.FishScrapeAgrees | fishscraper.js:65-157 | the same for the whole session |
| FishScraper.FishFromStops | fishscraper.js:88-149 | the loop ends on the page it starts at or later, and no later than the first page that does not reach the next one |
| FishScraper.FishFromEndsListed | fishscraper.js:88-149 | the loop ends with a listing timeout exactly when its last page's listing did not appear; every other end, a database rejection included, happens on a page whose listing appeared |
| FishScraper.FishFromStopsClean | fishscraper.js:88-149 | without a database rejection the loop ends exactly at that page, with the status that page gives |
| FishScraper.FishScrapePagination | fishscraper.js:84-149 | the session's pagination: `currentPage` counts the visited pages, each earlier one reached the next; the end is decided by the last page unless the database rejected a call there; a setup failure touches neither sink |
| FishScraper.FishFromExtends | fishscraper.js:108 | the accumulated records only grow |
| FishScraper.FishFromCovers | fishscraper.js:108-137 | whatever ends the loop, a database rejection included, the file covers every accumulated link, so it holds the whole last batch |
| FishScraper.FishScrapeCovers | fishscraper.js:108-137 | the same for the whole session, starting from no records |
| FishScraper.BatchAdded | fishscraper.js:120-137 | one page's inserts add only rows of that page's accumulated records whose links the loaded file lacked |
| FishScraper.FishFromAdds | fishscraper.js:88-149 | the table only grows during the loop, and every added row is the row of an accumulated record whose link was not in the starting file |
| FishScraper.FishScrapeAdds | fishscraper.js:108-137 | over a session the table is append-only; each added row is the row, under the search term, of a job the session found, whose link was not in the starting file and is in the final one |
| FishScraper.FishFromKeepsUnique | fishscraper.js:134-137 | the loop keeps a table without duplicate links free of them |
| FishScraper.FishScrapeKeepsUnique | fishscraper.js:88-149 | a session keeps at most one row per link |
| FishScraper.FishFromFileSome | fishscraper.js:111-130 | a present file stays present |
| FishScraper.FishCoveredPage | fishscraper.js:111-137 | a page whose accumulated links the file already covers leaves the file and the table unchanged and goes on as the page says |
| FishScraper.FishFromTwice | fishscraper.js:88-149 | re-running the loop with the file a run without database rejections left ends the same way and rewrites the file unchanged; it makes no database call, so any table is left as it is, whatever the database would answer |
| FishScraper.FishScrapeIdempotent | fishscraper.js:108-137 | a second session over unchanged pages, after one without database rejections, leaves the file unchanged and ends exactly as the first; it makes no database call, so any table, changed by others or not, is left as it is, even with a database that would reject every call |

## Left out

- Browser automation (navigation, selectors, typing, clicking, timeouts): each step is a flag that says whether it succeeds. A page past the end of the modelled sequence counts as a listing timeout. A page with no cards would also time out in the listing wait, but the model does not force such a page to carry the `NoListing` fault.
- DOM querying and `innerText`: a card gives each field's text, or `None` when the element is missing.
- JSON serialisation, pretty-printing and the real file system: the file is a slot holding a snapshot, or `None`.
- A file that parses to something other than an array (`{}`, `null`, `5`) makes `existingJobs.some` throw (`fishscraper.js:121`, `scraper.js:61`), which ends the session before the file is rewritten. The model reads every present file as an array of records, so it does not capture that exit.
- Database.Table.JobExists: the lookup compares links exactly, through Database.Exists. The query at `fishscraper.js:15` runs under the column's collation, which may compare case-insensitively or ignore trailing spaces; the model does not capture such matches.
- The `while (true)` loop (`fishscraper.js:88`, `scraper.js:28`) has no page limit, so a site whose "Next" links never end keeps the session running for ever. The pages are a finite sequence here, so every modelled session ends.
- Storage.JsonFile.Save: a failing write of the file is not modelled, and every write succeeds.
- MySQL connection, credentials and SQL text: the table is a sequence of rows.
- The `created_on` timestamp (`NOW()`): rows have no time column. The posting date is missing from the row because the code does not store it.
- Database.Table.StoreJob: the database answers through a per-record fault oracle. A record that appears twice is rejected or accepted the same way both times. A database whose answers vary between calls is not modelled. A later session may meet another table and other answers: FishScraper.FishScrapeIdempotent takes both as parameters of the second session.
- The concurrent fan-out over search terms in `run()` (`Promise.all`) and the file and table races between sessions: sessions are modelled one at a time.
- Console logging, including the "Job saved to database" line, which is printed even when the insert was skipped.
- The `jobTitles` list and the launching of the browser process.
