/**
 * The `unsolicited_job_post` table of fishscraper.js and its two operations:
 * `jobExistsInDB`, a lookup by `original_job_link`, and `storeJobInDB`, which
 * inserts a job's row unless a row with its link already exists. The database
 * engine is replaced by a sequence of rows; whether a query or an insert is
 * rejected is a parameter (`DbFault`).
 */
module Database {
  import opened Wrappers
  import opened Records

  /** The fixed `websites_id` of the job site. */
  const WebsiteId: int := 12
  /** The fixed `job_posted` flag. */
  const Posted: string := "Yes"

  /** One row of `unsolicited_job_post`, without its `created_on` timestamp. */
  datatype Row = Row(
    websitesId: int,
    title: string,
    address: string,
    country: string,
    skills: string,
    jobDetails: string,
    categoryName: string,
    originalJobLink: string,
    jobPosted: string)

  /**
   * The row inserted for a job found under the search term `jobTitle`: location
   * goes to `address`, salary to `country`, recruiter to `skills`, description to
   * `job_details`; the posting date is not stored.
   */
  function RowOf(job: Record, jobTitle: string): (row: Row) {
    Row(WebsiteId, job.title, job.location, job.salary, job.recruiter, job.description, jobTitle, job.link, Posted)
  }

  /** How the database answers the calls made for one job. */
  datatype DbFault = NoFault | QueryFault | InsertFault

  /** The rejection that `storeJobInDB` passes on to its caller. */
  datatype DbError = QueryError | InsertError

  /** Whether some row has `link` as its `original_job_link` (the lookup ignores `websites_id`). */
  predicate Exists(rows: seq<Row>, link: string) {
    exists i :: 0 <= i < |rows| && rows[i].originalJobLink == link
  }

  /** No two rows share an `original_job_link`. */
  predicate UniqueLinks(rows: seq<Row>) {
    forall i, j :: 0 <= i < j < |rows| ==> rows[i].originalJobLink != rows[j].originalJobLink
  }

  /** The outcome of storing: the rejection, if any, and the table afterwards. */
  datatype Stored = Stored(error: Option<DbError>, rows: seq<Row>)

  /** `storeJobInDB` on table `rows`: a failed lookup rejects; a known link is skipped; otherwise one insert. */
  function Store(rows: seq<Row>, job: Record, jobTitle: string, fault: DbFault): (s: Stored) {
    if fault == QueryFault then Stored(Some(QueryError), rows)
    else if Exists(rows, job.link) then Stored(None, rows)
    else if fault == InsertFault then Stored(Some(InsertError), rows)
    else Stored(None, rows + [RowOf(job, jobTitle)])
  }

  /** The `for` loop over a batch: each job is stored in order; the first rejection stops the loop. */
  function StoreAll(rows: seq<Row>, batch: seq<Record>, jobTitle: string, fault: Record -> DbFault): (s: Stored)
    decreases |batch|
  {
    if batch == [] then Stored(None, rows)
    else
      var s := Store(rows, batch[0], jobTitle, fault(batch[0]));
      if s.error.Some? then s else StoreAll(s.rows, batch[1..], jobTitle, fault)
  }

  /** The table, updated in place by inserts. */
  class Table {
    var rows: seq<Row>

    constructor (initial: seq<Row>)
      ensures rows == initial
    {
      rows := initial;
    }

    /** `jobExistsInDB`: `None` when the query is rejected, otherwise whether a row has the link. */
    method JobExists(link: string, rejected: bool) returns (r: Option<bool>)
      ensures rejected <==> r.None?
      ensures r.Some? ==> (r.value <==> exists i :: 0 <= i < |rows| && rows[i].originalJobLink == link)
    {
      if rejected {
        return None;
      }
      r := Some(Exists(rows, link));
    }

    /** The `INSERT` statement: appends `row` unless rejected. */
    method Insert(row: Row, rejected: bool) returns (ok: bool)
      modifies this
      ensures ok <==> !rejected
      ensures rows == if rejected then old(rows) else old(rows) + [row]
    {
      if rejected {
        return false;
      }
      rows := rows + [row];
      ok := true;
    }

    /** `storeJobInDB`: look the link up, skip a known one, else insert the job's row. */
    method StoreJob(job: Record, jobTitle: string, fault: DbFault) returns (error: Option<DbError>)
      modifies this
      ensures Stored(error, rows) == Store(old(rows), job, jobTitle, fault)
      ensures Exists(old(rows), job.link) ==> rows == old(rows)
      ensures !Exists(old(rows), job.link) ==> rows == old(rows) || rows == old(rows) + [RowOf(job, jobTitle)]
    {
      var found := JobExists(job.link, fault == QueryFault);
      if found.None? {
        return Some(QueryError);
      }
      if found.value {
        return None;
      }
      var ok := Insert(RowOf(job, jobTitle), fault == InsertFault);
      if !ok {
        return Some(InsertError);
      }
      error := None;
    }
  }

  /** The `for (const job of jobsToSave)` loop: store each job in batch order, stopping at the first rejection. */
  method StoreBatch(table: Table, batch: seq<Record>, jobTitle: string, fault: Record -> DbFault) returns (error: Option<DbError>)
    modifies table
    ensures Stored(error, table.rows) == StoreAll(old(table.rows), batch, jobTitle, fault)
  {
    var k := 0;
    while k < |batch|
      invariant 0 <= k <= |batch|
      invariant StoreAll(old(table.rows), batch, jobTitle, fault) == StoreAll(table.rows, batch[k..], jobTitle, fault)
    {
      assert batch[k..][0] == batch[k] && batch[k..][1..] == batch[k + 1..];
      error := table.StoreJob(batch[k], jobTitle, fault(batch[k]));
      if error.Some? {
        return;
      }
      k := k + 1;
    }
    error := None;
  }

  /**
   * `storeJobInDB` exactly: a rejected lookup changes nothing; a link some row
   * already has changes nothing; otherwise the table either rejects the insert
   * and is unchanged, or gains exactly one row, carrying `websites_id` 12, the
   * search term as `category_name`, the job's link as `original_job_link` and
   * "Yes" as `job_posted`.
   */
  lemma StoreCases(rows: seq<Row>, job: Record, jobTitle: string, fault: DbFault)
    ensures var s := Store(rows, job, jobTitle, fault);
      && (s.error == Some(QueryError) <==> fault == QueryFault)
      && (s.error == Some(InsertError) <==> fault == InsertFault && !Exists(rows, job.link))
      && (s.rows == rows <==> fault != NoFault || Exists(rows, job.link))
      && (s.rows != rows ==>
            && |s.rows| == |rows| + 1 && s.rows[..|rows|] == rows
            && var r := s.rows[|rows|];
               r.websitesId == 12 && r.categoryName == jobTitle && r.originalJobLink == job.link && r.jobPosted == "Yes")
  {
    assert (rows + [RowOf(job, jobTitle)])[..|rows|] == rows;
  }

  /** Storing once more a job whose link is now in the table inserts nothing. */
  lemma StoreAtMostOnce(rows: seq<Row>, job: Record, jobTitle: string, fault: DbFault, fault': DbFault)
    requires Store(rows, job, jobTitle, fault).error.None?
    requires fault' != QueryFault
    ensures var s := Store(rows, job, jobTitle, fault);
      Store(s.rows, job, jobTitle, fault') == Stored(None, s.rows)
  {
    var s := Store(rows, job, jobTitle, fault);
    if !Exists(rows, job.link) {
      assert s.rows[|rows|].originalJobLink == job.link;
    }
  }

  /** The existence check keeps the table free of duplicate links. */
  lemma StoreKeepsUnique(rows: seq<Row>, job: Record, jobTitle: string, fault: DbFault)
    requires UniqueLinks(rows)
    ensures UniqueLinks(Store(rows, job, jobTitle, fault).rows)
  {
  }

  /** A batch stored through the sink leaves no two rows with the same link, duplicates in the batch included. */
  lemma {:induction false} StoreAllKeepsUnique(rows: seq<Row>, batch: seq<Record>, jobTitle: string, fault: Record -> DbFault)
    requires UniqueLinks(rows)
    ensures UniqueLinks(StoreAll(rows, batch, jobTitle, fault).rows)
    decreases |batch|
  {
    if batch != [] {
      StoreKeepsUnique(rows, batch[0], jobTitle, fault(batch[0]));
      var s := Store(rows, batch[0], jobTitle, fault(batch[0]));
      if s.error.None? {
        StoreAllKeepsUnique(s.rows, batch[1..], jobTitle, fault);
      }
    }
  }

  /** A link found in a table is still found after rows are appended. */
  lemma ExistsPrefix(a: seq<Row>, b: seq<Row>, link: string)
    requires a <= b
    ensures Exists(a, link) ==> Exists(b, link)
  {
    if Exists(a, link) {
      var i :| 0 <= i < |a| && a[i].originalJobLink == link;
      assert b[i] == a[i];
    }
  }

  /**
   * The sink only appends: the old table stays a prefix, and every added row is
   * the row of some job of the batch, found under `jobTitle`, whose link no old
   * row had.
   */
  lemma {:induction false} StoreAllAppends(rows: seq<Row>, batch: seq<Record>, jobTitle: string, fault: Record -> DbFault)
    ensures var s := StoreAll(rows, batch, jobTitle, fault);
      && rows <= s.rows
      && forall k :: |rows| <= k < |s.rows| ==>
           && (exists j :: j in batch && s.rows[k] == RowOf(j, jobTitle))
           && !Exists(rows, s.rows[k].originalJobLink)
    decreases |batch|
  {
    if batch != [] {
      var s := Store(rows, batch[0], jobTitle, fault(batch[0]));
      if s.error.None? {
        StoreAllAppends(s.rows, batch[1..], jobTitle, fault);
        var t := StoreAll(s.rows, batch[1..], jobTitle, fault);
        forall k | |rows| <= k < |t.rows|
          ensures (exists j :: j in batch && t.rows[k] == RowOf(j, jobTitle)) && !Exists(rows, t.rows[k].originalJobLink)
        {
          if k < |s.rows| {
            assert t.rows[k] == s.rows[k] == RowOf(batch[0], jobTitle);
          } else {
            var j :| j in batch[1..] && t.rows[k] == RowOf(j, jobTitle);
            assert j in batch;
            ExistsPrefix(rows, s.rows, t.rows[k].originalJobLink);
          }
        }
      }
    }
  }

  /**
   * When no job of the batch is rejected, afterwards every job of the batch has
   * a row with its link.
   */
  lemma {:induction false} StoreAllComplete(rows: seq<Row>, batch: seq<Record>, jobTitle: string, fault: Record -> DbFault)
    requires StoreAll(rows, batch, jobTitle, fault).error.None?
    ensures forall j :: j in batch ==> Exists(StoreAll(rows, batch, jobTitle, fault).rows, j.link)
    decreases |batch|
  {
    if batch != [] {
      var s := Store(rows, batch[0], jobTitle, fault(batch[0]));
      StoreAllComplete(s.rows, batch[1..], jobTitle, fault);
      var t := StoreAll(s.rows, batch[1..], jobTitle, fault);
      StoreAllAppends(s.rows, batch[1..], jobTitle, fault);
      var i :| 0 <= i < |s.rows| && s.rows[i].originalJobLink == batch[0].link;
      assert t.rows[i] == s.rows[i];
      forall j | j in batch ensures Exists(t.rows, j.link) {
        if j != batch[0] {
          assert j in batch[1..];
        }
      }
    }
  }

  /**
   * A rejection stops the batch at the first job the database rejects: the
   * jobs before it were stored without error, and that job's own call is the
   * one that failed, on the table they left.
   */
  lemma {:induction false} StoreAllStopsAtFirstError(rows: seq<Row>, batch: seq<Record>, jobTitle: string, fault: Record -> DbFault)
    requires StoreAll(rows, batch, jobTitle, fault).error.Some?
    ensures var s := StoreAll(rows, batch, jobTitle, fault);
      exists m :: 0 <= m < |batch|
        && StoreAll(rows, batch[..m], jobTitle, fault) == Stored(None, s.rows)
        && Store(s.rows, batch[m], jobTitle, fault(batch[m])) == s
    decreases |batch|
  {
    var s := Store(rows, batch[0], jobTitle, fault(batch[0]));
    if s.error.Some? {
      assert batch[..0] == [];
      assert s.rows == rows;
    } else {
      StoreAllStopsAtFirstError(s.rows, batch[1..], jobTitle, fault);
      var t := StoreAll(s.rows, batch[1..], jobTitle, fault);
      var m :| 0 <= m < |batch[1..]|
        && StoreAll(s.rows, batch[1..][..m], jobTitle, fault) == Stored(None, t.rows)
        && Store(t.rows, batch[1..][m], jobTitle, fault(batch[1..][m])) == t;
      assert batch[..m + 1][0] == batch[0] && batch[..m + 1][1..] == batch[1..][..m];
      assert batch[m + 1] == batch[1..][m];
    }
  }

  /**
   * A batch of jobs with distinct links none of which is in the table, stored
   * with no rejection, appends exactly their rows, in batch order.
   */
  lemma {:induction false} StoreAllFresh(rows: seq<Row>, batch: seq<Record>, jobTitle: string, fault: Record -> DbFault)
    requires forall j :: j in batch ==> fault(j) == NoFault && !Exists(rows, j.link)
    requires forall a, b :: 0 <= a < b < |batch| ==> batch[a].link != batch[b].link
    ensures StoreAll(rows, batch, jobTitle, fault) == Stored(None, rows + seq(|batch|, i requires 0 <= i < |batch| => RowOf(batch[i], jobTitle)))
    decreases |batch|
  {
    var added := seq(|batch|, i requires 0 <= i < |batch| => RowOf(batch[i], jobTitle));
    if batch == [] {
      assert rows + added == rows;
    } else {
      var rows' := rows + [RowOf(batch[0], jobTitle)];
      assert batch[0] in batch;
      forall j | j in batch[1..] ensures fault(j) == NoFault && !Exists(rows', j.link) {
        var b :| 0 <= b < |batch[1..]| && batch[1..][b] == j;
        assert batch[b + 1] == j;
        assert j in batch;
        assert rows'[|rows|].originalJobLink == batch[0].link != j.link;
      }
      StoreAllFresh(rows', batch[1..], jobTitle, fault);
      var added' := seq(|batch[1..]|, i requires 0 <= i < |batch[1..]| => RowOf(batch[1..][i], jobTitle));
      assert added == [RowOf(batch[0], jobTitle)] + added';
    }
  }

  /** A database that rejects nothing stores the whole batch without error. */
  lemma {:induction false} StoreAllNoFault(rows: seq<Row>, batch: seq<Record>, jobTitle: string, fault: Record -> DbFault)
    requires forall j :: j in batch ==> fault(j) == NoFault
    ensures StoreAll(rows, batch, jobTitle, fault).error.None?
    decreases |batch|
  {
    if batch != [] {
      assert batch[0] in batch;
      assert forall j :: j in batch[1..] ==> j in batch;
      StoreAllNoFault(Store(rows, batch[0], jobTitle, fault(batch[0])).rows, batch[1..], jobTitle, fault);
    }
  }

  /** Storing a batch whose every link the table already has, with no rejected lookup, inserts nothing. */
  lemma {:induction false} StoreAllKnown(rows: seq<Row>, batch: seq<Record>, jobTitle: string, fault: Record -> DbFault)
    requires forall j :: j in batch ==> fault(j) != QueryFault && Exists(rows, j.link)
    ensures StoreAll(rows, batch, jobTitle, fault) == Stored(None, rows)
    decreases |batch|
  {
    if batch != [] {
      assert batch[0] in batch;
      assert forall j :: j in batch[1..] ==> j in batch;
      StoreAllKnown(rows, batch[1..], jobTitle, fault);
    }
  }
}
