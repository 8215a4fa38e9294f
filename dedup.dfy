/**
 * The dedup filter of both scrapers:
 * `jobs.filter(j => !existing.some(e => e.link === j.link))`.
 */
module Dedup {
  import opened Records

  /** The links that occur in a sequence of records. */
  function Links(s: seq<Record>): (links: set<string>) {
    set i | 0 <= i < |s| :: s[i].link
  }

  /** `existing.some(e => e.link === link)`: some record of the snapshot has this link. */
  predicate Known(existing: seq<Record>, link: string) {
    existing != [] && (existing[0].link == link || Known(existing[1..], link))
  }

  /** The `some` scan finds a link exactly when it is one of the snapshot's links. */
  lemma {:induction false} KnownLinks(existing: seq<Record>, link: string)
    ensures Known(existing, link) <==> link in Links(existing)
  {
    if existing != [] {
      KnownLinks(existing[1..], link);
      if link in Links(existing) && existing[0].link != link {
        var i :| 0 <= i < |existing| && existing[i].link == link;
        assert existing[1..][i - 1].link == link;
      }
      if link in Links(existing[1..]) {
        var i :| 0 <= i < |existing[1..]| && existing[1..][i].link == link;
        assert existing[i + 1].link == link;
      }
    }
  }

  /** The records of `jobs` whose link equals no link in `existing`, in their order. */
  function NewJobs(jobs: seq<Record>, existing: seq<Record>): (r: seq<Record>)
    ensures |r| <= |jobs|
  {
    if jobs == [] then []
    else
      (if Known(existing, jobs[0].link) then [] else [jobs[0]]) + NewJobs(jobs[1..], existing)
  }

  /** A record is in the batch exactly when it is accumulated and its link is not in the snapshot. */
  lemma {:induction false} NewJobsMembers(jobs: seq<Record>, existing: seq<Record>)
    ensures forall x :: x in NewJobs(jobs, existing) <==> x in jobs && x.link !in Links(existing)
  {
    if jobs != [] {
      KnownLinks(existing, jobs[0].link);
      NewJobsMembers(jobs[1..], existing);
      assert forall x :: x in jobs <==> x == jobs[0] || x in jobs[1..];
    }
  }

  /** The links of a concatenation are the links of its two parts. */
  lemma LinksAppend(a: seq<Record>, b: seq<Record>)
    ensures Links(a + b) == Links(a) + Links(b)
  {
    var ab := a + b;
    forall l | l in Links(ab) ensures l in Links(a) + Links(b) {
      var i :| 0 <= i < |ab| && ab[i].link == l;
      if i >= |a| { assert b[i - |a|].link == l; }
    }
    forall l | l in Links(a) + Links(b) ensures l in Links(ab) {
      if l in Links(a) {
        var i :| 0 <= i < |a| && a[i].link == l;
        assert ab[i].link == l;
      } else {
        var i :| 0 <= i < |b| && b[i].link == l;
        assert ab[|a| + i].link == l;
      }
    }
  }

  /** A prefix has no link its extension lacks. */
  lemma LinksOfPrefix(a: seq<Record>, b: seq<Record>)
    requires a <= b
    ensures Links(a) <= Links(b)
  {
    LinksAppend(a, b[|a|..]);
    assert b == a + b[|a|..];
  }

  /** The link of a record of `s` is one of the links of `s`. */
  lemma LinksOf(s: seq<Record>, x: Record)
    requires x in s
    ensures x.link in Links(s)
  {
    var i :| 0 <= i < |s| && s[i] == x;
  }

  /** The filter distributes over concatenation of the accumulated records. */
  lemma {:induction false} NewJobsAppend(a: seq<Record>, b: seq<Record>, existing: seq<Record>)
    ensures NewJobs(a + b, existing) == NewJobs(a, existing) + NewJobs(b, existing)
  {
    if a == [] {
      assert a + b == b;
    } else {
      var head := if Known(existing, a[0].link) then [] else [a[0]];
      assert (a + b)[0] == a[0];
      assert (a + b)[1..] == a[1..] + b;
      assert NewJobs(a + b, existing) == head + NewJobs(a[1..] + b, existing);
      NewJobsAppend(a[1..], b, existing);
      assert NewJobs(a, existing) == head + NewJobs(a[1..], existing);
      assert head + (NewJobs(a[1..], existing) + NewJobs(b, existing))
          == (head + NewJobs(a[1..], existing)) + NewJobs(b, existing);
    }
  }

  /** `r` is `s` with some elements left out, the rest in their order (matched greedily from the front). */
  ghost predicate Subsequence(r: seq<Record>, s: seq<Record>)
    decreases |s|
  {
    if r == [] then true
    else if s == [] then false
    else if r[0] == s[0] then Subsequence(r[1..], s[1..])
    else Subsequence(r, s[1..])
  }

  /**
   * The batch keeps the order of the accumulated records: it is a subsequence of
   * `jobs`, and it holds every record with a new link as often as `jobs` does and
   * no record whose link is in the snapshot. These two facts determine it.
   */
  lemma {:induction false} NewJobsInOrder(jobs: seq<Record>, existing: seq<Record>)
    ensures Subsequence(NewJobs(jobs, existing), jobs)
    ensures forall x ::
              multiset(NewJobs(jobs, existing))[x] == (if x.link in Links(existing) then 0 else multiset(jobs)[x])
  {
    if jobs != [] {
      var r := NewJobs(jobs, existing);
      var rest := NewJobs(jobs[1..], existing);
      NewJobsInOrder(jobs[1..], existing);
      KnownLinks(existing, jobs[0].link);
      assert jobs == [jobs[0]] + jobs[1..];
      if jobs[0].link in Links(existing) {
        assert r == rest;
        if r != [] {
          NewJobsMembers(jobs[1..], existing);
          assert r[0] in rest;
          assert r[0] != jobs[0];
        }
      } else {
        assert r == [jobs[0]] + rest;
        assert r[1..] == rest;
      }
    }
  }

  /** No dedup within the batch: when no link is in the snapshot, every record is kept, repeats included. */
  lemma {:induction false} NewJobsKeepsAllUnknown(jobs: seq<Record>, existing: seq<Record>)
    requires forall i :: 0 <= i < |jobs| ==> jobs[i].link !in Links(existing)
    ensures NewJobs(jobs, existing) == jobs
  {
    if jobs != [] {
      KnownLinks(existing, jobs[0].link);
      NewJobsKeepsAllUnknown(jobs[1..], existing);
    }
  }

  /** The batch is empty exactly when every accumulated link is already in the snapshot. */
  lemma NewJobsEmpty(jobs: seq<Record>, existing: seq<Record>)
    ensures NewJobs(jobs, existing) == [] <==> Links(jobs) <= Links(existing)
  {
    NewJobsMembers(jobs, existing);
    if NewJobs(jobs, existing) == [] {
      forall l | l in Links(jobs) ensures l in Links(existing) {
        var i :| 0 <= i < |jobs| && jobs[i].link == l;
        assert jobs[i] in jobs;
      }
    } else {
      var x := NewJobs(jobs, existing)[0];
      assert x in NewJobs(jobs, existing);
      LinksOf(jobs, x);
    }
  }

  /**
   * After the merge `existing + batch`, every accumulated link is in the new
   * snapshot, and the snapshot's own links are kept.
   */
  lemma MergeCovers(jobs: seq<Record>, existing: seq<Record>)
    ensures Links(jobs) <= Links(existing + NewJobs(jobs, existing))
    ensures Links(existing + NewJobs(jobs, existing)) == Links(existing) + Links(NewJobs(jobs, existing))
  {
    var batch := NewJobs(jobs, existing);
    NewJobsMembers(jobs, existing);
    LinksAppend(existing, batch);
    forall l | l in Links(jobs) ensures l in Links(existing) + Links(batch) {
      var i :| 0 <= i < |jobs| && jobs[i].link == l;
      if l !in Links(existing) {
        assert jobs[i] in jobs;
        LinksOf(batch, jobs[i]);
      }
    }
  }
}
