/** The in-memory store of job records: a dictionary that keeps the order of insertion, listed
    newest first, page by page. */
module StateBackend {
  import opened JobRecords
  import opened Options
  import opened StableSorting

  /** No two rows share an id. */
  predicate Distinct(rows: seq<JobRecord>) {
    forall i, k :: 0 <= i < k < |rows| ==> rows[i].jobId != rows[k].jobId
  }

  /** Assigning to a dictionary key: in place if present, at the end if not. */
  function Upserted(rows: seq<JobRecord>, r: JobRecord): seq<JobRecord> {
    if rows == [] then [r]
    else if rows[0].jobId == r.jobId then [r] + rows[1..]
    else [rows[0]] + Upserted(rows[1..], r)
  }

  lemma {:induction false} UpsertInPlace(rows: seq<JobRecord>, i: nat, r: JobRecord)
    requires Distinct(rows) && i < |rows| && rows[i].jobId == r.jobId
    ensures Upserted(rows, r) == rows[i := r]
  {
    if i > 0 { UpsertInPlace(rows[1..], i - 1, r); }
  }

  lemma {:induction false} UpsertAtEnd(rows: seq<JobRecord>, r: JobRecord)
    requires forall i :: 0 <= i < |rows| ==> rows[i].jobId != r.jobId
    ensures Upserted(rows, r) == rows + [r]
  {
    if rows != [] { UpsertAtEnd(rows[1..], r); }
  }

  function AgeKeys(rows: seq<JobRecord>): (k: seq<Key>)
    ensures |k| == |rows|
  {
    seq(|rows|, i requires 0 <= i < |rows| => (-rows[i].createdAt, 0.0))
  }

  /** The positions of the rows, newest first; rows of the same age keep their order. */
  function NewestFirst(rows: seq<JobRecord>): (order: seq<nat>)
    ensures |order| == |rows| && InRange(order, |rows|)
  {
    SortedIndices(AgeKeys(rows))
  }

  function Listed(rows: seq<JobRecord>): (r: seq<JobRecord>)
    ensures |r| == |rows| && forall p :: 0 <= p < |r| ==> r[p] == rows[NewestFirst(rows)[p]]
  {
    seq(|rows|, p requires 0 <= p < |rows| => rows[NewestFirst(rows)[p]])
  }

  function Page(rows: seq<JobRecord>, limit: nat, offset: nat): (page: seq<JobRecord>)
    ensures |page| <= limit
    ensures offset < |rows| && limit > 0 ==> page != []
    ensures offset + |page| <= |rows| || page == []
    ensures forall k :: 0 <= k < |page| ==> page[k] == Listed(rows)[offset + k]
  {
    if offset >= |rows| then []
    else if offset + limit >= |rows| then Listed(rows)[offset..]
    else Listed(rows)[offset..offset + limit]
  }

  /** Row `i` is listed before row `k`: it is newer, or as old and inserted before it. */
  predicate ListedBefore(rows: seq<JobRecord>, i: nat, k: nat)
    requires i < |rows| && k < |rows|
  {
    rows[i].createdAt > rows[k].createdAt || (rows[i].createdAt == rows[k].createdAt && i < k)
  }

  /** The list order takes every row exactly once, newest first, equal ages in order of insertion. */
  ghost predicate IsListOrder(rows: seq<JobRecord>, order: seq<nat>) {
    && IsPermutation(order, |rows|)
    && forall a, b :: 0 <= a < b < |order| ==> ListedBefore(rows, order[a], order[b])
  }

  lemma NewestFirstIsListOrder(rows: seq<JobRecord>)
    ensures IsListOrder(rows, NewestFirst(rows))
  {
    var order := NewestFirst(rows);
    SortedIndicesSorts(AgeKeys(rows));
    forall a, b | 0 <= a < b < |order|
      ensures ListedBefore(rows, order[a], order[b])
    {
      assert Precedes(AgeKeys(rows), order[a], order[b]);
    }
  }

  /** The pages from `offset` on, each fetched behind the one before until one comes back empty. */
  function AllPages(rows: seq<JobRecord>, limit: nat, offset: nat): seq<JobRecord>
    decreases if offset < |rows| then |rows| - offset else 0
  {
    var page := Page(rows, limit, offset);
    if page == [] then [] else page + AllPages(rows, limit, offset + |page|)
  }

  lemma PageIsSlice(rows: seq<JobRecord>, list: seq<JobRecord>, limit: nat, offset: nat, page: seq<JobRecord>)
    requires list == Listed(rows) && page == Page(rows, limit, offset) && limit > 0 && offset <= |rows|
    ensures offset + |page| <= |list| && list[offset..] == page + list[offset + |page|..]
    ensures page == [] <==> offset == |rows|
  {
  }

  /** Together the pages are the whole list from `offset` on, with no row missed or repeated between them. */
  lemma {:induction false} PagesTileTheList(rows: seq<JobRecord>, limit: nat, offset: nat)
    requires limit > 0 && offset <= |rows|
    ensures AllPages(rows, limit, offset) == Listed(rows)[offset..]
    decreases |rows| - offset
  {
    var page := Page(rows, limit, offset);
    PageIsSlice(rows, Listed(rows), limit, offset, page);
    if page != [] { PagesTileTheList(rows, limit, offset + |page|); }
  }

  class MemoryStateBackend {
    var jobs: seq<JobRecord>

    constructor ()
      ensures jobs == []
    {
      jobs := [];
    }

    /** Replaces the row of that id where it stands, or appends; ids stay distinct. */
    method UpsertJob(r: JobRecord)
      requires Distinct(jobs)
      modifies this
      ensures Distinct(jobs)
      ensures jobs == Upserted(old(jobs), r)
      ensures forall i :: 0 <= i < |old(jobs)| && old(jobs)[i].jobId == r.jobId ==> jobs == old(jobs)[i := r]
    {
      if i :| 0 <= i < |jobs| && jobs[i].jobId == r.jobId {
        UpsertInPlace(jobs, i, r);
      } else {
        UpsertAtEnd(jobs, r);
      }
      jobs := Upserted(jobs, r);
    }

    method GetJob(jobId: nat) returns (r: Option<JobRecord>)
      ensures r.None? <==> forall i :: 0 <= i < |jobs| ==> jobs[i].jobId != jobId
      ensures r.Some? ==> r.value in jobs && r.value.jobId == jobId
    {
      if i :| 0 <= i < |jobs| && jobs[i].jobId == jobId {
        return Some(jobs[i]);
      }
      return None;
    }

    /** The rows at positions `offset` up to `offset + limit` of the list, newest first. */
    method ListJobs(limit: nat, offset: nat) returns (page: seq<JobRecord>)
      ensures page == Page(jobs, limit, offset)
      ensures IsListOrder(jobs, NewestFirst(jobs))
      ensures |page| == if offset >= |jobs| then 0 else if |jobs| - offset < limit then |jobs| - offset else limit
      ensures forall k :: 0 <= k < |page| ==> page[k] == jobs[NewestFirst(jobs)[offset + k]]
      ensures forall i, k :: 0 <= i < k < |page| ==> page[i].createdAt >= page[k].createdAt
    {
      NewestFirstIsListOrder(jobs);
      var ordered := Listed(jobs);
      if offset >= |ordered| {
        return [];
      }
      var end := if offset + limit >= |ordered| then |ordered| else offset + limit;
      page := ordered[offset..end];
      forall i, k | 0 <= i < k < |page|
        ensures page[i].createdAt >= page[k].createdAt
      {
        assert ListedBefore(jobs, NewestFirst(jobs)[offset + i], NewestFirst(jobs)[offset + k]);
      }
    }
  }
}
