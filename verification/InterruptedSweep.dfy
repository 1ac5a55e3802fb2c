/** The start-up and shutdown sweeps of the in-process queue: they rewrite rows while paging
    through them. */
module InterruptedSweep {
  import opened JobRecords
  import opened Options
  import opened StableSorting
  import opened StateBackend

  const INTERRUPTED_BY_RESTART :=
    "interrupted by an omniscribe process restart; not resumed because the in-process queue keeps no durable job payload"
  const PAGE_SIZE := 100

  datatype Result<T> = Ok(value: T) | RuntimeError

  /** What the sweep does to a row at time `t`. The first sweep of a shutdown leaves running rows. */
  function Close(r: JobRecord, t: real, alsoRunning: bool): JobRecord {
    if r.status == Queued then r.(status := Cancelled, updatedAt := t)
    else if r.status == Running && alsoRunning then
      r.(status := Error, error := Some(INTERRUPTED_BY_RESTART), updatedAt := t)
    else r
  }

  /** The rows the sweep closes. */
  predicate Stranded(r: JobRecord, alsoRunning: bool) {
    r.status == Queued || (r.status == Running && alsoRunning)
  }

  function StrandedRows(rows: seq<JobRecord>, alsoRunning: bool): set<nat> {
    set i: nat | i < |rows| && Stranded(rows[i], alsoRunning)
  }

  /** A queued row ends cancelled and, if running rows are swept too, a running row in error with the message of a
      restart; the time is one the clock read. Any other row is untouched. */
  ghost predicate ClosedFrom(r: JobRecord, c: JobRecord, alsoRunning: bool, clock: nat -> real) {
    if r.status == Queued then
      exists n: nat :: c == JobRecord(r.jobId, Cancelled, r.error, r.createdAt, clock(n))
    else if r.status == Running && alsoRunning then
      exists n: nat :: c == JobRecord(r.jobId, Error, Some(INTERRUPTED_BY_RESTART), r.createdAt, clock(n))
    else c == r
  }

  lemma CloseCloses(r: JobRecord, n: nat, alsoRunning: bool, clock: nat -> real)
    ensures ClosedFrom(r, Close(r, clock(n), alsoRunning), alsoRunning, clock)
  {
  }

  /** Row by row, in place. */
  ghost predicate Swept(before: seq<JobRecord>, after: seq<JobRecord>, alsoRunning: bool, clock: nat -> real) {
    |after| == |before| &&
    forall i :: 0 <= i < |before| ==> ClosedFrom(before[i], after[i], alsoRunning, clock)
  }

  /** After a sweep nothing is stranded. */
  lemma SweptLeavesNone(before: seq<JobRecord>, after: seq<JobRecord>, clock: nat -> real)
    requires Swept(before, after, true, clock)
    ensures StrandedRows(after, true) == {}
    ensures forall r :: r in after ==> r.status != Queued && r.status != Running
  {
  }

  /** Sweeping a store with nothing stranded changes nothing. */
  lemma SecondSweepChangesNothing(before: seq<JobRecord>, after: seq<JobRecord>, alsoRunning: bool, clock: nat -> real)
    requires Swept(before, after, alsoRunning, clock) && StrandedRows(before, alsoRunning) == {}
    ensures after == before
  {
    forall i | 0 <= i < |before|
      ensures after[i] == before[i]
    {
      assert i !in StrandedRows(before, alsoRunning);
    }
  }

  lemma SweepsCompose(a: seq<JobRecord>, b: seq<JobRecord>, c: seq<JobRecord>, clock: nat -> real)
    requires Swept(a, b, false, clock) && Swept(b, c, true, clock)
    ensures Swept(a, c, true, clock)
  {
    forall i | 0 <= i < |a|
      ensures ClosedFrom(a[i], c[i], true, clock)
    {
      assert ClosedFrom(a[i], b[i], false, clock) && ClosedFrom(b[i], c[i], true, clock);
    }
  }

  // ----- How far a sweep has come -----

  /** Those of `wanted` that are among the first `n` of the order. */
  function AmongFirst(order: seq<nat>, wanted: set<nat>, n: nat): set<nat>
    requires n <= |order|
  {
    if n == 0 then {}
    else AmongFirst(order, wanted, n - 1) + if order[n - 1] in wanted then {order[n - 1]} else {}
  }

  lemma {:induction false} AmongFirstAre(order: seq<nat>, wanted: set<nat>, n: nat)
    requires n <= |order|
    ensures forall i :: i in AmongFirst(order, wanted, n) <==> i in wanted && i in order[..n]
  {
    if n > 0 {
      AmongFirstAre(order, wanted, n - 1);
      assert order[..n] == order[..n - 1] + [order[n - 1]];
    }
  }

  lemma OneMoreOf(order: seq<nat>, wanted: set<nat>, n: nat)
    requires IsPermutation(order, |order|) && n < |order|
    ensures |AmongFirst(order, wanted, n + 1)| == |AmongFirst(order, wanted, n)| + if order[n] in wanted then 1 else 0
  {
    AmongFirstAre(order, wanted, n);
    assert order[n] !in order[..n];
  }

  /** Ids and ages are those of the start, so the list order `order` is too. The first `n` rows of that
      order are closed, the others untouched, and `marked` counts the stranded ones among the first. */
  ghost predicate Progress(start: seq<JobRecord>, rows: seq<JobRecord>, order: seq<nat>, n: nat, marked: nat, alsoRunning: bool, clock: nat -> real) {
    && IsPermutation(order, |start|) && n <= |start| == |rows|
    && Distinct(start) && Distinct(rows)
    && (forall i :: 0 <= i < |rows| ==> rows[i].createdAt == start[i].createdAt)
    && (forall p :: 0 <= p < n ==>
          ClosedFrom(start[order[p]], rows[order[p]], alsoRunning, clock))
    && (forall p :: n <= p < |start| ==> rows[order[p]] == start[order[p]])
    && marked == |AmongFirst(order, StrandedRows(start, alsoRunning), n)|
  }

  /** Rewriting the next row keeps its place in the list order. */
  lemma OneMoreRow(start: seq<JobRecord>, rows: seq<JobRecord>, order: seq<nat>, n: nat, marked: nat, alsoRunning: bool, clock: nat -> real, k: nat)
    requires Progress(start, rows, order, n, marked, alsoRunning, clock) && n < |start|
    ensures var i := order[n];
            Progress(start, rows[i := Close(rows[i], clock(k), alsoRunning)], order, n + 1,
                     marked + if Stranded(rows[i], alsoRunning) then 1 else 0, alsoRunning, clock)
  {
    CloseCloses(rows[order[n]], k, alsoRunning, clock);
    OneMoreOf(order, StrandedRows(start, alsoRunning), n);
    var rows' := rows[order[n] := Close(rows[order[n]], clock(k), alsoRunning)];
    forall p | 0 <= p < |start| && p != n
      ensures rows'[order[p]] == rows[order[p]]
    {
    }
  }

  /** The next page lists the next rows as they were at the start, however many rows were rewritten. */
  lemma NextPage(start: seq<JobRecord>, rows: seq<JobRecord>, order: seq<nat>, n: nat, marked: nat, alsoRunning: bool, clock: nat -> real)
    requires Progress(start, rows, order, n, marked, alsoRunning, clock) && order == NewestFirst(start)
    ensures var page := Page(rows, PAGE_SIZE, n);
            && n + |page| <= |start| && (page == [] ==> n == |start|)
            && forall k :: 0 <= k < |page| ==> page[k] == start[order[n + k]]
  {
    assert AgeKeys(rows) == AgeKeys(start);
  }

  lemma DoneIsSwept(start: seq<JobRecord>, rows: seq<JobRecord>, order: seq<nat>, marked: nat, alsoRunning: bool, clock: nat -> real)
    requires Progress(start, rows, order, |start|, marked, alsoRunning, clock)
    ensures Swept(start, rows, alsoRunning, clock) && marked == |StrandedRows(start, alsoRunning)|
  {
    AmongFirstAre(order, StrandedRows(start, alsoRunning), |order|);
    assert order[..|order|] == order;
    assert AmongFirst(order, StrandedRows(start, alsoRunning), |order|) == StrandedRows(start, alsoRunning);
    forall i | 0 <= i < |start|
      ensures ClosedFrom(start[i], rows[i], alsoRunning, clock)
    {
      assert i in order;
      var p :| 0 <= p < |order| && order[p] == i;
    }
  }

  /** How far the sweep has come, with the start and the order fixed. */
  type Reached = (seq<JobRecord>, nat, nat) -> bool

  ghost predicate ReachedIs(progress: Reached, start: seq<JobRecord>, order: seq<nat>, alsoRunning: bool, clock: nat -> real) {
    forall rows, n, marked {:trigger Progress(start, rows, order, n, marked, alsoRunning, clock)} ::
      progress(rows, n, marked) <==> Progress(start, rows, order, n, marked, alsoRunning, clock)
  }

  predicate IsRow(start: seq<JobRecord>, order: seq<nat>, n: nat, r: JobRecord) {
    n < |order| && order[n] < |start| && r == start[order[n]]
  }

  lemma Begin(start: seq<JobRecord>, alsoRunning: bool, clock: nat -> real) returns (order: seq<nat>, progress: Reached)
    requires Distinct(start)
    ensures order == NewestFirst(start) && ReachedIs(progress, start, order, alsoRunning, clock) && progress(start, 0, 0)
  {
    order := NewestFirst(start);
    SortedIndicesSorts(AgeKeys(start));
    progress := (rows: seq<JobRecord>, n: nat, marked: nat) => Progress(start, rows, order, n, marked, alsoRunning, clock);
    assert Progress(start, start, order, 0, 0, alsoRunning, clock);
  }

  lemma NextRows(start: seq<JobRecord>, rows: seq<JobRecord>, order: seq<nat>, n: nat, marked: nat, alsoRunning: bool, clock: nat -> real,
                 progress: Reached)
    requires ReachedIs(progress, start, order, alsoRunning, clock) && progress(rows, n, marked) && order == NewestFirst(start)
    ensures var page := Page(rows, PAGE_SIZE, n);
            && n + |page| <= |order| == |start| && (page == [] ==> n == |start|)
            && forall k :: 0 <= k < |page| ==> IsRow(start, order, n + k, page[k])
  {
    assert Progress(start, rows, order, n, marked, alsoRunning, clock);
    NextPage(start, rows, order, n, marked, alsoRunning, clock);
  }

  lemma AllReached(start: seq<JobRecord>, rows: seq<JobRecord>, order: seq<nat>, marked: nat, alsoRunning: bool, clock: nat -> real,
                   progress: Reached)
    requires ReachedIs(progress, start, order, alsoRunning, clock) && progress(rows, |start|, marked)
    ensures Distinct(rows) && Swept(start, rows, alsoRunning, clock) && marked == |StrandedRows(start, alsoRunning)|
  {
    assert Progress(start, rows, order, |start|, marked, alsoRunning, clock);
    DoneIsSwept(start, rows, order, marked, alsoRunning, clock);
  }

  // ----- The queue -----

  class InMemoryJobQueue {
    const backend: MemoryStateBackend
    var payloads: map<nat, string>
    var workerPresent: bool

    constructor (backend: MemoryStateBackend)
      ensures this.backend == backend && payloads == map[] && !workerPresent
    {
      this.backend := backend;
      payloads, workerPresent := map[], false;
    }

    /** One pass over all pages. `clock` is what the clock reads at each rewrite. */
    method Sweep(alsoRunning: bool, clock: nat -> real) returns (marked: nat)
      requires Distinct(backend.jobs)
      modifies backend
      ensures Distinct(backend.jobs) && Swept(old(backend.jobs), backend.jobs, alsoRunning, clock)
      ensures marked == |StrandedRows(old(backend.jobs), alsoRunning)|
    {
      ghost var start := backend.jobs;
      ghost var order, progress := Begin(start, alsoRunning, clock);
      marked := 0;
      var offset := 0;
      while true
        invariant progress(backend.jobs, offset, marked) && offset <= |start|
        decreases |start| - offset
      {
        var page := backend.ListJobs(PAGE_SIZE, offset);
        NextRows(start, backend.jobs, order, offset, marked, alsoRunning, clock, progress);
        if page == [] {
          break;
        }
        marked := SweepPage(page, alsoRunning, clock, marked, offset, start, order, progress);
        offset := offset + |page|;
      }
      AllReached(start, backend.jobs, order, marked, alsoRunning, clock, progress);
    }

    method SweepPage(page: seq<JobRecord>, alsoRunning: bool, clock: nat -> real, before: nat, ghost from: nat,
                     ghost start: seq<JobRecord>, ghost order: seq<nat>, ghost progress: Reached) returns (marked: nat)
      requires ReachedIs(progress, start, order, alsoRunning, clock)
      requires from + |page| <= |order| && forall k :: 0 <= k < |page| ==> IsRow(start, order, from + k, page[k])
      requires progress(backend.jobs, from, before)
      modifies backend
      ensures progress(backend.jobs, from + |page|, marked)
    {
      marked := before;
      for k := 0 to |page|
        invariant progress(backend.jobs, from + k, marked)
      {
        marked := SweepRow(page[k], alsoRunning, clock, marked, from + k, start, order, progress);
      }
    }

    /** Rewrite one row if it is stranded; a row in any other status is left alone. */
    method SweepRow(record: JobRecord, alsoRunning: bool, clock: nat -> real, before: nat, ghost n: nat,
                    ghost start: seq<JobRecord>, ghost order: seq<nat>, ghost progress: Reached) returns (marked: nat)
      requires ReachedIs(progress, start, order, alsoRunning, clock)
      requires IsRow(start, order, n, record) && progress(backend.jobs, n, before)
      modifies backend
      ensures progress(backend.jobs, n + 1, marked)
    {
      assert Progress(start, backend.jobs, order, n, before, alsoRunning, clock);
      OneMoreRow(start, backend.jobs, order, n, before, alsoRunning, clock, before);
      if record.status == Queued || (record.status == Running && alsoRunning) {
        backend.UpsertJob(Close(record, clock(before), alsoRunning));
        marked := before + 1;
      } else {
        assert backend.jobs[order[n] := record] == backend.jobs;
        marked := before;
      }
      assert Progress(start, backend.jobs, order, n + 1, marked, alsoRunning, clock);
    }

    /** Refused while a worker exists. Otherwise every queued row ends cancelled and every running
        row in error, each row rewritten at most once and in place, all others untouched, and the
        count is exactly that of the rows that were queued or running. */
    method MarkInterruptedTerminal(clock: nat -> real) returns (r: Result<nat>)
      requires Distinct(backend.jobs)
      modifies backend
      ensures Distinct(backend.jobs)
      ensures workerPresent ==> r == RuntimeError && backend.jobs == old(backend.jobs)
      ensures !workerPresent ==>
                && r == Ok(|set i: nat | i < |old(backend.jobs)| && old(backend.jobs[i].status in {Queued, Running})|)
                && Swept(old(backend.jobs), backend.jobs, true, clock)
                && StrandedRows(backend.jobs, true) == {}
    {
      if workerPresent {
        return RuntimeError;
      }
      var marked := Sweep(true, clock);
      SweptLeavesNone(old(backend.jobs), backend.jobs, clock);
      assert StrandedRows(old(backend.jobs), true) ==
             set i: nat | i < |old(backend.jobs)| && old(backend.jobs[i].status in {Queued, Running});
      return Ok(marked);
    }

    /** Stop the worker, cancel what is queued, drop the payloads, then close what was running. */
    method ShutdownOwned(clock: nat -> real)
      requires Distinct(backend.jobs)
      modifies this, backend
      ensures !workerPresent && payloads == map[] && Distinct(backend.jobs)
      ensures Swept(old(backend.jobs), backend.jobs, true, clock)
      ensures StrandedRows(backend.jobs, true) == {}
    {
      workerPresent := false;
      var _ := Sweep(false, clock);
      ghost var between := backend.jobs;
      payloads := map[];
      var _ := MarkInterruptedTerminal(clock);
      SweepsCompose(old(backend.jobs), between, backend.jobs, clock);
    }
  }
}
