/** The in-process queue: one worker, any number of `cancel` calls, interleaved at every await.
    A cancel recorded before the runner's return wins over completion. */
module LocalQueue {
  import opened JobRecords

  type JobId = nat

  /** Where the worker is suspended. Reads and writes of the record are separate steps from the
      code that uses what they returned. */
  datatype Worker =
    | Waiting
      /** Reading the record of a job just taken off the queue. */
    | Fetching(job: JobId)
      /** Holding the record read, before the write of `running`. */
    | Fetched(job: JobId, record: Status)
      /** Announcing the start, then inside the runner. */
    | InRunner(job: JobId)
      /** The runner has returned and no cancel was seen: storing the artifact. */
    | Storing(job: JobId)
    | Rereading(job: JobId)
    | Completing(job: JobId)
    | Announcing(job: JobId)
      /** Inside `_mark_cancelled`: reading, then writing the record. */
    | MarkReading(job: JobId)
    | MarkWriting(job: JobId, record: Status)
      /** Inside `_set_error`: reading, then writing the record. */
    | ErrorReading(job: JobId)
    | ErrorWriting(job: JobId, record: Status)
      /** The task was cancelled by shutdown. */
    | Stopped

  /** A `cancel` call: reading the record, holding what it read, writing the record, returned. */
  datatype CancelCall =
    | Reading(job: JobId)
    | Holding(job: JobId, record: Status)
    | Writing(job: JobId)
    | Returned(accepted: bool)

  datatype State = State(
    status: map<JobId, Status>,
    unqueued: set<JobId>,
    queue: seq<JobId>,
    cancelled: set<JobId>,
    worker: Worker,
    calls: map<nat, CancelCall>,
    page: map<JobId, Status>,
    log: Log)

  /** What has happened so far: jobs taken off the queue, jobs whose runner returned with no cancel
      recorded, jobs whose cancel was recorded before that, jobs handed to `_mark_cancelled`, and
      jobs it is done with. */
  datatype Log = Log(taken: set<JobId>, passed: set<JobId>, early: set<JobId>, marked: set<JobId>, closed: set<JobId>)

  const Start := State(map[], {}, [], {}, Waiting, map[], map[], Log({}, {}, {}, {}, {}))

  datatype Move =
    | SubmitRecord(job: JobId)
    | SubmitEnqueue(job: JobId)
    | CallCancel(call: nat, job: JobId)
    | CallStep(call: nat)
      /** The worker goes on from where it is suspended. */
    | Work
      /** The runner raises; `namedCancelled` when the exception's class name says so. */
    | RunnerRaises(namedCancelled: bool)
      /** Something the worker awaits raises outside the runner. */
    | AwaitRaises
    | StopWorker
    | StartWorker
      /** The sweep of a stopped queue lists the rows, and closes one of those it has listed. */
    | ReadPage
    | CloseOut(job: JobId)

  predicate OnJob(w: Worker) {
    !w.Waiting? && !w.Stopped?
  }

  predicate CanMove(s: State, m: Move) {
    match m
    case SubmitRecord(j) => j !in s.status
    case SubmitEnqueue(j) => j in s.unqueued
    case CallCancel(c, _) => c !in s.calls
    case CallStep(c) => c in s.calls && !s.calls[c].Returned?
    case Work => if s.worker.Waiting? then s.queue != [] else !s.worker.Stopped?
    case RunnerRaises(_) => s.worker.InRunner?
    case AwaitRaises => OnJob(s.worker) && !s.worker.InRunner?
    case StopWorker => true
    case StartWorker => s.worker.Stopped?
    case ReadPage => s.worker.Stopped?
    case CloseOut(j) => s.worker.Stopped? && j in s.page
  }

  /** Enter `_mark_cancelled`: the id leaves the cancelled set before the first await. */
  function EnterMark(s: State, j: JobId): State {
    s.(cancelled := s.cancelled - {j}, worker := MarkReading(j), log := s.log.(marked := s.log.marked + {j}))
  }

  function Write(s: State, j: JobId, to: Status): State {
    s.(status := s.status[j := to])
  }

  function Worked(s: State): State
    requires CanMove(s, Work)
  {
    match s.worker
    case Waiting =>
      var j := s.queue[0];
      var t := s.(queue := s.queue[1..], log := s.log.(taken := s.log.taken + {j}));
      if j in s.cancelled then EnterMark(t, j) else t.(worker := Fetching(j))
    case Fetching(j) =>
      if j in s.status then s.(worker := Fetched(j, s.status[j])) else s.(worker := Waiting)
    case Fetched(j, record) =>
      if Terminal(record) then s.(worker := Waiting)
      else Write(s, j, Status.Running).(worker := InRunner(j))
    case InRunner(j) =>
      if j in s.cancelled then EnterMark(s, j)
      else s.(worker := Storing(j), log := s.log.(passed := s.log.passed + {j}))
    case Storing(j) => s.(worker := Rereading(j))
    case Rereading(j) => s.(worker := if j in s.status then Completing(j) else Announcing(j))
    case Completing(j) => Write(s, j, Complete).(worker := Announcing(j))
    case Announcing(_) => s.(worker := Waiting)
    case MarkReading(j) =>
      if j in s.status then s.(worker := MarkWriting(j, s.status[j])) else s.(worker := Waiting)
    case MarkWriting(j, record) =>
      var t := if Terminal(record) then s else Write(s, j, Cancelled);
      t.(worker := Waiting, log := s.log.(closed := s.log.closed + {j}))
    case ErrorReading(j) =>
      if j in s.status then s.(worker := ErrorWriting(j, s.status[j])) else s.(worker := Waiting)
    case ErrorWriting(j, record) =>
      (if Terminal(record) then s else Write(s, j, Error)).(worker := Waiting)
    case Stopped => s
  }

  function CallStepped(s: State, c: nat): State
    requires CanMove(s, CallStep(c))
  {
    match s.calls[c]
    case Reading(j) =>
      s.(calls := s.calls[c := if j in s.status then Holding(j, s.status[j]) else Returned(false)])
    case Holding(j, record) =>
      if Terminal(record) then s.(calls := s.calls[c := Returned(false)])
      else
        s.(cancelled := s.cancelled + {j},
           calls := s.calls[c := if record == Queued then Writing(j) else Returned(true)],
           log := s.log.(early := if j in s.log.passed then s.log.early else s.log.early + {j}))
    case Writing(j) => Write(s, j, Cancelled).(calls := s.calls[c := Returned(true)])
    case Returned(_) => s
  }

  function Moved(s: State, m: Move): State
    requires CanMove(s, m)
  {
    match m
    case SubmitRecord(j) => Write(s, j, Queued).(unqueued := s.unqueued + {j})
    case SubmitEnqueue(j) => s.(unqueued := s.unqueued - {j}, queue := s.queue + [j])
    case CallCancel(c, j) => s.(calls := s.calls[c := Reading(j)])
    case CallStep(c) => CallStepped(s, c)
    case Work => Worked(s)
    case RunnerRaises(named) =>
      var j := s.worker.job;
      if j in s.cancelled || named then EnterMark(s, j) else s.(worker := ErrorReading(j))
    case AwaitRaises =>
      if s.worker.ErrorReading? || s.worker.ErrorWriting? then s.(worker := Waiting)
      else s.(worker := ErrorReading(s.worker.job))
    case StopWorker => s.(worker := Stopped)
    case StartWorker => s.(worker := Waiting)
    case ReadPage => s.(page := s.status)
    case CloseOut(j) =>
      if s.page[j] == Queued then Write(s, j, Cancelled)
      else if s.page[j] == Status.Running then Write(s, j, Error)
      else s
  }

  // ----- The invariant -----

  predicate BeforeCheck(w: Worker) {
    w.Fetching? || w.Fetched? || w.InRunner?
  }

  predicate AfterCheck(w: Worker) {
    w.Storing? || w.Rereading? || w.Completing? || w.Announcing?
  }

  /** Each job is put on the queue once and taken off once. */
  predicate QueueOk(s: State) {
    && (forall a, b :: 0 <= a < b < |s.queue| ==> s.queue[a] != s.queue[b])
    && (forall j :: j in s.queue ==> j !in s.log.taken && j !in s.unqueued && j in s.status)
    && (forall j :: j in s.unqueued ==> j !in s.log.taken && j in s.status)
    && (forall j :: j in s.log.taken ==> j in s.status)
    && s.log.passed <= s.log.taken && s.log.marked <= s.log.taken && s.log.closed <= s.log.marked
    && (OnJob(s.worker) ==> s.worker.job in s.log.taken)
  }

  predicate CancelOk(s: State) {
    && s.log.passed !! s.log.early
    && s.log.passed !! s.log.marked
    && (forall j :: j in s.log.early ==> j in s.cancelled || j in s.log.marked)
    && (BeforeCheck(s.worker) ==> s.worker.job !in s.log.passed && s.worker.job !in s.log.marked)
    && (AfterCheck(s.worker) ==> s.worker.job in s.log.passed)
    && (s.worker.MarkReading? || s.worker.MarkWriting? ==> s.worker.job in s.log.marked)
    && (OnJob(s.worker) ==> s.worker.job !in s.log.closed)
  }

  predicate StatusOk(s: State) {
    && (forall j :: j in s.status && s.status[j] == Complete ==> j in s.log.passed)
    && (s.worker.MarkWriting? && Terminal(s.worker.record) ==>
          s.worker.job in s.status && Terminal(s.status[s.worker.job]))
    && (forall j :: j in s.log.closed ==> j in s.status && Terminal(s.status[j]))
  }

  /** Rows are never removed, so a row once read still exists. */
  predicate RowsOk(s: State) {
    && s.page.Keys <= s.status.Keys
    && (forall c :: c in s.calls && (s.calls[c].Holding? || s.calls[c].Writing?) ==> s.calls[c].job in s.status)
  }

  predicate Ok(s: State) {
    QueueOk(s) && CancelOk(s) && StatusOk(s) && RowsOk(s)
  }

  lemma StartOk()
    ensures Ok(Start)
  {
  }

  lemma TakeKeepsQueue(s: State)
    requires QueueOk(s) && s.worker.Waiting? && s.queue != []
    ensures QueueOk(Worked(s))
  {
    var rest := s.queue[1..];
    assert forall a :: 0 <= a < |rest| ==> rest[a] == s.queue[a + 1];
  }

  lemma WorkKeepsQueue(s: State)
    requires QueueOk(s) && CancelOk(s) && CanMove(s, Work)
    ensures QueueOk(Worked(s))
  {
    if s.worker.Waiting? {
      TakeKeepsQueue(s);
    }
  }

  lemma WorkKeepsCancel(s: State)
    requires QueueOk(s) && CancelOk(s) && CanMove(s, Work)
    ensures CancelOk(Worked(s))
  {
  }

  lemma WorkKeepsStatus(s: State)
    requires QueueOk(s) && CancelOk(s) && StatusOk(s) && CanMove(s, Work)
    ensures StatusOk(Worked(s))
  {
  }

  lemma WorkKeepsRows(s: State)
    requires RowsOk(s) && CanMove(s, Work)
    ensures RowsOk(Worked(s))
  {
  }

  lemma OthersKeepQueue(s: State, m: Move)
    requires QueueOk(s) && RowsOk(s) && CanMove(s, m) && !m.Work?
    ensures QueueOk(Moved(s, m))
  {
  }

  lemma OthersKeepCancel(s: State, m: Move)
    requires QueueOk(s) && CancelOk(s) && CanMove(s, m) && !m.Work?
    ensures CancelOk(Moved(s, m))
  {
  }

  lemma OthersKeepStatus(s: State, m: Move)
    requires QueueOk(s) && CancelOk(s) && StatusOk(s) && CanMove(s, m) && !m.Work?
    ensures StatusOk(Moved(s, m))
  {
  }

  lemma OthersKeepRows(s: State, m: Move)
    requires RowsOk(s) && CanMove(s, m) && !m.Work?
    ensures RowsOk(Moved(s, m))
  {
  }

  lemma MoveKeepsOk(s: State, m: Move)
    requires Ok(s) && CanMove(s, m)
    ensures Ok(Moved(s, m))
  {
    if m.Work? {
      WorkKeepsQueue(s);
      WorkKeepsCancel(s);
      WorkKeepsStatus(s);
      WorkKeepsRows(s);
    } else {
      OthersKeepQueue(s, m);
      OthersKeepCancel(s, m);
      OthersKeepStatus(s, m);
      OthersKeepRows(s, m);
    }
  }

  // ----- Whole runs -----

  /** Moves and the states they lead through, from any state. */
  predicate IsPath(ss: seq<State>, ms: seq<Move>) {
    && |ss| == |ms| + 1
    && forall k :: 0 <= k < |ms| ==> CanMove(ss[k], ms[k]) && ss[k + 1] == Moved(ss[k], ms[k])
  }

  predicate IsRun(ss: seq<State>, ms: seq<Move>) {
    IsPath(ss, ms) && ss[0] == Start
  }

  lemma {:induction false} RunIsOk(ss: seq<State>, ms: seq<Move>, n: nat)
    requires IsRun(ss, ms) && n <= |ms|
    ensures Ok(ss[n])
  {
    if n == 0 {
      StartOk();
    } else {
      RunIsOk(ss, ms, n - 1);
      MoveKeepsOk(ss[n - 1], ms[n - 1]);
    }
  }

  /** The step that records a cancel. */
  predicate RecordsCancel(s: State, m: Move, j: JobId) {
    m.CallStep? && m.call in s.calls && s.calls[m.call].Holding? && s.calls[m.call].job == j
    && !Terminal(s.calls[m.call].record)
  }

  /** The step at which the runner of `j` returns and the worker sees no cancel. */
  predicate RunnerReturned(s: State, m: Move, j: JobId) {
    m.Work? && s.worker == InRunner(j) && j !in s.cancelled
  }

  lemma PassingReturns(s: State, m: Move, j: JobId)
    requires CanMove(s, m) && j !in s.log.passed && j in Moved(s, m).log.passed
    ensures RunnerReturned(s, m, j)
  {
  }

  lemma {:induction false} PassedMeansReturned(ss: seq<State>, ms: seq<Move>, n: nat, j: JobId) returns (k: nat)
    requires IsRun(ss, ms) && n <= |ms| && j in ss[n].log.passed
    ensures k < n && RunnerReturned(ss[k], ms[k], j)
  {
    if j in ss[n - 1].log.passed {
      k := PassedMeansReturned(ss, ms, n - 1, j);
    } else {
      k := n - 1;
      PassingReturns(ss[k], ms[k], j);
    }
  }

  lemma {:induction false} EarlyStays(ss: seq<State>, ms: seq<Move>, i: nat, n: nat, j: JobId)
    requires IsRun(ss, ms) && i <= n <= |ms| && j in ss[i].log.early
    ensures j in ss[n].log.early
  {
    if i < n { EarlyStays(ss, ms, i, n - 1, j); }
  }

  /** A cancel recorded at step `k`, before the runner returned, settles it: at no later step of the
      run is the job complete, and its runner's return is never taken for a success. */
  lemma RecordedCancelWins(ss: seq<State>, ms: seq<Move>, k: nat, n: nat, j: JobId)
    requires IsRun(ss, ms) && k < n <= |ms| && RecordsCancel(ss[k], ms[k], j)
    requires forall i :: 0 <= i < k ==> !RunnerReturned(ss[i], ms[i], j)
    ensures j in ss[n].status && ss[n].status[j] != Complete
    ensures j !in ss[n].log.passed
  {
    if j in ss[k].log.passed {
      var i := PassedMeansReturned(ss, ms, k, j);
      assert false;
    }
    RunIsOk(ss, ms, k);
    assert j in ss[k + 1].log.early;
    EarlyStays(ss, ms, k + 1, n, j);
    RunIsOk(ss, ms, n);
    StatusStays(ss, ms, k, n, j);
  }

  lemma {:induction false} StatusStays(ss: seq<State>, ms: seq<Move>, i: nat, n: nat, j: JobId)
    requires IsRun(ss, ms) && i <= n <= |ms| && j in ss[i].status
    ensures j in ss[n].status
  {
    if i < n { StatusStays(ss, ms, i, n - 1, j); }
  }

  /** In any run, complete means the runner returned at a moment when no cancel was recorded. */
  lemma CompleteMeansUncancelled(ss: seq<State>, ms: seq<Move>, n: nat, j: JobId) returns (k: nat)
    requires IsRun(ss, ms) && n <= |ms| && j in ss[n].status && ss[n].status[j] == Complete
    ensures k < n && RunnerReturned(ss[k], ms[k], j)
    ensures forall i :: 0 <= i < k ==> !RecordsCancel(ss[i], ms[i], j)
  {
    RunIsOk(ss, ms, n);
    k := PassedMeansReturned(ss, ms, n, j);
    forall i | 0 <= i < k
      ensures !RecordsCancel(ss[i], ms[i], j)
    {
      if RecordsCancel(ss[i], ms[i], j) {
        FirstReturn(ss, ms, i, k, j);
        RecordedCancelWins(ss, ms, i, n, j);
      }
    }
  }

  /** A runner returns once: before the return at `k` there is none. */
  lemma FirstReturn(ss: seq<State>, ms: seq<Move>, i: nat, k: nat, j: JobId)
    requires IsRun(ss, ms) && i <= k < |ms| && RunnerReturned(ss[k], ms[k], j)
    ensures forall l :: 0 <= l < i ==> !RunnerReturned(ss[l], ms[l], j)
  {
    RunIsOk(ss, ms, k);
    forall l | 0 <= l < i
      ensures !RunnerReturned(ss[l], ms[l], j)
    {
      if RunnerReturned(ss[l], ms[l], j) {
        PassedStays(ss, ms, l + 1, k, j);
      }
    }
  }

  lemma {:induction false} PassedStays(ss: seq<State>, ms: seq<Move>, i: nat, n: nat, j: JobId)
    requires IsRun(ss, ms) && i <= n <= |ms| && j in ss[i].log.passed
    ensures j in ss[n].log.passed
  {
    if i < n { PassedStays(ss, ms, i, n - 1, j); }
  }

  /** Once the worker is done marking a job cancelled, its record is terminal and never complete. */
  lemma ClosedIsTerminal(ss: seq<State>, ms: seq<Move>, n: nat, j: JobId)
    requires IsRun(ss, ms) && n <= |ms| && j in ss[n].log.closed
    ensures j in ss[n].status && Terminal(ss[n].status[j]) && ss[n].status[j] != Complete
  {
    RunIsOk(ss, ms, n);
  }

  // ----- Which late cancels come too late -----

  predicate IsComplete(s: State, j: JobId) {
    j in s.status && s.status[j] == Complete
  }

  /** The worker is between the return of the job's runner and the write of `complete`. */
  predicate Finishing(s: State, j: JobId) {
    s.worker == Storing(j) || s.worker == Rereading(j) || s.worker == Completing(j)
  }

  /** Some way on from `s`, none included, leads to the job being complete. */
  ghost predicate CanComplete(s: State, j: JobId) {
    exists ss: seq<State>, ms: seq<Move> :: IsPath(ss, ms) && ss[0] == s && IsComplete(ss[|ms|], j)
  }

  /** The worker will not finish the job any more: it was told to cancel it in time, or is past it. */
  predicate Settled(s: State, j: JobId) {
    && !IsComplete(s, j) && !Finishing(s, j)
    && (j in s.log.early || (j in s.log.taken && !(BeforeCheck(s.worker) && s.worker.job == j)))
  }

  lemma WorkKeepsSettled(s: State, j: JobId)
    requires Ok(s) && CanMove(s, Work) && Settled(s, j)
    ensures Settled(Worked(s), j)
  {
  }

  lemma MoveKeepsSettled(s: State, m: Move, j: JobId)
    requires Ok(s) && CanMove(s, m) && Settled(s, j)
    ensures Settled(Moved(s, m), j)
  {
    if m.Work? { WorkKeepsSettled(s, j); }
  }

  lemma {:induction false} SettledStays(ss: seq<State>, ms: seq<Move>, n: nat, j: JobId)
    requires IsPath(ss, ms) && n <= |ms| && Ok(ss[0]) && Settled(ss[0], j)
    ensures Ok(ss[n]) && Settled(ss[n], j)
  {
    if n > 0 {
      SettledStays(ss, ms, n - 1, j);
      MoveKeepsOk(ss[n - 1], ms[n - 1]);
      MoveKeepsSettled(ss[n - 1], ms[n - 1], j);
    }
  }

  function WorkLeft(w: Worker): nat {
    if w.Storing? then 3 else if w.Rereading? then 2 else 1
  }

  lemma MoveBefore(s: State, m: Move, ss: seq<State>, ms: seq<Move>)
    requires CanMove(s, m) && IsPath(ss, ms) && ss[0] == Moved(s, m)
    ensures IsPath([s] + ss, [m] + ms)
  {
    var ss', ms' := [s] + ss, [m] + ms;
    forall k | 0 <= k < |ms'|
      ensures CanMove(ss'[k], ms'[k]) && ss'[k + 1] == Moved(ss'[k], ms'[k])
    {
      if k > 0 { assert ss'[k] == ss[k - 1] && ms'[k] == ms[k - 1] && ss'[k + 1] == ss[k]; }
    }
  }

  /** From a finishing state the worker's own next steps, three at most, complete the job. */
  lemma {:induction false} FinishingCompletes(s: State, j: JobId) returns (ss: seq<State>, ms: seq<Move>)
    requires Ok(s) && Finishing(s, j)
    ensures IsPath(ss, ms) && ss[0] == s && IsComplete(ss[|ms|], j) && |ms| <= WorkLeft(s.worker) && forall k :: 0 <= k < |ms| ==> ms[k] == Work
    decreases WorkLeft(s.worker)
  {
    var next := Moved(s, Work);
    if s.worker.Completing? {
      ss, ms := [s, next], [Work];
    } else {
      MoveKeepsOk(s, Work);
      var ss', ms' := FinishingCompletes(next, j);
      MoveBefore(s, Work, ss', ms');
      ss, ms := [s] + ss', [Work] + ms';
    }
  }

  /** When a cancel is recorded, at any step of any run, the job can still end complete exactly if its
      record is complete already or the worker is storing its result, re-reading its record or about to
      write `complete`. */
  lemma RecordedCancelIsTooLate(ss: seq<State>, ms: seq<Move>, k: nat, j: JobId)
    requires IsRun(ss, ms) && k < |ms| && RecordsCancel(ss[k], ms[k], j)
    ensures CanComplete(ss[k + 1], j) <==> IsComplete(ss[k], j) || Finishing(ss[k], j)
  {
    var s, t := ss[k], ss[k + 1];
    RunIsOk(ss, ms, k);
    RunIsOk(ss, ms, k + 1);
    assert t.worker == s.worker && t.status == s.status && t.log.passed == s.log.passed;
    if Finishing(s, j) {
      var on, moves := FinishingCompletes(t, j);
    } else if IsComplete(s, j) {
      var on, moves: seq<Move> := [t], [];
      assert IsPath(on, moves) && IsComplete(on[|moves|], j);
    } else {
      assert Settled(t, j);
      forall on: seq<State>, moves: seq<Move> | IsPath(on, moves) && on[0] == t
        ensures !IsComplete(on[|moves|], j)
      {
        SettledStays(on, moves, |moves|, j);
      }
    }
  }

  lemma RunToRunner() returns (ss: seq<State>, ms: seq<Move>)
    ensures IsRun(ss, ms)
    ensures ss[|ms|] == State(map[7 := Status.Running], {}, [], {}, InRunner(7), map[], map[], Log({7}, {}, {}, {}, {}))
  {
    ss, ms := Extend([Start], [], SubmitRecord(7));
    ss, ms := Extend(ss, ms, SubmitEnqueue(7));
    assert ss[|ms|] == State(map[7 := Queued], {}, [7], {}, Waiting, map[], map[], Log({}, {}, {}, {}, {}));
    ss, ms := Extend(ss, ms, Work);
    ss, ms := Extend(ss, ms, Work);
    ss, ms := Extend(ss, ms, Work);
  }

  lemma ThenCancel() returns (ss: seq<State>, ms: seq<Move>)
    ensures IsRun(ss, ms)
    ensures ss[|ms|] == State(map[7 := Status.Running], {}, [], {7}, Storing(7), map[0 := Returned(true)], map[],
                              Log({7}, {7}, {}, {}, {}))
  {
    ss, ms := RunToRunner();
    ss, ms := Extend(ss, ms, Work);
    ss, ms := Extend(ss, ms, CallCancel(0, 7));
    ss, ms := Extend(ss, ms, CallStep(0));
    ss, ms := Extend(ss, ms, CallStep(0));
  }

  /** The condition is needed: a cancel recorded after the runner returned is accepted, and the job
      still completes. */
  lemma LateCancelIsTooLate() returns (ss: seq<State>, ms: seq<Move>)
    ensures IsRun(ss, ms)
    ensures ss[|ms|].calls == map[0 := Returned(true)] && ss[|ms|].status == map[7 := Complete]
  {
    ss, ms := ThenCancel();
    ss, ms := Extend(ss, ms, Work);
    ss, ms := Extend(ss, ms, Work);
    ss, ms := Extend(ss, ms, Work);
  }

  lemma Extend(ss: seq<State>, ms: seq<Move>, m: Move) returns (ss': seq<State>, ms': seq<Move>)
    requires IsRun(ss, ms) && CanMove(ss[|ms|], m)
    ensures IsRun(ss', ms') && |ms'| == |ms| + 1 && ss'[|ms'|] == Moved(ss[|ms|], m)
  {
    ss', ms' := ss + [Moved(ss[|ms|], m)], ms + [m];
  }

  // ----- What jobs and calls come to -----

  /** Undisturbed, `m` and then `next` as often as `n` says lead from `s` to `t`. */
  ghost predicate LeadsTo(s: State, m: Move, next: Move, n: nat, t: State)
    decreases n
  {
    CanMove(s, m) && (if n == 0 then t == Moved(s, m) else LeadsTo(Moved(s, m), next, next, n - 1, t))
  }

  /** What is written at last, unless the record is terminal; only `complete` is written over a terminal record. */
  function Ended(status: map<JobId, Status>, j: JobId, to: Status): map<JobId, Status>
    requires j in status
  {
    if Terminal(status[j]) && to != Complete then status else status[j := to]
  }

  lemma MarkEnds(s: State, j: JobId) returns (t: State)
    requires s.worker == MarkReading(j) && j in s.status
    ensures LeadsTo(s, Work, Work, 1, t) && t.worker == Waiting && t.queue == s.queue && t.cancelled == s.cancelled
    ensures t.status == Ended(s.status, j, Cancelled)
  {
    var a := Moved(s, Work);
    t := Moved(a, Work);
    assert LeadsTo(a, Work, Work, 0, t);
  }

  lemma ErrorEnds(s: State, j: JobId) returns (t: State)
    requires s.worker == ErrorReading(j) && j in s.status
    ensures LeadsTo(s, Work, Work, 1, t) && t.worker == Waiting && t.queue == s.queue
    ensures t.status == Ended(s.status, j, Error)
  {
    var a := Moved(s, Work);
    t := Moved(a, Work);
    assert LeadsTo(a, Work, Work, 0, t);
  }

  lemma StoringEnds(s: State, j: JobId) returns (t: State)
    requires s.worker == Storing(j) && j in s.status
    ensures LeadsTo(s, Work, Work, 3, t) && t.worker == Waiting && t.queue == s.queue
    ensures t.status == Ended(s.status, j, Complete)
  {
    var a := Moved(s, Work);
    var b := Moved(a, Work);
    var c := Moved(b, Work);
    t := Moved(c, Work);
    assert LeadsTo(c, Work, Work, 0, t);
    assert LeadsTo(b, Work, Work, 1, t);
    assert LeadsTo(a, Work, Work, 2, t);
  }

  /** The runner returns or raises: the job ends cancelled if a cancel is on record or the exception says so, else
      complete on a return and in error on an exception. */
  lemma RunnerEnds(s: State, m: Move, j: JobId) returns (works: nat, t: State)
    requires s.worker == InRunner(j) && j in s.status && (m == Work || m.RunnerRaises?)
    ensures LeadsTo(s, m, Work, works, t) && t.worker == Waiting && t.queue == s.queue
    ensures j in s.cancelled || m == RunnerRaises(true) ==> t.status == Ended(s.status, j, Cancelled)
    ensures j !in s.cancelled && m == Work ==> t.status == Ended(s.status, j, Complete)
    ensures j !in s.cancelled && m == RunnerRaises(false) ==> t.status == Ended(s.status, j, Error)
  {
    var a := Moved(s, m);
    if j in s.cancelled || m == RunnerRaises(true) {
      works := 2;
      t := MarkEnds(a, j);
    } else if m == Work {
      works := 4;
      t := StoringEnds(a, j);
    } else {
      works := 2;
      t := ErrorEnds(a, j);
    }
  }

  /** Anything else the worker awaits raises: the job ends in error, unless its record is terminal. */
  lemma FailedAwaitEnds(s: State, j: JobId) returns (t: State)
    requires OnJob(s.worker) && s.worker.job == j && j in s.status
    requires !s.worker.InRunner? && !s.worker.ErrorReading? && !s.worker.ErrorWriting?
    ensures LeadsTo(s, AwaitRaises, Work, 2, t) && t.worker == Waiting && t.queue == s.queue
    ensures t.status == Ended(s.status, j, Error)
  {
    t := ErrorEnds(Moved(s, AwaitRaises), j);
  }

  /** The job in front is taken: it runs, unless a cancel is on record or it is terminal already. */
  lemma TakenJobStarts(s: State, j: JobId) returns (works: nat, t: State)
    requires s.worker.Waiting? && s.queue != [] && s.queue[0] == j && j in s.status
    ensures LeadsTo(s, Work, Work, works, t) && t.queue == s.queue[1..]
    ensures j in s.cancelled ==>
              t.worker == Waiting && t.cancelled == s.cancelled - {j} && t.status == Ended(s.status, j, Cancelled)
    ensures j !in s.cancelled && Terminal(s.status[j]) ==> t.worker == Waiting && t.status == s.status
    ensures j !in s.cancelled && !Terminal(s.status[j]) ==> t.worker == InRunner(j) && t.status == s.status[j := Status.Running]
  {
    var a := Moved(s, Work);
    works := 2;
    if j in s.cancelled {
      t := MarkEnds(a, j);
    } else {
      var b := Moved(a, Work);
      t := Moved(b, Work);
      assert LeadsTo(b, Work, Work, 0, t);
      assert LeadsTo(a, Work, Work, 1, t);
    }
  }

  /** A `cancel` call that nothing disturbs: false for a missing or terminal job; otherwise the cancel is on record
      and a queued job is cancelled at once. */
  lemma CancelAnswers(s: State, c: nat, j: JobId) returns (steps: nat, t: State)
    requires c !in s.calls
    ensures LeadsTo(s, CallCancel(c, j), CallStep(c), steps, t)
    ensures j !in s.status || Terminal(s.status[j]) ==> t == s.(calls := s.calls[c := Returned(false)])
    ensures j in s.status && !Terminal(s.status[j]) ==>
              && t.calls == s.calls[c := Returned(true)] && t.cancelled == s.cancelled + {j}
              && t.status == if s.status[j] == Queued then s.status[j := Cancelled] else s.status
  {
    var a := Moved(s, CallCancel(c, j));
    var b := Moved(a, CallStep(c));
    if j !in s.status {
      steps, t := 1, b;
      assert LeadsTo(a, CallStep(c), CallStep(c), 0, b);
      assert t.calls == s.calls[c := Returned(false)];
    } else {
      var more;
      more, t := HeldAnswers(b, c, j, s.status[j]);
      steps := more + 2;
      assert LeadsTo(a, CallStep(c), CallStep(c), more + 1, t);
      assert t.calls == s.calls[c := t.calls[c]];
    }
  }

  lemma HeldAnswers(s: State, c: nat, j: JobId, record: Status) returns (more: nat, t: State)
    requires c in s.calls && s.calls[c] == Holding(j, record)
    ensures LeadsTo(s, CallStep(c), CallStep(c), more, t)
    ensures Terminal(record) ==> t == s.(calls := s.calls[c := Returned(false)])
    ensures !Terminal(record) ==>
              && t.calls == s.calls[c := Returned(true)] && t.cancelled == s.cancelled + {j}
              && t.status == if record == Queued then s.status[j := Cancelled] else s.status
  {
    more, t := 0, Moved(s, CallStep(c));
    if record == Queued {
      var b := t;
      more, t := 1, Moved(b, CallStep(c));
      assert LeadsTo(b, CallStep(c), CallStep(c), 0, t);
      assert t.calls == s.calls[c := Returned(true)];
    }
  }

  /** The call is there, and is about `j` until it has returned. */
  predicate IsCallFor(s: State, c: nat, j: JobId) {
    c in s.calls && (!s.calls[c].Returned? ==> s.calls[c].job == j)
  }

  /** The call answers true, now or after its write. */
  predicate SaysYes(s: State, c: nat) {
    c in s.calls && (s.calls[c].Writing? || s.calls[c] == Returned(true))
  }

  lemma StepAndAnswer(s: State, m: Move, c: nat, j: JobId)
    requires CanMove(s, m) && IsCallFor(s, c, j)
    ensures IsCallFor(Moved(s, m), c, j)
    ensures SaysYes(Moved(s, m), c) <==> SaysYes(s, c) || (m == CallStep(c) && RecordsCancel(s, m, j))
  {
    if m.CallStep? && m.call != c { assert Moved(s, m).calls[c] == s.calls[c]; }
  }

  /** The call started at step `i` has recorded its cancel before step `n`. */
  ghost predicate Recorded(ss: seq<State>, ms: seq<Move>, i: nat, n: nat, c: nat, j: JobId)
    requires IsPath(ss, ms) && n <= |ms|
  {
    exists k :: i < k < n && ms[k] == CallStep(c) && RecordsCancel(ss[k], ms[k], j)
  }

  /** In any run, whatever happens in between, a `cancel` answers true exactly if it recorded the cancel. */
  lemma {:induction false} TrueMeansRecorded(ss: seq<State>, ms: seq<Move>, i: nat, n: nat, c: nat, j: JobId)
    requires IsRun(ss, ms) && i < n <= |ms| && ms[i] == CallCancel(c, j)
    ensures IsCallFor(ss[n], c, j)
    ensures SaysYes(ss[n], c) <==> Recorded(ss, ms, i, n, c, j)
  {
    if n == i + 1 {
      CallStarts(ss[i], c, j);
      assert !Recorded(ss, ms, i, n, c, j);
    } else {
      TrueMeansRecorded(ss, ms, i, n - 1, c, j);
      StepAndAnswer(ss[n - 1], ms[n - 1], c, j);
      RecordedByStep(ss, ms, i, n - 1, c, j);
    }
  }

  lemma CallStarts(s: State, c: nat, j: JobId)
    requires CanMove(s, CallCancel(c, j))
    ensures IsCallFor(Moved(s, CallCancel(c, j)), c, j) && !SaysYes(Moved(s, CallCancel(c, j)), c)
  {
  }

  lemma RecordedByStep(ss: seq<State>, ms: seq<Move>, i: nat, n: nat, c: nat, j: JobId)
    requires IsPath(ss, ms) && i < n < |ms|
    ensures Recorded(ss, ms, i, n + 1, c, j) <==>
              Recorded(ss, ms, i, n, c, j) || (ms[n] == CallStep(c) && RecordsCancel(ss[n], ms[n], j))
  {
  }

  /** A listed row is closed by what it was when it was listed. */
  lemma ListedRowsClose(s: State, j: JobId)
    requires s.worker.Stopped? && j in s.status
    ensures CanMove(s, ReadPage) && CanMove(Moved(s, ReadPage), CloseOut(j))
    ensures Moved(Moved(s, ReadPage), CloseOut(j)).status ==
            if s.status[j] == Queued then s.status[j := Cancelled]
            else if s.status[j] == Status.Running then s.status[j := Error]
            else s.status
  {
  }

  // ----- First in, first out -----

  /** The job a step puts on the queue. */
  function Put(m: Move): seq<JobId> {
    if m.SubmitEnqueue? then [m.job] else []
  }

  /** The job the worker goes to by a step from `s` to `t`. */
  function Take(s: State, m: Move, t: State): seq<JobId> {
    if m == Work && s.worker.Waiting? && OnJob(t.worker) then [t.worker.job] else []
  }

  function Puts(ms: seq<Move>, n: nat): seq<JobId>
    requires n <= |ms|
  {
    if n == 0 then [] else Puts(ms, n - 1) + Put(ms[n - 1])
  }

  function Takes(ss: seq<State>, ms: seq<Move>, n: nat): seq<JobId>
    requires n <= |ms| < |ss|
  {
    if n == 0 then [] else Takes(ss, ms, n - 1) + Take(ss[n - 1], ms[n - 1], ss[n])
  }

  lemma StepAndQueue(s: State, m: Move)
    requires CanMove(s, m)
    ensures s.queue + Put(m) == Take(s, m, Moved(s, m)) + Moved(s, m).queue
  {
    if m == Work && s.worker.Waiting? { assert s.queue == [s.queue[0]] + s.queue[1..]; }
  }

  /** Jobs are taken in the order in which they were put on the queue; the queue holds the others. */
  lemma {:induction false} FirstInFirstOut(ss: seq<State>, ms: seq<Move>, n: nat)
    requires IsRun(ss, ms) && n <= |ms|
    ensures Puts(ms, n) == Takes(ss, ms, n) + ss[n].queue
  {
    if n > 0 {
      FirstInFirstOut(ss, ms, n - 1);
      StepAndQueue(ss[n - 1], ms[n - 1]);
      Regroup(Takes(ss, ms, n - 1), ss[n - 1].queue, Put(ms[n - 1]), Take(ss[n - 1], ms[n - 1], ss[n]), ss[n].queue);
    }
  }

  lemma Regroup(taken: seq<JobId>, queue: seq<JobId>, put: seq<JobId>, take: seq<JobId>, left: seq<JobId>)
    requires queue + put == take + left
    ensures taken + queue + put == taken + take + left
  {
    assert taken + queue + put == taken + (queue + put);
    assert taken + take + left == taken + (take + left);
  }
}
