/** Runs of the Redis job queue: any number of clients, submitting, cancelling, claiming,
    renewing, finishing, requeueing and recovering in any order, and what every run keeps. */
module LeaseRuns {
  import opened JobRecords
  import opened LeaseScripts
  import opened Options

  /** One atomic step. Job records are read and written back by workers without any fence, so a
      record may change to anything at any moment (`Write`). */
  datatype Event =
    | Submit(job: JobId, now: real, body: string)
    | Write(job: JobId, to: Status)
    | Cancel(job: JobId)
    | Claim(owner: Owner, score: real, target: Option<JobId>)
      /** One commit of the claim without scripts: the head and the cancelled set are those of the
          commit, but the record was read earlier: `sawFinished` when it was terminal then. */
    | FallbackClaim(owner: Owner, score: real, job: JobId, sawFinished: bool)
    | Renew(job: JobId, owner: Owner, score: real)
    | Finish(job: JobId, owner: Owner)
    | Requeue(job: JobId, owner: Owner, now: real)
    | Recover(job: JobId, now: real)

  /** The keys, with the job ids ever submitted, the owners ever granted a lease and the jobs whose
      record was ever terminal. */
  datatype World = World(keys: Keys, born: set<JobId>, granted: set<Owner>, finished: set<JobId>)

  const Empty := World(NoKeys, {}, {}, {})

  predicate FallbackPurges(s: Keys, e: Event)
    requires e.FallbackClaim?
  {
    e.job in s.cancelled || e.sawFinished
  }

  /** What the environment guarantees: job ids are fresh, and every claim brings a fresh owner. */
  ghost predicate Enabled(w: World, e: Event) {
    match e
    case Submit(j, _, _) => j !in w.born
    case Write(_, _) => true
    case Cancel(_) => true
    case Claim(owner, _, target) => owner != "" && owner !in w.granted && IsNext(w.keys, target)
    case FallbackClaim(owner, _, j, sawFinished) =>
      owner != "" && owner !in w.granted && IsHead(w.keys.queue, j) && (sawFinished ==> j in w.finished)
    case Renew(_, owner, _) => owner != ""
    case Finish(_, owner) => owner != ""
    case Requeue(_, owner, _) => owner != ""
    case Recover(_, _) => true
  }

  ghost function KeysAfter(s: Keys, e: Event, maxRetries: nat): Keys
    requires e.Claim? ==> IsNext(s, e.target)
  {
    match e
    case Submit(j, now, body) => Submitted(s, j, now, body)
    case Write(j, st) => s.(status := s.status[j := st])
    case Cancel(j) => CancelCommitted(s, j)
    case Claim(owner, score, target) => Claimed(s, owner, score, target)
    case FallbackClaim(owner, score, j, _) =>
      if FallbackPurges(s, e) then HeadPurged(s, j) else HeadActivated(s, j, owner, score)
    case Renew(j, owner, score) => Renewed(s, j, owner, score)
    case Finish(j, owner) => Finished(s, j, owner)
    case Requeue(j, owner, now) => Requeued(s, j, owner, now)
    case Recover(j, now) => Recovered(s, j, now, maxRetries)
  }

  /** The job a step hands out, if any. */
  function HandsOut(s: Keys, e: Event): Option<JobId> {
    match e
    case Claim(_, _, target) => target
    case FallbackClaim(_, _, j, _) => if FallbackPurges(s, e) then None else Some(j)
    case _ => None
  }

  ghost function After(w: World, e: Event, maxRetries: nat): World
    requires Enabled(w, e)
  {
    World(KeysAfter(w.keys, e, maxRetries),
          if e.Submit? then w.born + {e.job} else w.born,
          if HandsOut(w.keys, e).Some? then w.granted + {e.owner} else w.granted,
          if e.Write? && Terminal(e.to) then w.finished + {e.job} else w.finished)
  }

  predicate Live(s: Keys, j: JobId) {
    j in s.queue || j in s.active
  }

  // ----- The invariant -----

  predicate KeysOk(s: Keys) {
    && s.queue.Keys !! s.active.Keys
    && s.lease.Keys == s.active.Keys
    && s.queue.Keys <= s.payload.Keys
    && s.active.Keys <= s.payload.Keys
  }

  ghost predicate Inv(w: World, maxRetries: nat) {
    var s := w.keys;
    && KeysOk(s)
    && s.queue.Keys <= w.born && s.active.Keys <= w.born && s.payload.Keys <= w.born && s.attempts.Keys <= w.born
    && (forall j :: j in s.attempts ==> s.attempts[j] <= maxRetries)
    && "" !in w.granted
    && (forall j :: j in s.lease ==> s.lease[j] in w.granted)
    && (forall j :: j in s.status && Terminal(s.status[j]) ==> j in w.finished)
    && (forall i, j :: i in s.lease && j in s.lease && s.lease[i] == s.lease[j] ==> i == j)
  }

  lemma ClaimKeeps(w: World, e: Event, maxRetries: nat)
    requires Inv(w, maxRetries) && Enabled(w, e) && (e.Claim? || e.FallbackClaim?)
    ensures Inv(After(w, e, maxRetries), maxRetries)
  {
  }

  lemma OwnerStepKeeps(w: World, e: Event, maxRetries: nat)
    requires Inv(w, maxRetries) && Enabled(w, e) && (e.Renew? || e.Finish? || e.Requeue?)
    ensures Inv(After(w, e, maxRetries), maxRetries)
  {
  }

  lemma RecoverKeeps(w: World, e: Event, maxRetries: nat)
    requires Inv(w, maxRetries) && Enabled(w, e) && e.Recover?
    ensures Inv(After(w, e, maxRetries), maxRetries)
  {
    var s := w.keys;
    match RecoveryOf(s, e.job, e.now, maxRetries)
    case Untouched =>
    case Exhausted =>
      assert e.job in s.active && e.job !in s.queue;
    case ToQueue =>
      assert e.job in s.active && e.job in s.payload && e.job in w.born;
  }

  lemma OtherStepKeeps(w: World, e: Event, maxRetries: nat)
    requires Inv(w, maxRetries) && Enabled(w, e) && (e.Submit? || e.Write? || e.Cancel?)
    ensures Inv(After(w, e, maxRetries), maxRetries)
  {
  }

  lemma StepKeepsInv(w: World, e: Event, maxRetries: nat)
    requires Inv(w, maxRetries) && Enabled(w, e)
    ensures Inv(After(w, e, maxRetries), maxRetries)
  {
    match e
    case Claim(_, _, _) => ClaimKeeps(w, e, maxRetries);
    case FallbackClaim(_, _, _, _) => ClaimKeeps(w, e, maxRetries);
    case Renew(_, _, _) => OwnerStepKeeps(w, e, maxRetries);
    case Finish(_, _) => OwnerStepKeeps(w, e, maxRetries);
    case Requeue(_, _, _) => OwnerStepKeeps(w, e, maxRetries);
    case Recover(_, _) => RecoverKeeps(w, e, maxRetries);
    case _ => OtherStepKeeps(w, e, maxRetries);
  }

  // ----- Runs -----

  ghost predicate IsRun(ws: seq<World>, es: seq<Event>, maxRetries: nat) {
    && |ws| == |es| + 1
    && Inv(ws[0], maxRetries)
    && forall k :: 0 <= k < |es| ==> Enabled(ws[k], es[k]) && ws[k + 1] == After(ws[k], es[k], maxRetries)
  }

  /** Every state of every run: queue and active are disjoint, exactly the active jobs are leased,
      every live job has its payload, the attempts counter never passes its bound, and no owner
      holds two leases. */
  lemma {:induction false} RunKeepsInv(ws: seq<World>, es: seq<Event>, maxRetries: nat, k: nat)
    requires IsRun(ws, es, maxRetries) && k <= |es|
    ensures Inv(ws[k], maxRetries)
  {
    if k > 0 {
      RunKeepsInv(ws, es, maxRetries, k - 1);
      StepKeepsInv(ws[k - 1], es[k - 1], maxRetries);
    }
  }

  // ----- No job is lost -----

  /** The only ways out: finished by the owner of its lease, out of retries, cancelled while
      queued, or purged by a claim as cancelled or recorded finished. */
  predicate Disposes(s: Keys, e: Event, j: JobId, maxRetries: nat) {
    match e
    case Finish(i, owner) => i == j && Owns(s, j, owner)
    case Recover(i, now) => i == j && RecoveryOf(s, j, now, maxRetries) == Exhausted
    case Cancel(i) => i == j && j in s.queue
    case Claim(_, _, target) => j in s.queue && target != Some(j) && !Eligible(s, j) &&
                                (target.Some? && target.value in s.queue ==> Ahead(s.queue, j, target.value))
    case FallbackClaim(_, _, i, sawFinished) => i == j && (j in s.cancelled || sawFinished)
    case _ => false
  }

  /** A step takes a live job out exactly when it disposes of it; what stays keeps its payload, and
      nothing comes back except by being submitted. */
  lemma StepAndJob(w: World, e: Event, maxRetries: nat, j: JobId)
    requires Inv(w, maxRetries) && Enabled(w, e)
    ensures var s, t := w.keys, After(w, e, maxRetries).keys;
            && (Live(s, j) ==> (Live(t, j) <==> !Disposes(s, e, j, maxRetries)))
            && (Live(s, j) && Live(t, j) ==> t.payload[j] == s.payload[j])
            && (!Live(s, j) ==> (Live(t, j) <==> e.Submit? && e.job == j))
  {
    var s := w.keys;
    match e
    case Claim(_, _, target) =>
      if j in s.queue && target.Some? && target.value != j && Ahead(s.queue, j, target.value) {
        assert Eligible(s, j) ==> Ahead(s.queue, target.value, j);
      }
    case _ =>
  }

  /** The same along a run. */
  lemma RunAndJob(ws: seq<World>, es: seq<Event>, maxRetries: nat, k: nat, j: JobId)
    requires IsRun(ws, es, maxRetries) && k < |es|
    ensures KeysOk(ws[k].keys) && KeysOk(ws[k + 1].keys)
    ensures var s, t := ws[k].keys, ws[k + 1].keys;
            && (Live(s, j) ==> (Live(t, j) <==> !Disposes(s, es[k], j, maxRetries)))
            && (Live(s, j) && Live(t, j) ==> t.payload[j] == s.payload[j])
            && (!Live(s, j) ==> (Live(t, j) <==> es[k].Submit? && es[k].job == j))
            && (es[k].Submit? && es[k].job == j ==> j !in ws[k].born && t.payload[j] == es[k].body)
    ensures j in ws[k].born ==> j in ws[k + 1].born
    ensures j in ws[k + 1].born && j !in ws[k].born ==> es[k].Submit? && es[k].job == j
  {
    RunKeepsInv(ws, es, maxRetries, k);
    RunKeepsInv(ws, es, maxRetries, k + 1);
    StepAndJob(ws[k], es[k], maxRetries, j);
  }

  lemma {:induction false} GoneForever(ws: seq<World>, es: seq<Event>, maxRetries: nat, i: nat, n: nat, j: JobId)
    requires IsRun(ws, es, maxRetries) && i <= n <= |es|
    requires j in ws[i].born && !Live(ws[i].keys, j)
    ensures j in ws[n].born && !Live(ws[n].keys, j)
  {
    if i < n {
      GoneForever(ws, es, maxRetries, i, n - 1, j);
      RunAndJob(ws, es, maxRetries, n - 1, j);
    }
  }

  /** A job submitted in the run, or live when it began, is live at the end or was disposed of on the
      way; if by a fallback claim, then because it was cancelled or its record had been terminal. */
  lemma {:induction false} NoJobLost(ws: seq<World>, es: seq<Event>, maxRetries: nat, n: nat, j: JobId) returns (k: nat)
    requires IsRun(ws, es, maxRetries) && n <= |es|
    requires j in ws[n].born && (j in ws[0].born ==> Live(ws[0].keys, j))
    ensures Live(ws[n].keys, j) || (k < n && Disposes(ws[k].keys, es[k], j, maxRetries))
    ensures !Live(ws[n].keys, j) && es[k].FallbackClaim? ==> j in ws[k].keys.cancelled || j in ws[k].finished
  {
    k := 0;
    if n > 0 {
      RunAndJob(ws, es, maxRetries, n - 1, j);
      if j in ws[n - 1].born {
        k := NoJobLost(ws, es, maxRetries, n - 1, j);
        if Live(ws[n - 1].keys, j) { k := n - 1; }
      }
    }
  }

  /** A job noted as finished had a terminal record in an earlier state of the run, or before it began. */
  lemma {:induction false} FinishedWasTerminal(ws: seq<World>, es: seq<Event>, maxRetries: nat, n: nat, j: JobId) returns (k: nat)
    requires IsRun(ws, es, maxRetries) && n <= |es| && j in ws[n].finished && j !in ws[0].finished
    ensures k <= n && j in ws[k].keys.status && Terminal(ws[k].keys.status[j])
  {
    if j in ws[n - 1].finished {
      k := FinishedWasTerminal(ws, es, maxRetries, n - 1, j);
    } else {
      k := n;
    }
  }

  /** After it has been finished or has run out of retries, a job is never queued or active again. */
  lemma DisposedIsGone(ws: seq<World>, es: seq<Event>, maxRetries: nat, k: nat, n: nat, j: JobId)
    requires IsRun(ws, es, maxRetries) && k < n <= |es|
    requires Live(ws[k].keys, j) && Disposes(ws[k].keys, es[k], j, maxRetries)
    ensures !Live(ws[n].keys, j)
  {
    RunKeepsInv(ws, es, maxRetries, k);
    RunAndJob(ws, es, maxRetries, k, j);
    GoneForever(ws, es, maxRetries, k + 1, n, j);
  }

  /** While a job is live, its payload is the one it was submitted with. */
  lemma {:induction false} PayloadKept(ws: seq<World>, es: seq<Event>, maxRetries: nat, k: nat, n: nat)
    requires IsRun(ws, es, maxRetries) && k < n <= |es|
    requires es[k].Submit? && Live(ws[n].keys, es[k].job)
    ensures es[k].job in ws[n].born
    ensures es[k].job in ws[n].keys.payload && ws[n].keys.payload[es[k].job] == es[k].body
  {
    var j := es[k].job;
    RunAndJob(ws, es, maxRetries, k, j);
    if k + 1 < n {
      RunAndJob(ws, es, maxRetries, n - 1, j);
      BornStays(ws, es, maxRetries, k + 1, n - 1);
      PayloadKept(ws, es, maxRetries, k, n - 1);
    }
  }

  lemma {:induction false} BornStays(ws: seq<World>, es: seq<Event>, maxRetries: nat, i: nat, n: nat)
    requires IsRun(ws, es, maxRetries) && i <= n <= |es|
    ensures ws[i].born <= ws[n].born && ws[i].granted <= ws[n].granted
    ensures ws[i].keys.cancelled <= ws[n].keys.cancelled
  {
    if i < n { BornStays(ws, es, maxRetries, i, n - 1); }
  }

  // ----- A lost lease stays lost -----

  /** Leases are only granted to fresh owners. */
  lemma StepAndOwner(w: World, e: Event, maxRetries: nat, j: JobId, owner: Owner)
    requires Inv(w, maxRetries) && Enabled(w, e) && owner in w.granted && !Owns(w.keys, j, owner)
    ensures !Owns(After(w, e, maxRetries).keys, j, owner)
  {
  }

  /** Once an owner that was granted a lease does not own the job, it never owns it again, and each
      of its renewals, finishes and requeues fails and changes nothing. */
  lemma {:induction false} LostLeaseStaysLost(ws: seq<World>, es: seq<Event>, maxRetries: nat, i: nat, n: nat,
                                                 j: JobId, owner: Owner, score: real, now: real)
    requires IsRun(ws, es, maxRetries) && i <= n <= |es|
    requires owner in ws[i].granted && !Owns(ws[i].keys, j, owner)
    ensures !Owns(ws[n].keys, j, owner)
    ensures Renewed(ws[n].keys, j, owner, score) == ws[n].keys && !Renews(ws[n].keys, j, owner)
    ensures Finished(ws[n].keys, j, owner) == ws[n].keys
    ensures Requeued(ws[n].keys, j, owner, now) == ws[n].keys
  {
    RunKeepsInv(ws, es, maxRetries, i);
    if i < n {
      LostLeaseStaysLost(ws, es, maxRetries, i, n - 1, j, owner, score, now);
      RunKeepsInv(ws, es, maxRetries, n - 1);
      BornStays(ws, es, maxRetries, i, n - 1);
      StepAndOwner(ws[n - 1], es[n - 1], maxRetries, j, owner);
    }
  }

  // ----- Bounded recovery -----

  /** How often recovery put the job back in the queue during the first `n` steps. */
  function Retries(ws: seq<World>, es: seq<Event>, maxRetries: nat, n: nat, j: JobId): nat
    requires n <= |es| <= |ws|
  {
    if n == 0 then 0
    else
      var e := es[n - 1];
      Retries(ws, es, maxRetries, n - 1, j) +
      if e.Recover? && e.job == j && RecoveryOf(ws[n - 1].keys, j, e.now, maxRetries) == ToQueue then 1 else 0
  }

  /** A step that leaves a job live changes its attempts counter only by recovering it. */
  lemma StepAndAttempts(w: World, e: Event, maxRetries: nat, j: JobId)
    requires Inv(w, maxRetries) && Enabled(w, e)
    requires Live(After(w, e, maxRetries).keys, j)
    ensures AttemptsOf(After(w, e, maxRetries).keys, j) ==
            AttemptsOf(w.keys, j) +
            if e.Recover? && e.job == j && RecoveryOf(w.keys, j, e.now, maxRetries) == ToQueue then 1 else 0
    ensures AttemptsOf(After(w, e, maxRetries).keys, j) <= maxRetries
  {
    StepKeepsInv(w, e, maxRetries);
  }

  /** From its submission on, a live job's counter is the number of its recoveries. */
  lemma {:induction false} CounterCounts(ws: seq<World>, es: seq<Event>, maxRetries: nat, n: nat, j: JobId)
    requires IsRun(ws, es, maxRetries) && n <= |es| && j !in ws[0].born
    ensures Live(ws[n].keys, j) ==> Retries(ws, es, maxRetries, n, j) == AttemptsOf(ws[n].keys, j)
    ensures j !in ws[n].born ==> Retries(ws, es, maxRetries, n, j) == 0 && j !in ws[n].keys.attempts
  {
    RunKeepsInv(ws, es, maxRetries, n);
    if n > 0 {
      CounterCounts(ws, es, maxRetries, n - 1, j);
      RunKeepsInv(ws, es, maxRetries, n - 1);
      StepAndJob(ws[n - 1], es[n - 1], maxRetries, j);
      if Live(ws[n].keys, j) {
        StepAndAttempts(ws[n - 1], es[n - 1], maxRetries, j);
      }
    }
  }

  /** Recovery requeues any one job at most `maxRetries` times in any run. */
  lemma {:induction false} RetriesBounded(ws: seq<World>, es: seq<Event>, maxRetries: nat, n: nat, j: JobId)
    requires IsRun(ws, es, maxRetries) && n <= |es| && j !in ws[0].born
    ensures Retries(ws, es, maxRetries, n, j) <= maxRetries
  {
    if n > 0 {
      RetriesBounded(ws, es, maxRetries, n - 1, j);
      RunKeepsInv(ws, es, maxRetries, n);
      CounterCounts(ws, es, maxRetries, n, j);
      var e := es[n - 1];
      if e.Recover? && e.job == j && RecoveryOf(ws[n - 1].keys, j, e.now, maxRetries) == ToQueue {
        assert Live(ws[n].keys, j);
      }
    }
  }

  // ----- Cancelled jobs are never handed out -----

  /** After a cancel has committed, no later step of the run hands the job out, whatever recovery
      or requeueing put back in the queue, and whatever its record says. */
  lemma CancelledNeverHandedOut(ws: seq<World>, es: seq<Event>, maxRetries: nat, k: nat, n: nat, j: JobId)
    requires IsRun(ws, es, maxRetries) && k < n < |es|
    requires es[k] == Cancel(j)
    ensures HandsOut(ws[n].keys, es[n]) != Some(j)
  {
    BornStays(ws, es, maxRetries, k + 1, n);
    assert j in ws[k + 1].keys.cancelled;
  }

  // ----- First in, first out -----

  /** A job that stays queued keeps its score. */
  lemma StepKeepsScore(w: World, e: Event, maxRetries: nat, j: JobId)
    requires Inv(w, maxRetries) && Enabled(w, e) && j in w.keys.queue && j in After(w, e, maxRetries).keys.queue
    ensures After(w, e, maxRetries).keys.queue[j] == w.keys.queue[j]
  {
  }

  /** A job becomes active only by being handed out. */
  lemma ActiveMeansHandedOut(w: World, e: Event, maxRetries: nat, j: JobId)
    requires Inv(w, maxRetries) && Enabled(w, e) && j !in w.keys.active && HandsOut(w.keys, e) != Some(j)
    ensures j !in After(w, e, maxRetries).keys.active
  {
  }

  /** Until it is handed out, a job waits with the time of its submission as its score. */
  lemma {:induction false} WaitsAtItsTime(ws: seq<World>, es: seq<Event>, maxRetries: nat, k: nat, n: nat)
    requires IsRun(ws, es, maxRetries) && k < n <= |es| && es[k].Submit?
    requires forall i :: k < i < n ==> HandsOut(ws[i].keys, es[i]) != Some(es[k].job)
    ensures es[k].job !in ws[n].keys.active
    ensures es[k].job in ws[n].keys.queue ==> ws[n].keys.queue[es[k].job] == es[k].now
  {
    var j := es[k].job;
    RunKeepsInv(ws, es, maxRetries, n - 1);
    if k < n - 1 {
      WaitsAtItsTime(ws, es, maxRetries, k, n - 1);
      BornStays(ws, es, maxRetries, k + 1, n - 1);
      ActiveMeansHandedOut(ws[n - 1], es[n - 1], maxRetries, j);
      if j in ws[n].keys.queue {
        StepAndJob(ws[n - 1], es[n - 1], maxRetries, j);
        StepKeepsScore(ws[n - 1], es[n - 1], maxRetries, j);
      }
    }
  }

  /** Of two jobs not handed out before, a step hands out the one submitted later only if the earlier one is no longer
      queued, was cancelled, or has a record that says it is finished. */
  lemma FirstInFirstOut(ws: seq<World>, es: seq<Event>, maxRetries: nat, a: nat, b: nat, n: nat)
    requires IsRun(ws, es, maxRetries) && a < n < |es| && b < n && es[a].Submit? && es[b].Submit? && es[a].now < es[b].now
    requires forall i :: a < i < n ==> HandsOut(ws[i].keys, es[i]) != Some(es[a].job)
    requires forall i :: b < i < n ==> HandsOut(ws[i].keys, es[i]) != Some(es[b].job)
    requires HandsOut(ws[n].keys, es[n]) == Some(es[b].job)
    ensures var s, i := ws[n].keys, es[a].job;
            || i !in s.queue || i in s.cancelled
            || (i in s.status && (s.status[i] == Complete || s.status[i] == Error || s.status[i] == Cancelled))
  {
    WaitsAtItsTime(ws, es, maxRetries, a, n);
    WaitsAtItsTime(ws, es, maxRetries, b, n);
    var s, i, j := ws[n].keys, es[a].job, es[b].job;
    assert i in s.queue && Eligible(s, i) ==> Ahead(s.queue, j, i);
  }
}
