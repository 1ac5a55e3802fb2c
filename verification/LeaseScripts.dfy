/** The key space of the Redis job queue, the effect of each atomic script on it, and the
    scripts themselves over mutable keys. */
module LeaseScripts {
  import opened JobRecords
  import opened Options

  /** Job ids are 32 hexadecimal digits, so Redis's byte order on them is the order of the numbers they write. */
  type JobId = nat
  type Owner = string

  /** Sorted sets are maps to scores; a missing key is a missing entry. */
  datatype Keys = Keys(
    queue: map<JobId, real>,
    active: map<JobId, real>,
    lease: map<JobId, Owner>,
    payload: map<JobId, string>,
    attempts: map<JobId, nat>,
    cancelled: set<JobId>,
    status: map<JobId, Status>)

  const NoKeys := Keys(map[], map[], map[], map[], map[], {}, map[])

  // ----- Claim -----

  /** Lower score first, then the smaller id. */
  predicate Ahead(q: map<JobId, real>, a: JobId, b: JobId)
    requires a in q && b in q
  {
    q[a] < q[b] || (q[a] == q[b] && a <= b)
  }

  /** Neither cancelled nor recorded as finished. */
  predicate Eligible(s: Keys, j: JobId) {
    j !in s.cancelled && !(j in s.status && Terminal(s.status[j]))
  }

  /** The job a claim must hand out: the first eligible one in the queue, or none when there is none. */
  ghost predicate IsNext(s: Keys, target: Option<JobId>) {
    match target
    case None => forall k :: k in s.queue ==> !Eligible(s, k)
    case Some(j) => j in s.queue && Eligible(s, j) && forall k :: k in s.queue && Eligible(s, k) ==> Ahead(s.queue, j, k)
  }

  /** What a claim purges: the queued jobs ahead of the one it hands out. */
  function Purged(s: Keys, target: Option<JobId>): set<JobId>
    requires target.Some? ==> target.value in s.queue
  {
    set k | k in s.queue && (target.None? || (k != target.value && Ahead(s.queue, k, target.value)))
  }

  function Claimed(s: Keys, owner: Owner, score: real, target: Option<JobId>): Keys
    requires target.Some? ==> target.value in s.queue
  {
    var purged := Purged(s, target);
    match target
    case None => s.(queue := map[], payload := s.payload - purged)
    case Some(j) =>
      s.(queue := s.queue - purged - {j},
         payload := s.payload - purged,
         active := s.active[j := score],
         lease := if owner != "" then s.lease[j := owner] else s.lease - {j})
  }

  // ----- Renew, finish, requeue -----

  predicate Owns(s: Keys, j: JobId, owner: Owner) {
    j in s.lease && s.lease[j] == owner
  }

  predicate Renews(s: Keys, j: JobId, owner: Owner) {
    Owns(s, j, owner) && j in s.active
  }

  function Renewed(s: Keys, j: JobId, owner: Owner, score: real): Keys {
    if Renews(s, j, owner) then s.(active := s.active[j := score]) else s
  }

  function Finished(s: Keys, j: JobId, owner: Owner): Keys {
    if !Owns(s, j, owner) then s
    else s.(active := s.active - {j}, lease := s.lease - {j}, payload := s.payload - {j}, attempts := s.attempts - {j})
  }

  /** Without an owner anyone may requeue. */
  predicate Requeues(s: Keys, j: JobId, owner: Owner) {
    owner == "" || Owns(s, j, owner)
  }

  function Requeued(s: Keys, j: JobId, owner: Owner, now: real): Keys {
    if !Requeues(s, j, owner) then s
    else s.(active := s.active - {j}, queue := s.queue[j := now], lease := s.lease - {j})
  }

  // ----- Recover -----

  datatype Recovery = Untouched | ToQueue | Exhausted

  function AttemptsOf(s: Keys, j: JobId): nat {
    if j in s.attempts then s.attempts[j] else 0
  }

  predicate Expired(s: Keys, j: JobId, now: real) {
    j in s.active && s.active[j] <= now
  }

  function RecoveryOf(s: Keys, j: JobId, now: real, maxRetries: nat): Recovery {
    if !Expired(s, j, now) then Untouched
    else if AttemptsOf(s, j) + 1 > maxRetries then Exhausted
    else ToQueue
  }

  function Recovered(s: Keys, j: JobId, now: real, maxRetries: nat): Keys {
    match RecoveryOf(s, j, now, maxRetries)
    case Untouched => s
    case Exhausted =>
      s.(active := s.active - {j}, lease := s.lease - {j}, payload := s.payload - {j}, attempts := s.attempts - {j})
    case ToQueue =>
      s.(active := s.active - {j}, lease := s.lease - {j},
         attempts := s.attempts[j := AttemptsOf(s, j) + 1], queue := s.queue[j := now])
  }

  // ----- Submit and cancel -----

  function Submitted(s: Keys, j: JobId, now: real, payload: string): Keys {
    s.(payload := s.payload[j := payload], queue := s.queue[j := now])
  }

  function CancelCommitted(s: Keys, j: JobId): Keys {
    s.(cancelled := s.cancelled + {j}, queue := s.queue - {j})
  }

  /** The sweep over expired jobs, as one effect. */
  function ExpiredJobs(s: Keys, now: real): set<JobId> {
    set j | j in s.active && Expired(s, j, now)
  }

  function ExhaustedJobs(s: Keys, todo: set<JobId>, maxRetries: nat): set<JobId> {
    set j | j in todo && AttemptsOf(s, j) + 1 > maxRetries
  }

  function RetriedAttempts(s: Keys, retried: set<JobId>): map<JobId, nat> {
    map j | j in retried :: AttemptsOf(s, j) + 1
  }

  function RetriedScores(retried: set<JobId>, now: real): map<JobId, real> {
    map j | j in retried :: now
  }

  function RecoveredAll(s: Keys, todo: set<JobId>, now: real, maxRetries: nat): Keys {
    var failed := ExhaustedJobs(s, todo, maxRetries);
    var retried := todo - failed;
    s.(active := s.active - todo, lease := s.lease - todo, payload := s.payload - failed,
       attempts := (s.attempts - failed) + RetriedAttempts(s, retried),
       queue := s.queue + RetriedScores(retried, now))
  }

  // ----- The head of the queue -----

  ghost predicate IsHead(q: map<JobId, real>, j: JobId) {
    j in q && forall k :: k in q ==> Ahead(q, j, k)
  }

  lemma {:induction false} HeadExists(q: map<JobId, real>) returns (j: JobId)
    requires q != map[]
    ensures IsHead(q, j)
    decreases |q|
  {
    var k :| k in q;
    var rest := q - {k};
    if rest == map[] {
      forall l | l in q
        ensures l == k
      {
        assert l == k || l in rest;
      }
      j := k;
    } else {
      assert rest.Keys == q.Keys - {k} && |rest.Keys| < |q.Keys|;
      var h := HeadExists(rest);
      j := if Ahead(q, h, k) then h else k;
      forall l | l in q
        ensures Ahead(q, j, l)
      {
        assert l != k ==> l in rest && Ahead(rest, h, l);
      }
    }
  }

  /** The claim's answer is determined: two first eligible jobs are the same job. */
  lemma NextIsUnique(s: Keys, a: Option<JobId>, b: Option<JobId>)
    requires IsNext(s, a) && IsNext(s, b)
    ensures a == b
  {
    if a.Some? && b.Some? {
      assert Ahead(s.queue, a.value, b.value) && Ahead(s.queue, b.value, a.value);
    }
  }

  function HeadPurged(s: Keys, h: JobId): Keys {
    s.(queue := s.queue - {h}, payload := s.payload - {h})
  }

  function HeadActivated(s: Keys, h: JobId, owner: Owner, score: real): Keys {
    s.(queue := s.queue - {h}, active := s.active[h := score],
       lease := if owner != "" then s.lease[h := owner] else s.lease - {h})
  }

  /** Purging an ineligible head and then claiming is claiming. */
  lemma PurgeThenClaim(s: Keys, h: JobId, owner: Owner, score: real, target: Option<JobId>)
    requires IsHead(s.queue, h) && !Eligible(s, h)
    requires IsNext(HeadPurged(s, h), target)
    ensures IsNext(s, target)
    ensures Claimed(HeadPurged(s, h), owner, score, target) == Claimed(s, owner, score, target)
  {
    var t := HeadPurged(s, h);
    assert forall k :: k in s.queue ==> k == h || k in t.queue;
    assert forall k :: Eligible(t, k) == Eligible(s, k);
    assert forall a, b :: a in t.queue && b in t.queue ==> Ahead(t.queue, a, b) == Ahead(s.queue, a, b);
    assert Purged(s, target) == Purged(t, target) + {h};
    assert t.payload - Purged(t, target) == s.payload - Purged(s, target);
    if target.Some? {
      assert t.queue - Purged(t, target) - {target.value} == s.queue - Purged(s, target) - {target.value};
    }
  }

  /** A claim from `here` answers as one from `start` and leaves the same keys. */
  ghost predicate ClaimsAlike(here: Keys, start: Keys, owner: Owner, score: real) {
    forall target :: IsNext(here, target) ==>
      IsNext(start, target) && Claimed(here, owner, score, target) == Claimed(start, owner, score, target)
  }

  lemma PurgeStep(here: Keys, start: Keys, h: JobId, owner: Owner, score: real)
    requires ClaimsAlike(here, start, owner, score) && IsHead(here.queue, h) && !Eligible(here, h)
    ensures ClaimsAlike(HeadPurged(here, h), start, owner, score)
  {
    var next := HeadPurged(here, h);
    forall target | IsNext(next, target)
      ensures IsNext(start, target) && Claimed(next, owner, score, target) == Claimed(start, owner, score, target)
    {
      PurgeThenClaim(here, h, owner, score, target);
      assert IsNext(here, target);
    }
  }

  lemma HandOut(here: Keys, start: Keys, h: JobId, owner: Owner, score: real)
    requires ClaimsAlike(here, start, owner, score) && IsHead(here.queue, h) && Eligible(here, h)
    ensures IsNext(start, Some(h))
    ensures Claimed(start, owner, score, Some(h)) == HeadActivated(here, h, owner, score)
  {
    assert IsNext(here, Some(h));
    assert Purged(here, Some(h)) == {};
    assert here.queue - {} == here.queue && here.payload - {} == here.payload;
  }

  lemma NothingLeft(here: Keys, start: Keys, owner: Owner, score: real)
    requires ClaimsAlike(here, start, owner, score) && here.queue == map[]
    ensures IsNext(start, None) && Claimed(start, owner, score, None) == here
  {
    assert IsNext(here, None);
    assert Purged(here, None) == {};
    assert here.payload - {} == here.payload;
  }

  /** What the answer of a claim means. */
  lemma NextMeans(s: Keys, job: Option<JobId>)
    requires IsNext(s, job)
    ensures job.Some? ==>
              && job.value in s.queue && job.value !in s.cancelled
              && (job.value in s.status ==>
                    s.status[job.value] != Complete && s.status[job.value] != Error && s.status[job.value] != Cancelled)
              && (forall k :: k in s.queue && k != job.value && k !in s.cancelled
                              && (k in s.status ==> s.status[k] != Complete && s.status[k] != Error && s.status[k] != Cancelled) ==>
                    s.queue[job.value] < s.queue[k] || (s.queue[job.value] == s.queue[k] && job.value < k))
    ensures job.None? ==> forall k :: k in s.queue ==>
              k in s.cancelled || (k in s.status && (s.status[k] == Complete || s.status[k] == Error || s.status[k] == Cancelled))
  {
    assert forall k :: k in s.queue ==>
      (Eligible(s, k) <==> k !in s.cancelled && (k in s.status ==> s.status[k] != Complete && s.status[k] != Error && s.status[k] != Cancelled));
  }

  /** What a claim leaves. */
  lemma ClaimedMeans(s: Keys, owner: Owner, score: real, job: Option<JobId>)
    requires IsNext(s, job)
    ensures var t := Claimed(s, owner, score, job);
            && t.cancelled == s.cancelled && t.status == s.status && t.attempts == s.attempts
            && t.active == (if job.Some? then s.active[job.value := score] else s.active)
            && t.lease == (if job.None? then s.lease else if owner != "" then s.lease[job.value := owner] else s.lease - {job.value})
            && (forall k :: k in t.queue <==>
                  && k in s.queue && job.Some?
                  && (s.queue[job.value] < s.queue[k] || (s.queue[job.value] == s.queue[k] && job.value < k)))
            && (forall k :: k in t.queue ==> t.queue[k] == s.queue[k])
            && (forall k :: k in t.payload <==> k in s.payload && (k in s.queue ==> k in t.queue || job == Some(k)))
            && (forall k :: k in t.payload ==> t.payload[k] == s.payload[k])
  {
  }

  // ----- The scripts over mutable keys -----

  class RedisKeys {
    var queue: map<JobId, real>
    var active: map<JobId, real>
    var lease: map<JobId, Owner>
    var payload: map<JobId, string>
    var attempts: map<JobId, nat>
    var cancelled: set<JobId>
    var status: map<JobId, Status>

    function View(): Keys
      reads this
    {
      Keys(queue, active, lease, payload, attempts, cancelled, status)
    }

    constructor ()
      ensures View() == NoKeys
    {
      queue, active, lease, payload, attempts, cancelled, status := map[], map[], map[], map[], map[], {}, map[];
    }

    method HeadOfQueue() returns (h: JobId)
      requires queue != map[]
      ensures IsHead(queue, h)
    {
      ghost var _ := HeadExists(queue);
      h :| h in queue && forall k :: k in queue ==> Ahead(queue, h, k);
    }

    method Purge(h: JobId)
      modifies this
      ensures View() == HeadPurged(old(View()), h)
    {
      queue := queue - {h};
      payload := payload - {h};
    }

    method Activate(h: JobId, leaseOwner: Owner, activeScore: real)
      modifies this
      ensures View() == HeadActivated(old(View()), h, leaseOwner, activeScore)
    {
      queue := queue - {h};
      active := active[h := activeScore];
      if leaseOwner != "" {
        lease := lease[h := leaseOwner];
      } else {
        lease := lease - {h};
      }
    }

    /** Inspect the head, purge it if it is cancelled or finished, hand it out otherwise. The loop
        ends, and the job handed out is the first eligible one; only ineligible jobs are purged. */
    method ClaimScript(leaseOwner: Owner, activeScore: real) returns (job: Option<JobId>)
      modifies this
      ensures IsNext(old(View()), job)
      ensures View() == Claimed(old(View()), leaseOwner, activeScore, job)
      ensures job.Some? ==>
                && job.value in old(queue) && job.value !in old(cancelled)
                && (job.value in old(status) ==>
                      old(status)[job.value] != Complete && old(status)[job.value] != Error && old(status)[job.value] != Cancelled)
                && (forall k :: k in old(queue) && k != job.value && k !in old(cancelled)
                                && (k in old(status) ==>
                                      old(status)[k] != Complete && old(status)[k] != Error && old(status)[k] != Cancelled) ==>
                      || old(queue)[job.value] < old(queue)[k]
                      || (old(queue)[job.value] == old(queue)[k] && job.value < k))
      ensures job.None? ==> forall k :: k in old(queue) ==>
                || k in old(cancelled)
                || (k in old(status) && (old(status)[k] == Complete || old(status)[k] == Error || old(status)[k] == Cancelled))
      ensures cancelled == old(cancelled) && status == old(status) && attempts == old(attempts)
      ensures active == if job.Some? then old(active)[job.value := activeScore] else old(active)
      ensures lease == if job.None? then old(lease)
                       else if leaseOwner != "" then old(lease)[job.value := leaseOwner] else old(lease) - {job.value}
      ensures forall k :: k in queue <==>
                && k in old(queue) && job.Some?
                && (old(queue)[job.value] < old(queue)[k] || (old(queue)[job.value] == old(queue)[k] && job.value < k))
      ensures forall k :: k in queue ==> queue[k] == old(queue)[k]
      ensures forall k :: k in payload <==> k in old(payload) && (k in old(queue) ==> k in queue || job == Some(k))
      ensures forall k :: k in payload ==> payload[k] == old(payload)[k]
    {
      job := Claim(leaseOwner, activeScore);
      NextMeans(old(View()), job);
      ClaimedMeans(old(View()), leaseOwner, activeScore, job);
    }

    /** The loop of the script. */
    method Claim(leaseOwner: Owner, activeScore: real) returns (job: Option<JobId>)
      modifies this
      ensures IsNext(old(View()), job)
      ensures View() == Claimed(old(View()), leaseOwner, activeScore, job)
    {
      while queue != map[]
        invariant ClaimsAlike(View(), old(View()), leaseOwner, activeScore)
        decreases |queue.Keys|
      {
        var h := HeadOfQueue();
        if h in cancelled || (h in status && Terminal(status[h])) {
          PurgeStep(View(), old(View()), h, leaseOwner, activeScore);
          assert (queue - {h}).Keys == queue.Keys - {h};
          Purge(h);
        } else {
          HandOut(View(), old(View()), h, leaseOwner, activeScore);
          Activate(h, leaseOwner, activeScore);
          return Some(h);
        }
      }
      NothingLeft(View(), old(View()), leaseOwner, activeScore);
      return None;
    }

    method RenewScript(job: JobId, owner: Owner, activeScore: real) returns (ok: bool)
      modifies this
      ensures View() == Renewed(old(View()), job, owner, activeScore)
      ensures ok == Renews(old(View()), job, owner)
      ensures ok <==> job in old(lease) && old(lease)[job] == owner && job in old(active)
      ensures active == if ok then old(active)[job := activeScore] else old(active)
      ensures queue == old(queue) && lease == old(lease) && payload == old(payload) && attempts == old(attempts)
      ensures cancelled == old(cancelled) && status == old(status)
    {
      if !(job in lease && lease[job] == owner) {
        return false;
      }
      if job !in active {
        return false;
      }
      active := active[job := activeScore];
      return true;
    }

    method FinishScript(job: JobId, owner: Owner) returns (ok: bool)
      modifies this
      ensures View() == Finished(old(View()), job, owner)
      ensures ok == Owns(old(View()), job, owner)
      ensures ok <==> job in old(lease) && old(lease)[job] == owner
      ensures active == (if ok then old(active) - {job} else old(active)) && lease == if ok then old(lease) - {job} else old(lease)
      ensures payload == (if ok then old(payload) - {job} else old(payload))
      ensures attempts == (if ok then old(attempts) - {job} else old(attempts))
      ensures queue == old(queue) && cancelled == old(cancelled) && status == old(status)
    {
      if !(job in lease && lease[job] == owner) {
        return false;
      }
      active := active - {job};
      lease := lease - {job};
      payload := payload - {job};
      attempts := attempts - {job};
      return true;
    }

    method RequeueScript(job: JobId, owner: Owner, now: real) returns (ok: bool)
      modifies this
      ensures View() == Requeued(old(View()), job, owner, now)
      ensures ok == Requeues(old(View()), job, owner)
      ensures ok <==> owner == "" || (job in old(lease) && old(lease)[job] == owner)
      ensures active == (if ok then old(active) - {job} else old(active)) && lease == if ok then old(lease) - {job} else old(lease)
      ensures queue == if ok then old(queue)[job := now] else old(queue)
      ensures payload == old(payload) && attempts == old(attempts) && cancelled == old(cancelled) && status == old(status)
    {
      if owner != "" {
        if !(job in lease && lease[job] == owner) {
          return false;
        }
      }
      active := active - {job};
      queue := queue[job := now];
      lease := lease - {job};
      return true;
    }

    method RecoverScript(job: JobId, now: real, maxRetries: nat) returns (outcome: Recovery)
      modifies this
      ensures View() == Recovered(old(View()), job, now, maxRetries)
      ensures outcome == RecoveryOf(old(View()), job, now, maxRetries)
      ensures outcome == Untouched <==> !(job in old(active) && old(active)[job] <= now)
      ensures outcome == ToQueue <==>
                job in old(active) && old(active)[job] <= now && (if job in old(attempts) then old(attempts)[job] else 0) < maxRetries
      ensures active == (if outcome.Untouched? then old(active) else old(active) - {job})
      ensures lease == (if outcome.Untouched? then old(lease) else old(lease) - {job})
      ensures queue == if outcome.ToQueue? then old(queue)[job := now] else old(queue)
      ensures payload == if outcome.Exhausted? then old(payload) - {job} else old(payload)
      ensures attempts == match outcome
                          case Untouched => old(attempts)
                          case ToQueue => old(attempts)[job := (if job in old(attempts) then old(attempts)[job] else 0) + 1]
                          case Exhausted => old(attempts) - {job}
      ensures cancelled == old(cancelled) && status == old(status)
    {
      if job !in active || active[job] > now {
        return Untouched;
      }
      active := active - {job};
      lease := lease - {job};
      var count := (if job in attempts then attempts[job] else 0) + 1;
      if count > maxRetries {
        payload := payload - {job};
        attempts := attempts - {job};
        return Exhausted;
      }
      attempts := attempts[job := count];
      queue := queue[job := now];
      return ToQueue;
    }

    /** Recover every expired job, one script at a time. */
    method RecoverStaleJobs(now: real, maxRetries: nat)
      modifies this
      ensures View() == RecoveredAll(old(View()), ExpiredJobs(old(View()), now), now, maxRetries)
    {
      var expired := set j | j in active && active[j] <= now;
      ghost var start := View();
      assert expired == ExpiredJobs(start, now);
      RecoverNone(start, now, maxRetries);
      RecoverEach(expired, now, maxRetries, start, done => RecoveredAll(start, done, now, maxRetries));
    }

    method RecoverEach(expired: set<JobId>, now: real, maxRetries: nat, ghost start: Keys, ghost after: set<JobId> -> Keys)
      requires AfterIs(after, start, now, maxRetries) && View() == after({})
      requires forall j :: j in expired ==> Expired(start, j, now)
      modifies this
      ensures View() == after(expired)
    {
      var todo := expired;
      ghost var done: set<JobId> := {};
      while todo != {}
        invariant done + todo == expired && done !! todo
        invariant View() == after(done)
        decreases todo
      {
        var j :| j in todo;
        RecoverOneMore(start, done, j, now, maxRetries, after);
        var outcome := RecoverScript(j, now, maxRetries);
        todo := todo - {j};
        done := done + {j};
      }
      assert done == expired;
    }

    method SubmitPipeline(job: JobId, now: real, body: string)
      modifies this
      ensures View() == Submitted(old(View()), job, now, body)
      ensures queue == old(queue)[job := now] && payload == old(payload)[job := body]
      ensures active == old(active) && lease == old(lease) && attempts == old(attempts)
      ensures cancelled == old(cancelled) && status == old(status)
    {
      payload := payload[job := body];
      queue := queue[job := now];
    }

    method CancelPipeline(job: JobId)
      modifies this
      ensures View() == CancelCommitted(old(View()), job)
      ensures cancelled == old(cancelled) + {job} && queue == old(queue) - {job}
      ensures active == old(active) && lease == old(lease) && payload == old(payload)
      ensures attempts == old(attempts) && status == old(status)
    {
      cancelled := cancelled + {job};
      queue := queue - {job};
    }
  }

  lemma RecoverNone(s: Keys, now: real, maxRetries: nat)
    ensures RecoveredAll(s, {}, now, maxRetries) == s
  {
    assert ExhaustedJobs(s, {}, maxRetries) == {};
    assert RetriedAttempts(s, {}) == map[] && RetriedScores({}, now) == map[];
    assert s.active - {} == s.active && s.lease - {} == s.lease && s.payload - {} == s.payload;
    assert s.attempts - {} == s.attempts;
  }

  lemma FailOneMore(s: Keys, done: set<JobId>, j: JobId, now: real, maxRetries: nat)
    requires j !in done && AttemptsOf(s, j) + 1 > maxRetries
    ensures var t := RecoveredAll(s, done, now, maxRetries);
            t.(active := t.active - {j}, lease := t.lease - {j}, payload := t.payload - {j}, attempts := t.attempts - {j})
            == RecoveredAll(s, done + {j}, now, maxRetries)
  {
    var t := RecoveredAll(s, done, now, maxRetries);
    var failed, failed' := ExhaustedJobs(s, done, maxRetries), ExhaustedJobs(s, done + {j}, maxRetries);
    assert failed' == failed + {j};
    assert (done + {j}) - failed' == done - failed;
    assert t.active - {j} == s.active - (done + {j}) && t.lease - {j} == s.lease - (done + {j});
    assert t.payload - {j} == s.payload - failed';
    assert t.attempts - {j} == (s.attempts - failed') + RetriedAttempts(s, done - failed);
  }

  lemma RetryOneMore(s: Keys, done: set<JobId>, j: JobId, now: real, maxRetries: nat)
    requires j !in done && AttemptsOf(s, j) + 1 <= maxRetries
    ensures var t := RecoveredAll(s, done, now, maxRetries);
            t.(active := t.active - {j}, lease := t.lease - {j},
               attempts := t.attempts[j := AttemptsOf(s, j) + 1], queue := t.queue[j := now])
            == RecoveredAll(s, done + {j}, now, maxRetries)
  {
    var t := RecoveredAll(s, done, now, maxRetries);
    var failed := ExhaustedJobs(s, done, maxRetries);
    assert ExhaustedJobs(s, done + {j}, maxRetries) == failed;
    var retried, retried' := done - failed, (done + {j}) - failed;
    assert retried' == retried + {j};
    assert t.active - {j} == s.active - (done + {j}) && t.lease - {j} == s.lease - (done + {j});
    RetriedGrows(s, s.attempts - failed, retried, j, now);
  }

  lemma RetriedGrows(s: Keys, kept: map<JobId, nat>, retried: set<JobId>, j: JobId, now: real)
    ensures kept + RetriedAttempts(s, retried + {j}) ==
            (kept + RetriedAttempts(s, retried))[j := AttemptsOf(s, j) + 1]
    ensures s.queue + RetriedScores(retried + {j}, now) == (s.queue + RetriedScores(retried, now))[j := now]
  {
    assert RetriedAttempts(s, retried + {j}) == RetriedAttempts(s, retried)[j := AttemptsOf(s, j) + 1];
    assert RetriedScores(retried + {j}, now) == RetriedScores(retried, now)[j := now];
    MergeUpdate(kept, RetriedAttempts(s, retried), j, AttemptsOf(s, j) + 1);
    MergeUpdate(s.queue, RetriedScores(retried, now), j, now);
  }

  lemma MergeUpdate<K, V>(m: map<K, V>, n: map<K, V>, k: K, v: V)
    ensures m + n[k := v] == (m + n)[k := v]
  {
  }

  lemma UntouchedYet(s: Keys, done: set<JobId>, j: JobId, now: real, maxRetries: nat)
    requires j !in done
    ensures var t := RecoveredAll(s, done, now, maxRetries);
            AttemptsOf(t, j) == AttemptsOf(s, j) && (Expired(t, j, now) <==> Expired(s, j, now))
  {
  }

  ghost predicate AfterIs(after: set<JobId> -> Keys, s: Keys, now: real, maxRetries: nat) {
    forall done {:trigger RecoveredAll(s, done, now, maxRetries)} :: after(done) == RecoveredAll(s, done, now, maxRetries)
  }

  lemma RecoverOneMore(s: Keys, done: set<JobId>, j: JobId, now: real, maxRetries: nat, after: set<JobId> -> Keys)
    requires AfterIs(after, s, now, maxRetries)
    requires j !in done && Expired(s, j, now)
    ensures Recovered(after(done), j, now, maxRetries) == after(done + {j})
  {
    assert after(done) == RecoveredAll(s, done, now, maxRetries);
    assert after(done + {j}) == RecoveredAll(s, done + {j}, now, maxRetries);
    UntouchedYet(s, done, j, now, maxRetries);
    if AttemptsOf(s, j) + 1 > maxRetries {
      FailOneMore(s, done, j, now, maxRetries);
    } else {
      RetryOneMore(s, done, j, now, maxRetries);
    }
  }
}
