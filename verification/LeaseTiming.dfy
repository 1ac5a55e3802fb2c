/** Time: exactly how long an owner keeps the lease it claimed and renews, in every run of the queue. */
module LeaseTiming {
  import opened LeaseRuns
  import opened LeaseScripts
  import opened Options

  // ----- Renewing in time keeps the job -----

  /** A step of the lease's owner on its job. */
  predicate OwnerActs(e: Event, j: JobId, owner: Owner) {
    (e.Renew? || e.Finish? || e.Requeue?) && e.job == j && e.owner == owner
  }

  /** Steps happen at non-decreasing times, and a recovery compares with a clock reading no later than its step. */
  predicate Timed(es: seq<Event>, ts: seq<real>) {
    && |ts| == |es|
    && (forall i, k :: 0 <= i <= k < |ts| ==> ts[i] <= ts[k])
    && (forall k :: 0 <= k < |es| && es[k].Recover? ==> es[k].now <= ts[k])
  }

  /** From step `k` on, each act of the owner comes before the deadline set by the one before it,
      and all but the last step, which is the owner's, are renewals when they are the owner's. */
  predicate OnTime(es: seq<Event>, ts: seq<real>, j: JobId, owner: Owner, k: nat, deadline: real)
    requires |ts| == |es| && k <= |es|
    decreases |es| - k
  {
    if k == |es| then false
    else if k == |es| - 1 then OwnerActs(es[k], j, owner) && ts[k] < deadline
    else if OwnerActs(es[k], j, owner) then
      es[k].Renew? && ts[k] < deadline && OnTime(es, ts, j, owner, k + 1, es[k].score)
    else OnTime(es, ts, j, owner, k + 1, deadline)
  }

  /** The owner's next act, and so every step until then, comes before the deadline. */
  lemma {:induction false} BeforeDeadline(es: seq<Event>, ts: seq<real>, j: JobId, owner: Owner, k: nat, deadline: real)
    requires Timed(es, ts) && k < |es| && OnTime(es, ts, j, owner, k, deadline)
    ensures ts[k] < deadline
    decreases |es| - k
  {
    if k < |es| - 1 && !OwnerActs(es[k], j, owner) {
      BeforeDeadline(es, ts, j, owner, k + 1, deadline);
    }
  }

  predicate Holds(s: Keys, j: JobId, owner: Owner, deadline: real) {
    Owns(s, j, owner) && j in s.active && s.active[j] == deadline
  }

  /** A step that is not the owner's and comes before the deadline takes nothing away. */
  lemma OthersCannotTake(w: World, e: Event, maxRetries: nat, j: JobId, owner: Owner, deadline: real)
    requires Inv(w, maxRetries) && Enabled(w, e) && Holds(w.keys, j, owner, deadline)
    requires !OwnerActs(e, j, owner) && (e.Recover? ==> e.now < deadline)
    ensures Holds(After(w, e, maxRetries).keys, j, owner, deadline)
    ensures HandsOut(w.keys, e) != Some(j)
    ensures e.Recover? && e.job == j ==> RecoveryOf(w.keys, j, e.now, maxRetries) == Untouched
  {
  }

  /** An owner that acts on time holds its lease at every step up to its last act: no recovery takes
      the job, no claim hands it out, and that last act finds the owner still owning. */
  lemma {:induction false} OnTimeKeepsLease(ws: seq<World>, es: seq<Event>, ts: seq<real>, maxRetries: nat,
                                            j: JobId, owner: Owner, i: nat, deadline: real, n: nat)
    requires IsRun(ws, es, maxRetries) && Timed(es, ts) && i <= n < |es|
    requires Holds(ws[i].keys, j, owner, deadline) && OnTime(es, ts, j, owner, i, deadline)
    ensures Owns(ws[n].keys, j, owner) && j in ws[n].keys.active
    ensures HandsOut(ws[n].keys, es[n]) != Some(j)
    ensures es[n].Recover? && es[n].job == j ==> RecoveryOf(ws[n].keys, j, es[n].now, maxRetries) == Untouched
    decreases n - i
  {
    RunKeepsInv(ws, es, maxRetries, i);
    BeforeDeadline(es, ts, j, owner, i, deadline);
    var acts := OwnerActs(es[i], j, owner);
    if !acts {
      OthersCannotTake(ws[i], es[i], maxRetries, j, owner, deadline);
    }
    if i < n {
      var deadline' := if acts then es[i].score else deadline;
      OnTimeKeepsLease(ws, es, ts, maxRetries, j, owner, i + 1, deadline', n);
    }
  }

  // ----- Deadlines are times of acts -----

  /** The times of the owner's steps from `k` on. */
  function Acts(es: seq<Event>, ts: seq<real>, j: JobId, owner: Owner, k: nat): seq<real>
    requires |ts| == |es| && k <= |es|
    decreases |es| - k
  {
    if k == |es| then []
    else if OwnerActs(es[k], j, owner) then [ts[k]] + Acts(es, ts, j, owner, k + 1)
    else Acts(es, ts, j, owner, k + 1)
  }

  /** From step `k` on, the owner's steps are renewals for `timeout` from the time they are made, up to
      the last step of all, with which it gives the job up. */
  predicate RenewsThenEnds(es: seq<Event>, ts: seq<real>, j: JobId, owner: Owner, k: nat, timeout: real)
    requires |ts| == |es|
  {
    && k < |es| && OwnerActs(es[|es| - 1], j, owner) && !es[|es| - 1].Renew?
    && forall i :: k <= i < |es| - 1 && OwnerActs(es[i], j, owner) ==> es[i] == Renew(j, owner, ts[i] + timeout)
  }

  /** Each act comes less than a timeout after the one before it. */
  predicate CloseTogether(timeout: real, from: real, acts: seq<real>)
    decreases |acts|
  {
    acts == [] || (acts[0] - from < timeout && CloseTogether(timeout, acts[0], acts[1..]))
  }

  /** An owner is on time exactly when its acts come close together. */
  lemma {:induction false} OnTimeMeansClose(es: seq<Event>, ts: seq<real>, j: JobId, owner: Owner, k: nat, timeout: real, from: real)
    requires |ts| == |es| && RenewsThenEnds(es, ts, j, owner, k, timeout)
    ensures OnTime(es, ts, j, owner, k, from + timeout) <==> CloseTogether(timeout, from, Acts(es, ts, j, owner, k))
    decreases |es| - k
  {
    if k == |es| - 1 {
      assert Acts(es, ts, j, owner, k) == [ts[k]];
    } else if OwnerActs(es[k], j, owner) {
      OnTimeMeansClose(es, ts, j, owner, k + 1, timeout, ts[k]);
      assert Acts(es, ts, j, owner, k)[1..] == Acts(es, ts, j, owner, k + 1);
    } else {
      OnTimeMeansClose(es, ts, j, owner, k + 1, timeout, from);
    }
  }

  // ----- What an owner can rely on -----

  /** A run with the times of its steps. */
  datatype Trace = Trace(ws: seq<World>, es: seq<Event>, ts: seq<real>)

  ghost predicate IsTrace(r: Trace, maxRetries: nat) {
    IsRun(r.ws, r.es, maxRetries) && Timed(r.es, r.ts)
  }

  /** A run from the empty queue in which step `c` hands job `j` to `owner` at time `from`, and `owner`
      renews until it ends the run by giving the job up. Everyone else does what they like. */
  ghost predicate OwnerRun(r: Trace, maxRetries: nat, j: JobId, owner: Owner, c: nat, timeout: real, from: real) {
    && IsTrace(r, maxRetries) && r.ws[0] == Empty && c < |r.es|
    && HandsOut(r.ws[c].keys, r.es[c]) == Some(j) && r.es[c].owner == owner
    && r.es[c].score == from + timeout && r.ts[c] == from
    && RenewsThenEnds(r.es, r.ts, j, owner, c + 1, timeout)
  }

  /** In every such run in which the owner acts at these times, it still owns the job at its last act
      and at every step before. */
  ghost predicate KeptInEveryRun(maxRetries: nat, timeout: real, from: real, acts: seq<real>) {
    forall r: Trace, j: JobId, owner: Owner, c: nat {:trigger OwnerRun(r, maxRetries, j, owner, c, timeout, from)} ::
      OwnerRun(r, maxRetries, j, owner, c, timeout, from) && Acts(r.es, r.ts, j, owner, c + 1) == acts ==>
        forall n :: c < n < |r.es| ==> Owns(r.ws[n].keys, j, owner)
  }

  lemma CloseIsKept(r: Trace, maxRetries: nat, j: JobId, owner: Owner, c: nat, timeout: real, from: real, n: nat)
    requires OwnerRun(r, maxRetries, j, owner, c, timeout, from) && c < n < |r.es|
    requires CloseTogether(timeout, from, Acts(r.es, r.ts, j, owner, c + 1))
    ensures Owns(r.ws[n].keys, j, owner)
  {
    HandingOut(r.ws[c], r.es[c], maxRetries, j);
    OnTimeMeansClose(r.es, r.ts, j, owner, c + 1, timeout, from);
    OnTimeKeepsLease(r.ws, r.es, r.ts, maxRetries, j, owner, c + 1, from + timeout, n);
  }

  /** A claim gives its owner the lease, with the claim's score as deadline. */
  lemma HandingOut(w: World, e: Event, maxRetries: nat, j: JobId)
    requires Enabled(w, e) && HandsOut(w.keys, e) == Some(j)
    ensures Holds(After(w, e, maxRetries).keys, j, e.owner, e.score)
  {
  }

  // ----- How an owner that comes late can lose the job -----

  predicate Ascending(from: real, acts: seq<real>)
    decreases |acts|
  {
    acts == [] || (from <= acts[0] && Ascending(acts[0], acts[1..]))
  }

  /** A trace that has got to time `t`. */
  ghost predicate UpTo(r: Trace, maxRetries: nat, t: real) {
    IsTrace(r, maxRetries) && forall k :: 0 <= k < |r.ts| ==> r.ts[k] <= t
  }

  ghost predicate Continues(r: Trace, r': Trace) {
    r.ws <= r'.ws && r.es <= r'.es && r.ts <= r'.ts
  }

  lemma Append(r: Trace, maxRetries: nat, e: Event, t: real) returns (r': Trace)
    requires UpTo(r, maxRetries, t) && Enabled(r.ws[|r.es|], e) && (e.Recover? ==> e.now <= t)
    ensures r' == Trace(r.ws + [After(r.ws[|r.es|], e, maxRetries)], r.es + [e], r.ts + [t])
    ensures UpTo(r', maxRetries, t) && Continues(r, r')
  {
    r' := Trace(r.ws + [After(r.ws[|r.es|], e, maxRetries)], r.es + [e], r.ts + [t]);
    forall k | 0 <= k < |r'.es|
      ensures Enabled(r'.ws[k], r'.es[k]) && r'.ws[k + 1] == After(r'.ws[k], r'.es[k], maxRetries)
    {
      if k < |r.es| { assert r'.ws[k] == r.ws[k] && r'.ws[k + 1] == r.ws[k + 1]; }
    }
  }

  /** Trace `r'` goes on from `r` with the owner acting at `acts`, and at its last act it owns nothing. */
  ghost predicate LostAfter(r: Trace, r': Trace, maxRetries: nat, j: JobId, owner: Owner, timeout: real, acts: seq<real>) {
    && IsTrace(r', maxRetries) && Continues(r, r') && RenewsThenEnds(r'.es, r'.ts, j, owner, |r.es|, timeout)
    && Acts(r'.es, r'.ts, j, owner, |r.es|) == acts
    && !Owns(r'.ws[|r'.es| - 1].keys, j, owner)
  }

  lemma LostBefore(r: Trace, r1: Trace, r': Trace, maxRetries: nat, j: JobId, owner: Owner, timeout: real, acts: seq<real>,
                   e: Event, t: real)
    requires Continues(r, r1) && r1.es == r.es + [e] && r1.ts == r.ts + [t] && |r.ts| == |r.es|
    requires LostAfter(r1, r', maxRetries, j, owner, timeout, acts)
    requires OwnerActs(e, j, owner) ==> e == Renew(j, owner, t + timeout)
    ensures LostAfter(r, r', maxRetries, j, owner, timeout, if OwnerActs(e, j, owner) then [t] + acts else acts)
  {
    var k := |r.es|;
    assert r'.es[k] == r1.es[k] && r'.ts[k] == r1.ts[k];
  }

  /** An owner without the lease acts in vain. */
  lemma {:induction false} Coast(r: Trace, maxRetries: nat, j: JobId, owner: Owner, timeout: real, from: real, acts: seq<real>)
    returns (r': Trace)
    requires UpTo(r, maxRetries, from) && owner != "" && !Owns(r.ws[|r.es|].keys, j, owner)
    requires acts != [] && Ascending(from, acts)
    ensures LostAfter(r, r', maxRetries, j, owner, timeout, acts)
    decreases |acts|
  {
    var t := acts[0];
    if |acts| == 1 {
      r' := Append(r, maxRetries, Finish(j, owner), t);
      assert Acts(r'.es, r'.ts, j, owner, |r.es|) == [t] + Acts(r'.es, r'.ts, j, owner, |r'.es|);
    } else {
      var e := Renew(j, owner, t + timeout);
      var r1 := Append(r, maxRetries, e, t);
      r' := Coast(r1, maxRetries, j, owner, timeout, t, acts[1..]);
      LostBefore(r, r1, r', maxRetries, j, owner, timeout, acts[1..], e, t);
      assert [t] + acts[1..] == acts;
    }
  }

  /** An owner that once lets a timeout pass loses the job to a recovery. */
  lemma {:induction false} Lose(r: Trace, maxRetries: nat, j: JobId, owner: Owner, timeout: real, from: real, acts: seq<real>)
    returns (r': Trace)
    requires UpTo(r, maxRetries, from) && owner != "" && timeout > 0.0
    requires Holds(r.ws[|r.es|].keys, j, owner, from + timeout)
    requires Ascending(from, acts) && !CloseTogether(timeout, from, acts)
    ensures LostAfter(r, r', maxRetries, j, owner, timeout, acts)
    decreases |acts|
  {
    var t := acts[0];
    if t - from >= timeout {
      var d := from + timeout;
      var r1 := Append(r, maxRetries, Recover(j, d), d);
      r' := Coast(r1, maxRetries, j, owner, timeout, d, acts);
      LostBefore(r, r1, r', maxRetries, j, owner, timeout, acts, Recover(j, d), d);
    } else {
      var e := Renew(j, owner, t + timeout);
      var r1 := Append(r, maxRetries, e, t);
      r' := Lose(r1, maxRetries, j, owner, timeout, t, acts[1..]);
      LostBefore(r, r1, r', maxRetries, j, owner, timeout, acts[1..], e, t);
      assert [t] + acts[1..] == acts;
    }
  }

  /** The job has never been recovered, cancelled or recorded. */
  predicate Alone(s: Keys, j: JobId) {
    j !in s.attempts && j !in s.cancelled && j !in s.status
  }

  /** A job is submitted and claimed at `from`. */
  lemma ClaimedAt(maxRetries: nat, timeout: real, from: real) returns (r: Trace)
    ensures UpTo(r, maxRetries, from) && r.ws[0] == Empty && |r.es| == 2
    ensures r.es[1] == Claim("a", from + timeout, Some(7)) && r.ts[1] == from
    ensures Holds(r.ws[2].keys, 7, "a", from + timeout)
    ensures Alone(r.ws[2].keys, 7) && r.ws[2].keys.queue == map[] && r.ws[2].granted == {"a"}
  {
    r := Trace([Empty], [], []);
    r := Append(r, maxRetries, Submit(7, from, "payload"), from);
    r := Append(r, maxRetries, Claim("a", from + timeout, Some(7)), from);
  }

  /** An owner that acts at these times, the last time to give the job up, can rely on its lease
      exactly when no two of them in a row, counting the claim, lie a timeout apart. */
  lemma KeptExactlyWhenClose(maxRetries: nat, timeout: real, from: real, acts: seq<real>)
    requires timeout > 0.0 && Ascending(from, acts)
    ensures KeptInEveryRun(maxRetries, timeout, from, acts) <==> CloseTogether(timeout, from, acts)
  {
    if CloseTogether(timeout, from, acts) {
      forall r: Trace, j: JobId, owner: Owner, c: nat, n: nat
        | OwnerRun(r, maxRetries, j, owner, c, timeout, from) && Acts(r.es, r.ts, j, owner, c + 1) == acts && c < n < |r.es|
        ensures Owns(r.ws[n].keys, j, owner)
      {
        CloseIsKept(r, maxRetries, j, owner, c, timeout, from, n);
      }
    } else {
      var r := ClaimedAt(maxRetries, timeout, from);
      var r' := Lose(r, maxRetries, 7, "a", timeout, from, acts);
      assert r'.ws[1] == r.ws[1] && r'.es[1] == r.es[1] && r'.ts[1] == r.ts[1] && r'.ws[0] == r.ws[0];
      assert OwnerRun(r', maxRetries, 7, "a", 1, timeout, from);
    }
  }
}
