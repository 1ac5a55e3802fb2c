/** The worker's renewal loop: when its renewals go through, and exactly when they keep the job. */
module LeaseRenewal {
  import opened LeaseRuns
  import opened LeaseScripts
  import opened LeaseTiming
  import opened Options

  // ----- One renewal call -----

  /** How the script call ended. */
  datatype Reply = Replied(renewed: bool) | ScriptFailed

  /** How one round of the fallback ended. */
  datatype Round = Conflict | OtherError | Refused | Committed

  /** What a call of `renew_lease` comes to: the caller sees a result or an exception. */
  datatype Outcome = Returned(ok: bool) | Raised

  /** One call: what it is given, and what it meets. `rounds` are the fallback's rounds until the queue is closed. */
  datatype Call = Call(connected: bool, owner: Owner, timeout: real, reply: Reply, rounds: seq<Round>)

  method RenewLease(call: Call) returns (r: Outcome)
    ensures r == RenewResult(call)
    ensures !call.connected || call.owner == "" || call.timeout <= 0.0 ==> r == Returned(false)
    ensures call.connected && call.owner != "" && call.timeout > 0.0 && call.reply.Replied? ==> r == Returned(call.reply.renewed)
    ensures call.connected && call.owner != "" && call.timeout > 0.0 && call.reply.ScriptFailed? ==>
              r == Returned(exists k :: 0 <= k < |call.rounds| && CommitsAt(call.rounds, k))
  {
    FallbackMeaning(call.rounds);
    if !call.connected || call.owner == "" || call.timeout <= 0.0 {
      return Returned(false);
    }
    if call.reply.Replied? {
      return Returned(call.reply.renewed);
    }
    var rounds := call.rounds;
    var k := 0;
    while k < |rounds|
      invariant k <= |rounds|
      invariant FallbackResult(rounds) == FallbackResult(rounds[k..])
    {
      match rounds[k] {
        case Refused => return Returned(false);
        case Committed => return Returned(true);
        case OtherError => return Returned(false);
        case Conflict =>
      }
      k := k + 1;
    }
    return Returned(false);
  }

  /** The first round that is not a conflict decides; an error counts as a refusal. */
  function FallbackResult(rounds: seq<Round>): bool {
    rounds != [] && (rounds[0] == Committed || (rounds[0] == Conflict && FallbackResult(rounds[1..])))
  }

  function RenewResult(call: Call): Outcome {
    if !call.connected || call.owner == "" || call.timeout <= 0.0 then Returned(false)
    else if call.reply.Replied? then Returned(call.reply.renewed)
    else Returned(FallbackResult(call.rounds))
  }

  /** Round `k` commits, after conflicts alone. */
  predicate CommitsAt(rounds: seq<Round>, k: nat)
    requires k < |rounds|
  {
    rounds[k] == Committed && forall i :: 0 <= i < k ==> rounds[i] == Conflict
  }

  lemma CommitsBehind(rounds: seq<Round>, k: nat)
    requires 0 < k < |rounds|
    ensures CommitsAt(rounds, k) <==> rounds[0] == Conflict && CommitsAt(rounds[1..], k - 1)
  {
    assert forall i :: 0 <= i < k ==> rounds[1..][i] == rounds[i + 1];
    assert forall i :: 1 <= i < k ==> rounds[i] == rounds[1..][i - 1];
  }

  lemma {:induction false} FallbackMeaning(rounds: seq<Round>)
    ensures FallbackResult(rounds) <==> exists k :: 0 <= k < |rounds| && CommitsAt(rounds, k)
  {
    if rounds != [] {
      FallbackMeaning(rounds[1..]);
      forall k | 0 < k < |rounds|
        ensures CommitsAt(rounds, k) <==> rounds[0] == Conflict && CommitsAt(rounds[1..], k - 1)
      {
        CommitsBehind(rounds, k);
      }
      if k :| 0 <= k < |rounds[1..]| && CommitsAt(rounds[1..], k) {
        assert CommitsAt(rounds, k + 1) <==> rounds[0] == Conflict && CommitsAt(rounds[1..], (k + 1) - 1);
      }
      assert rounds[0] == Committed <==> CommitsAt(rounds, 0);
    }
  }

  // ----- The renewal loop -----

  const MIN_INTERVAL := 0.05

  function Interval(timeout: real): real {
    if timeout / 3.0 < MIN_INTERVAL then MIN_INTERVAL else timeout / 3.0
  }

  /** One turn of the loop: how late it woke and what the renewal came to. */
  datatype Turn = Turn(delay: real, outcome: Outcome)

  /** The times of the renewals that went through, starting the wait at `from`. A turn that returns
      `False` ends the loop; a turn that raises does not. */
  function Beats(timeout: real, from: real, turns: seq<Turn>): seq<real>
    decreases |turns|
  {
    if turns == [] then []
    else
      var t := from + Interval(timeout) + turns[0].delay;
      match turns[0].outcome
      case Returned(ok) => if ok then [t] + Beats(timeout, t, turns[1..]) else []
      case Raised => Beats(timeout, t, turns[1..])
  }

  /** The loop over its turns: which renewals go through, and whether it is still running. */
  method RenewLeaseLoop(timeout: real, claimedAt: real, turns: seq<Turn>) returns (beats: seq<real>, running: bool)
    ensures beats == Beats(timeout, claimedAt, turns)
    ensures running <==> Returned(false) !in Outcomes(turns)
  {
    beats, running := [], true;
    var interval := Interval(timeout);
    var t := claimedAt;
    var k := 0;
    while k < |turns|
      invariant k <= |turns|
      invariant Beats(timeout, claimedAt, turns) == beats + Beats(timeout, t, turns[k..])
      invariant Returned(false) in Outcomes(turns) <==> Returned(false) in Outcomes(turns[k..])
    {
      assert turns[k..][1..] == turns[k + 1..];
      t := t + interval + turns[k].delay;
      match turns[k].outcome {
        case Returned(ok) =>
          if !ok {
            return beats, false;
          }
          beats := beats + [t];
        case Raised =>
      }
      k := k + 1;
    }
  }

  function Outcomes(turns: seq<Turn>): seq<Outcome> {
    if turns == [] then [] else [turns[0].outcome] + Outcomes(turns[1..])
  }

  // ----- When the loop keeps the job -----

  /** The last renewal that went through, or the claim. */
  function Last(from: real, beats: seq<real>): real {
    if beats == [] then from else beats[|beats| - 1]
  }

  /** When the last of the turns is made. */
  function Now(timeout: real, from: real, turns: seq<Turn>): real
    decreases |turns|
  {
    if turns == [] then from else Now(timeout, from + Interval(timeout) + turns[0].delay, turns[1..])
  }

  /** The loop turns a third of the timeout, but at least 0.05 seconds, after it woke before, and as late as it is woken. */
  lemma {:induction false} NowAdds(timeout: real, from: real, turns: seq<Turn>, turn: Turn)
    ensures Now(timeout, from, []) == from
    ensures Now(timeout, from, turns + [turn]) ==
            Now(timeout, from, turns) + (if timeout < 0.15 then 0.05 else timeout / 3.0) + turn.delay
    decreases |turns|
  {
    if turns == [] {
      assert turns + [turn] == [turn];
    } else {
      NowAdds(timeout, from + Interval(timeout) + turns[0].delay, turns[1..], turn);
      assert (turns + [turn])[1..] == turns[1..] + [turn];
    }
  }

  /** A turn that renews, with none refused before it, adds its time to the renewals; no other turn adds one. */
  lemma {:induction false} BeatsAdd(timeout: real, from: real, turns: seq<Turn>, turn: Turn)
    ensures Beats(timeout, from, []) == []
    ensures Beats(timeout, from, turns + [turn]) ==
            Beats(timeout, from, turns) +
            if turn.outcome == Returned(true) && forall k :: 0 <= k < |turns| ==> turns[k].outcome != Returned(false)
            then [Now(timeout, from, turns + [turn])] else []
    decreases |turns|
  {
    if turns == [] {
      assert turns + [turn] == [turn];
    } else {
      BeatsAdd(timeout, from + Interval(timeout) + turns[0].delay, turns[1..], turn);
      assert (turns + [turn])[1..] == turns[1..] + [turn];
      assert (forall k :: 0 <= k < |turns| ==> turns[k].outcome != Returned(false)) <==>
             turns[0].outcome != Returned(false) && forall k :: 0 <= k < |turns[1..]| ==> turns[1..][k].outcome != Returned(false) by {
        assert forall k :: 0 <= k < |turns[1..]| ==> turns[1..][k] == turns[k + 1];
        assert forall k :: 1 <= k < |turns| ==> turns[k] == turns[1..][k - 1];
      }
    }
  }

  predicate NoneEarly(turns: seq<Turn>) {
    forall k :: 0 <= k < |turns| ==> 0.0 <= turns[k].delay
  }

  lemma {:induction false} BeatsAscend(timeout: real, from: real, start: real, turns: seq<Turn>, end: real)
    requires NoneEarly(turns) && start <= from && Last(start, Beats(timeout, from, turns)) <= end
    ensures Ascending(start, Beats(timeout, from, turns) + [end])
    decreases |turns|
  {
    var beats := Beats(timeout, from, turns);
    if beats == [] {
      assert beats + [end] == [end];
    } else {
      var t := from + Interval(timeout) + turns[0].delay;
      if turns[0].outcome.Raised? {
        BeatsAscend(timeout, t, start, turns[1..], end);
      } else {
        BeatsAscend(timeout, t, t, turns[1..], end);
        assert (beats + [end])[1..] == beats[1..] + [end];
      }
    }
  }

  lemma {:induction false} CloseThenEnd(timeout: real, from: real, beats: seq<real>, end: real)
    ensures CloseTogether(timeout, from, beats + [end]) <==>
              CloseTogether(timeout, from, beats) && end - Last(from, beats) < timeout
    decreases |beats|
  {
    if beats == [] {
      assert beats + [end] == [end];
    } else {
      CloseThenEnd(timeout, beats[0], beats[1..], end);
      assert (beats + [end])[1..] == beats[1..] + [end];
    }
  }

  /** The loop's renewals, and then giving the job up at `end`, keep the job in every run of the queue. */
  ghost predicate KeptUntil(maxRetries: nat, timeout: real, from: real, turns: seq<Turn>, end: real) {
    KeptInEveryRun(maxRetries, timeout, from, Beats(timeout, from, turns) + [end])
  }

  /** Renewals that come close together keep the job exactly until a timeout after the last of them. */
  lemma KeptUntilTimeout(maxRetries: nat, timeout: real, from: real, turns: seq<Turn>, end: real)
    requires timeout > 0.0 && NoneEarly(turns)
    requires CloseTogether(timeout, from, Beats(timeout, from, turns)) && Last(from, Beats(timeout, from, turns)) <= end
    ensures KeptUntil(maxRetries, timeout, from, turns, end) <==> end < Last(from, Beats(timeout, from, turns)) + timeout
  {
    var beats := Beats(timeout, from, turns);
    BeatsAscend(timeout, from, from, turns, end);
    CloseThenEnd(timeout, from, beats, end);
    KeptExactlyWhenClose(maxRetries, timeout, from, beats + [end]);
  }

  // ----- Failures that reach the loop as exceptions -----

  /** Delays of consecutive turns add up to less than a third of the timeout, and of two turns in a
      row at most one raised. */
  predicate Calm(timeout: real, turns: seq<Turn>) {
    && (forall k :: 0 <= k < |turns| ==> 0.0 <= turns[k].delay < timeout / 3.0)
    && (forall k {:trigger turns[k].outcome} :: 0 <= k < |turns| - 1 && turns[k].outcome.Raised? ==>
          turns[k].delay + turns[k + 1].delay < timeout / 3.0 && !turns[k + 1].outcome.Raised?)
  }

  /** With a timeout of at least 0.15 seconds, exceptions reaching the loop one at a time never make
      it miss a deadline. */
  lemma {:induction false} CalmLoopKeepsTime(timeout: real, from: real, turns: seq<Turn>)
    requires timeout >= 0.15 && Calm(timeout, turns)
    ensures CloseTogether(timeout, from, Beats(timeout, from, turns))
    decreases |turns|
  {
    if turns != [] {
      var t := from + Interval(timeout) + turns[0].delay;
      CalmTail(timeout, turns);
      match turns[0].outcome
      case Returned(ok) =>
        if ok {
          CalmLoopKeepsTime(timeout, t, turns[1..]);
          var rest := Beats(timeout, t, turns[1..]);
          assert ([t] + rest)[1..] == rest;
        }
      case Raised =>
        if |turns| > 1 {
          var rest := turns[1..];
          CalmTail(timeout, rest);
          var t' := t + Interval(timeout) + rest[0].delay;
          assert rest[0] == turns[1] && !turns[1].outcome.Raised?;
          if rest[0].outcome.ok {
            CalmLoopKeepsTime(timeout, t', rest[1..]);
            var beats := Beats(timeout, t', rest[1..]);
            assert ([t'] + beats)[1..] == beats;
          }
        }
    }
  }

  lemma CalmTail(timeout: real, turns: seq<Turn>)
    requires turns != [] && Calm(timeout, turns)
    ensures Calm(timeout, turns[1..])
  {
    var tail := turns[1..];
    forall k | 0 <= k < |tail| - 1 && tail[k].outcome.Raised?
      ensures tail[k].delay + tail[k + 1].delay < timeout / 3.0 && !tail[k + 1].outcome.Raised?
    {
      assert tail[k] == turns[k + 1] && tail[k + 1] == turns[k + 2];
    }
  }

  /** While no turn is refused, the loop lags behind its last renewal by at most one raised turn. */
  lemma {:induction false} Lag(timeout: real, from: real, turns: seq<Turn>)
    requires Calm(timeout, turns) && Returned(false) !in Outcomes(turns)
    ensures Now(timeout, from, turns) - Last(from, Beats(timeout, from, turns)) ==
              if turns != [] && turns[|turns| - 1].outcome.Raised? then Interval(timeout) + turns[|turns| - 1].delay else 0.0
    decreases |turns|
  {
    if turns != [] {
      var t := from + Interval(timeout) + turns[0].delay;
      CalmTail(timeout, turns);
      Lag(timeout, t, turns[1..]);
      if turns[0].outcome.Raised? && |turns| > 1 {
        assert turns[1..][0] == turns[1] && turns[1].outcome != Returned(false) by {
          assert turns[1].outcome == Outcomes(turns[1..])[0];
        }
      }
    }
  }

  /** With a timeout of at least 0.15 seconds, a loop that failures reach only as exceptions, one at a time, keeps
      the job whenever it is given up by the time the next turn is due. */
  lemma CalmLoopKeepsJob(maxRetries: nat, timeout: real, from: real, turns: seq<Turn>, next: Turn, end: real)
    requires timeout >= 0.15 && Calm(timeout, turns + [next]) && Returned(false) !in Outcomes(turns)
    requires Last(from, Beats(timeout, from, turns)) <= end <= Now(timeout, from, turns) + Interval(timeout) + next.delay
    ensures KeptUntil(maxRetries, timeout, from, turns, end)
  {
    CalmFront(timeout, turns, next);
    CalmLoopKeepsTime(timeout, from, turns);
    Lag(timeout, from, turns);
    KeptUntilTimeout(maxRetries, timeout, from, turns, end);
  }

  lemma CalmFront(timeout: real, turns: seq<Turn>, next: Turn)
    requires Calm(timeout, turns + [next])
    ensures Calm(timeout, turns) && 0.0 <= next.delay < timeout / 3.0
    ensures turns != [] && turns[|turns| - 1].outcome.Raised? ==> turns[|turns| - 1].delay + next.delay < timeout / 3.0
  {
    var all := turns + [next];
    assert all[|turns|] == next;
    assert forall k :: 0 <= k < |turns| ==> all[k] == turns[k];
    assert turns != [] && turns[|turns| - 1].outcome.Raised? ==> all[|turns| - 1].outcome.Raised?;
  }

  /** Calm turns keep the job until a timeout after the last renewal, for all starts, turns and ends. */
  ghost predicate ToleratesExceptions(maxRetries: nat, timeout: real) {
    forall from: real, turns: seq<Turn>, end: real {:trigger KeptUntil(maxRetries, timeout, from, turns, end)} ::
      Calm(timeout, turns)
      && Last(from, Beats(timeout, from, turns)) <= end < Last(from, Beats(timeout, from, turns)) + timeout ==>
        KeptUntil(maxRetries, timeout, from, turns, end)
  }

  /** The interval tolerates such exceptions exactly for timeouts of at least 0.15 seconds: below, one raised turn
      and delays adding up to less than a third of the timeout can already cost the job. */
  lemma ToleranceNeedsTimeout(maxRetries: nat, timeout: real)
    requires timeout > 0.0
    ensures ToleratesExceptions(maxRetries, timeout) <==> timeout >= 0.15
  {
    if timeout >= 0.15 {
      forall from: real, turns: seq<Turn>, end: real
        | Calm(timeout, turns)
          && Last(from, Beats(timeout, from, turns)) <= end < Last(from, Beats(timeout, from, turns)) + timeout
        ensures KeptUntil(maxRetries, timeout, from, turns, end)
      {
        CalmLoopKeepsTime(timeout, from, turns);
        KeptUntilTimeout(maxRetries, timeout, from, turns, end);
      }
    } else {
      LateAfterOneException(maxRetries, timeout);
    }
  }

  lemma LateAfterOneException(maxRetries: nat, timeout: real)
    requires 0.0 < timeout < 0.15
    ensures !ToleratesExceptions(maxRetries, timeout)
  {
    var delay := if timeout <= 0.1 then 0.0 else timeout - 0.1;
    var turns := [Turn(0.0, Raised), Turn(delay, Returned(true))];
    var beat := 2.0 * Interval(timeout) + delay;
    assert Calm(timeout, turns);
    assert Beats(timeout, Interval(timeout), turns[1..]) == [beat];
    assert Beats(timeout, 0.0, turns) == [beat];
    BeatsAscend(timeout, 0.0, 0.0, turns, beat);
    CloseThenEnd(timeout, 0.0, [beat], beat);
    KeptExactlyWhenClose(maxRetries, timeout, 0.0, [beat] + [beat]);
    assert !KeptUntil(maxRetries, timeout, 0.0, turns, beat);
  }

  // ----- Failures as they are -----

  /** No failure ever reaches the loop as an exception: a call that could not renew returns `False`. */
  lemma RenewNeverRaises(call: Call)
    ensures !RenewResult(call).Raised?
    ensures call.reply.ScriptFailed? && call.rounds != [] && call.rounds[0] == OtherError ==> RenewResult(call) == Returned(false)
  {
  }

  /** What the calls make of the loop's turns. */
  predicate FromCalls(turns: seq<Turn>, calls: seq<Call>) {
    |turns| == |calls| && forall k :: 0 <= k < |turns| ==> turns[k].outcome == RenewResult(calls[k])
  }

  /** Turn `k` is the first of which the call fails. */
  predicate FailsAt(turns: seq<Turn>, k: nat) {
    k < |turns| && turns[k].outcome != Returned(true) && forall i :: 0 <= i < k ==> turns[i].outcome == Returned(true)
  }

  /** Each turn is late by less than what a timeout leaves beside the interval. */
  predicate Prompt(timeout: real, turns: seq<Turn>) {
    forall k :: 0 <= k < |turns| ==> 0.0 <= turns[k].delay < timeout - Interval(timeout)
  }

  /** The turn before the first failure makes the last renewal, whatever the later turns would have come to. */
  lemma {:induction false} FirstFailureEndsIt(timeout: real, from: real, turns: seq<Turn>, calls: seq<Call>, k: nat)
    requires FromCalls(turns, calls) && FailsAt(turns, k)
    ensures Last(from, Beats(timeout, from, turns)) == Now(timeout, from, turns[..k])
    ensures Prompt(timeout, turns) ==> CloseTogether(timeout, from, Beats(timeout, from, turns))
    decreases |turns|
  {
    if k == 0 {
      assert turns[0].outcome == RenewResult(calls[0]);
    } else {
      var t := from + Interval(timeout) + turns[0].delay;
      assert forall i :: 0 <= i < |turns| - 1 ==> turns[1..][i] == turns[i + 1];
      FirstFailureEndsIt(timeout, t, turns[1..], calls[1..], k - 1);
      assert turns[..k][1..] == turns[1..][..k - 1];
      assert Beats(timeout, from, turns)[1..] == Beats(timeout, t, turns[1..]);
    }
  }

  /** When the call of turn `k` fails, the job is kept in every run exactly if it is given up less than a timeout
      after the turn before, although each later call may well succeed. */
  lemma FailedCallKeepsJob(maxRetries: nat, timeout: real, from: real, turns: seq<Turn>, calls: seq<Call>, k: nat, end: real)
    requires timeout > 0.0 && Prompt(timeout, turns) && FromCalls(turns, calls) && FailsAt(turns, k)
    requires Now(timeout, from, turns[..k]) <= end
    ensures KeptUntil(maxRetries, timeout, from, turns, end) <==> end < Now(timeout, from, turns[..k]) + timeout
  {
    FirstFailureEndsIt(timeout, from, turns, calls, k);
    KeptUntilTimeout(maxRetries, timeout, from, turns, end);
  }

  /** While every call succeeds, the job is kept until a timeout after the last turn, and so as long as the loop runs. */
  lemma {:induction false} SucceedingCallsBeat(timeout: real, from: real, turns: seq<Turn>)
    requires forall k :: 0 <= k < |turns| ==> turns[k].outcome == Returned(true)
    ensures Last(from, Beats(timeout, from, turns)) == Now(timeout, from, turns)
    ensures Prompt(timeout, turns) ==> CloseTogether(timeout, from, Beats(timeout, from, turns))
    decreases |turns|
  {
    if turns != [] {
      var t := from + Interval(timeout) + turns[0].delay;
      assert forall i :: 0 <= i < |turns| - 1 ==> turns[1..][i] == turns[i + 1];
      SucceedingCallsBeat(timeout, t, turns[1..]);
      assert Beats(timeout, from, turns)[1..] == Beats(timeout, t, turns[1..]);
    }
  }

  lemma SucceedingCallsKeepJob(maxRetries: nat, timeout: real, from: real, turns: seq<Turn>, end: real)
    requires timeout > 0.0 && Prompt(timeout, turns)
    requires forall k :: 0 <= k < |turns| ==> turns[k].outcome == Returned(true)
    requires Now(timeout, from, turns) <= end
    ensures KeptUntil(maxRetries, timeout, from, turns, end) <==> end < Now(timeout, from, turns) + timeout
  {
    SucceedingCallsBeat(timeout, from, turns);
    KeptUntilTimeout(maxRetries, timeout, from, turns, end);
  }

  /** Recovery requeues a job with no other in the queue, and the next claim hands it out. */
  lemma RecoveredAlone(w: World, maxRetries: nat, j: JobId, now: real)
    requires Expired(w.keys, j, now) && Alone(w.keys, j) && w.keys.queue == map[] && maxRetries > 0
    ensures RecoveryOf(w.keys, j, now, maxRetries) == ToQueue
    ensures IsNext(After(w, Recover(j, now), maxRetries).keys, Some(j))
    ensures After(w, Recover(j, now), maxRetries).granted == w.granted
  {
  }

  lemma FinishInVain(w: World, maxRetries: nat, j: JobId, owner: Owner)
    requires owner != "" && !Owns(w.keys, j, owner)
    ensures After(w, Finish(j, owner), maxRetries) == w
  {
  }

  lemma {:induction false} OnlyLastActs(es: seq<Event>, ts: seq<real>, j: JobId, owner: Owner, k: nat)
    requires |ts| == |es| && k < |es| && OwnerActs(es[|es| - 1], j, owner)
    requires forall i :: k <= i < |es| - 1 ==> !OwnerActs(es[i], j, owner)
    ensures Acts(es, ts, j, owner, k) == [ts[|es| - 1]]
    decreases |es| - k
  {
    if k < |es| - 1 { OnlyLastActs(es, ts, j, owner, k + 1); }
  }

  /** Job `j`, claimed by "a" at 0 and not renewed, is recovered at its deadline. */
  lemma RecoveredOnce(maxRetries: nat, d: real) returns (r: Trace)
    requires maxRetries > 0 && d > 0.0
    ensures UpTo(r, maxRetries, d) && r.ws[0] == Empty && |r.es| == 3
    ensures r.es[1] == Claim("a", d, Some(7)) && r.es[2] == Recover(7, d) && r.ts[1] == 0.0
    ensures RecoveryOf(r.ws[2].keys, 7, d, maxRetries) == ToQueue
    ensures IsNext(r.ws[3].keys, Some(7)) && r.ws[3].granted == {"a"}
  {
    r := ClaimedAt(maxRetries, d, 0.0);
    RecoveredAlone(r.ws[2], maxRetries, 7, d);
    r := Append(r, maxRetries, Recover(7, d), d);
  }

  lemma TakenOver(maxRetries: nat, d: real, end: real) returns (r: Trace)
    requires maxRetries > 0 && 0.0 < d <= end
    ensures IsTrace(r, maxRetries) && r.ws[0] == Empty && |r.es| == 5
    ensures r.es[1..] == [Claim("a", d, Some(7)), Recover(7, d), Claim("b", d + d, Some(7)), Finish(7, "a")]
    ensures r.ts[1] == 0.0 && r.ts[4] == end
    ensures RecoveryOf(r.ws[2].keys, 7, d, maxRetries) == ToQueue
    ensures r.ws[5] == r.ws[4] && Owns(r.ws[5].keys, 7, "b")
  {
    r := RecoveredOnce(maxRetries, d);
    HandingOut(r.ws[3], Claim("b", d + d, Some(7)), maxRetries, 7);
    r := Append(r, maxRetries, Claim("b", d + d, Some(7)), d);
    FinishInVain(r.ws[4], maxRetries, 7, "a");
    r := Append(r, maxRetries, Finish(7, "a"), end);
  }

  /** A connection lost for one call only: with a timeout of 300 seconds the first renewal fails at 100, and no later
      turn is made. At 300 a recovery requeues the job, another owner claims it, and the first owner's finish at 400
      changes nothing. */
  lemma OneLostTurn(later: seq<Turn>) returns (r: Trace)
    ensures var lost := Call(true, "a", 300.0, ScriptFailed, [OtherError]);
            Beats(300.0, 0.0, [Turn(0.0, RenewResult(lost))] + later) == []
    ensures OwnerRun(r, 3, 7, "a", 1, 300.0, 0.0) && Acts(r.es, r.ts, 7, "a", 2) == [400.0]
    ensures |r.es| == 5 && r.es[2] == Recover(7, 300.0) && RecoveryOf(r.ws[2].keys, 7, 300.0, 3) == ToQueue
    ensures HandsOut(r.ws[3].keys, r.es[3]) == Some(7) && r.es[3].owner == "b"
    ensures r.ws[5] == r.ws[4] && Owns(r.ws[5].keys, 7, "b")
  {
    r := TakenOver(3, 300.0, 400.0);
    var es := r.es[1..];
    assert r.es[1] == es[0] && r.es[2] == es[1] && r.es[3] == es[2] && r.es[4] == es[3];
    OnlyLastActs(r.es, r.ts, 7, "a", 2);
  }
}
