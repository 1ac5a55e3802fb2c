/** The queue operations as they run where scripts are unavailable: WATCH the active set and the
    lease, read, queue commands, EXEC. Any number of clients do so at once, between each other's
    reads and beside clients that use scripts. Every EXEC that goes through has exactly the effect
    of the script at that moment, so runs of this system are runs of the scripts. */
module WatchFallback {
  import opened LeaseRuns
  import opened LeaseScripts
  import opened Options

  datatype Op =
    | RenewOp(job: JobId, owner: Owner, score: real)
    | FinishOp(job: JobId, owner: Owner)
    | RequeueOp(job: JobId, owner: Owner, now: real)
    | RecoverOp(job: JobId, now: real)

  /** The script the operation stands for. */
  function ScriptOf(op: Op): Event {
    match op
    case RenewOp(j, owner, score) => Renew(j, owner, score)
    case FinishOp(j, owner) => Finish(j, owner)
    case RequeueOp(j, owner, now) => Requeue(j, owner, now)
    case RecoverOp(j, now) => Recover(j, now)
  }

  predicate HasOwner(op: Op) {
    op.RecoverOp? || op.owner != ""
  }

  /** Where a client is: idle, watching with nothing read, past its first check, or with its
      commands queued and, for a recovery, the attempts counter it read. */
  datatype Place =
    | Idle
    | Watching(op: Op)
    | Checked(op: Op)
    | Ready(op: Op, attempts: nat)

  /** `dirty` is the server's note that a watched key changed since the WATCH. */
  datatype Client = Client(at: Place, dirty: bool)

  datatype System = System(world: World, clients: map<nat, Client>)

  datatype Move =
    | Script(e: Event)
    | Watch(client: nat, op: Op)
    | Read(client: nat)
      /** EXEC fails when a watched key changed; it may also fail for another reason (`abort`). */
    | Exec(client: nat, abort: bool)

  function LeaseOf(s: Keys, j: JobId): Option<Owner> {
    if j in s.lease then Some(s.lease[j]) else None
  }

  /** The watched keys of `op` read the same in both states. */
  predicate SameWatched(s: Keys, t: Keys, op: Op) {
    s.active == t.active && LeaseOf(s, op.job) == LeaseOf(t, op.job)
  }

  function Touch(clients: map<nat, Client>, s: Keys, t: Keys): map<nat, Client> {
    map c | c in clients ::
      if clients[c].at.Idle? || SameWatched(s, t, clients[c].at.op) then clients[c] else clients[c].(dirty := true)
  }

  /** What one more read finds: the place it leads to. */
  function PlaceAfterRead(s: Keys, at: Place): Place {
    match at
    case Watching(op) =>
      (match op
       case RenewOp(j, owner, _) => if Owns(s, j, owner) then Checked(op) else Idle
       case FinishOp(j, owner) => if Owns(s, j, owner) then Ready(op, 0) else Idle
       case RequeueOp(j, owner, _) => if Owns(s, j, owner) then Ready(op, 0) else Idle
       case RecoverOp(j, now) => if Expired(s, j, now) then Checked(op) else Idle)
    case Checked(op) =>
      (match op
       case RenewOp(j, _, _) => if j in s.active then Ready(op, 0) else Idle
       case RecoverOp(j, _) => Ready(op, AttemptsOf(s, j))
       case _ => Idle)
    case _ => at
  }

  /** The queued commands, applied to the keys as they are. A recovery increments the counter as it
      is, but has chosen its other commands by the counter it read. */
  function Committed(s: Keys, op: Op, attemptsRead: nat, maxRetries: nat): Keys {
    match op
    case RenewOp(j, _, score) => s.(active := s.active[j := score])
    case FinishOp(j, _) =>
      s.(active := s.active - {j}, lease := s.lease - {j}, payload := s.payload - {j}, attempts := s.attempts - {j})
    case RequeueOp(j, _, now) => s.(active := s.active - {j}, queue := s.queue[j := now], lease := s.lease - {j})
    case RecoverOp(j, now) =>
      var t := s.(active := s.active - {j}, lease := s.lease - {j}, attempts := s.attempts[j := AttemptsOf(s, j) + 1]);
      if attemptsRead + 1 > maxRetries
      then t.(payload := t.payload - {j}, attempts := t.attempts - {j})
      else t.(queue := t.queue[j := now])
  }

  ghost predicate CanMove(s: System, m: Move) {
    match m
    case Script(e) => Enabled(s.world, e)
    case Watch(c, op) => c in s.clients && s.clients[c].at.Idle? && HasOwner(op)
    case Read(c) => c in s.clients && (s.clients[c].at.Watching? || s.clients[c].at.Checked?)
    case Exec(c, _) => c in s.clients && s.clients[c].at.Ready?
  }

  ghost function Moved(s: System, m: Move, maxRetries: nat): System
    requires CanMove(s, m)
  {
    match m
    case Script(e) =>
      var w := After(s.world, e, maxRetries);
      System(w, Touch(s.clients, s.world.keys, w.keys))
    case Watch(c, op) => s.(clients := s.clients[c := Client(Watching(op), false)])
    case Read(c) =>
      s.(clients := s.clients[c := s.clients[c].(at := PlaceAfterRead(s.world.keys, s.clients[c].at))])
    case Exec(c, abort) =>
      var op := s.clients[c].at.op;
      if s.clients[c].dirty || abort then s.(clients := s.clients[c := Client(Watching(op), false)])
      else
        var w := s.world.(keys := Committed(s.world.keys, op, s.clients[c].at.attempts, maxRetries));
        System(w, Touch(s.clients[c := Client(Idle, false)], s.world.keys, w.keys))
  }

  // ----- What a clean client knows -----

  /** What the client has read still holds, unless a watched key changed under it. */
  predicate StillTrue(s: Keys, at: Place) {
    match at
    case Idle => true
    case Watching(op) => HasOwner(op)
    case Checked(op) =>
      && HasOwner(op)
      && (op.RenewOp? ==> Owns(s, op.job, op.owner))
      && (op.RecoverOp? ==> Expired(s, op.job, op.now))
    case Ready(op, attempts) =>
      && HasOwner(op)
      && (!op.RecoverOp? ==> Owns(s, op.job, op.owner))
      && (op.RenewOp? ==> op.job in s.active)
      && (op.RecoverOp? ==> Expired(s, op.job, op.now) && AttemptsOf(s, op.job) == attempts)
  }

  ghost predicate SystemOk(s: System, maxRetries: nat) {
    && Inv(s.world, maxRetries)
    && forall c :: c in s.clients ==>
         && (s.clients[c].at.Idle? || HasOwner(s.clients[c].at.op))
         && (!s.clients[c].dirty ==> StillTrue(s.world.keys, s.clients[c].at))
  }

  /** No step changes the attempts of an active job while leaving the active set as it was. */
  lemma AttemptsGuarded(w: World, e: Event, maxRetries: nat, j: JobId)
    requires Inv(w, maxRetries) && Enabled(w, e) && j in w.keys.active
    requires After(w, e, maxRetries).keys.active == w.keys.active
    ensures AttemptsOf(After(w, e, maxRetries).keys, j) == AttemptsOf(w.keys, j)
  {
    StepAndAttempts(w, e, maxRetries, j);
  }

  /** Whatever step is taken, a client it does not dirty still knows what it knew. */
  lemma KnowledgeKept(w: World, e: Event, maxRetries: nat, at: Place)
    requires Inv(w, maxRetries) && Enabled(w, e) && StillTrue(w.keys, at)
    requires at.Idle? || SameWatched(w.keys, After(w, e, maxRetries).keys, at.op)
    ensures StillTrue(After(w, e, maxRetries).keys, at)
  {
    if at.Ready? && at.op.RecoverOp? {
      AttemptsGuarded(w, e, maxRetries, at.op.job);
    }
  }

  /** What the script answers a renewal, a finish or a requeue. */
  predicate Accepts(s: Keys, op: Op)
    requires !op.RecoverOp?
  {
    match op
    case RenewOp(j, owner, _) => Renews(s, j, owner)
    case FinishOp(j, owner) => Owns(s, j, owner)
    case RequeueOp(j, owner, _) => Requeues(s, j, owner)
  }

  /** A clean EXEC does what the script would do now, and answers as the script would. */
  lemma ExecIsScript(s: Keys, at: Place, maxRetries: nat)
    requires at.Ready? && StillTrue(s, at)
    ensures Committed(s, at.op, at.attempts, maxRetries) == KeysAfter(s, ScriptOf(at.op), maxRetries)
    ensures at.op.RecoverOp? ==>
              RecoveryOf(s, at.op.job, at.op.now, maxRetries) ==
              if at.attempts + 1 > maxRetries then Exhausted else ToQueue
    ensures !at.op.RecoverOp? ==> Accepts(s, at.op)
  {
    if at.op.RecoverOp? && at.attempts + 1 > maxRetries {
      var j := at.op.job;
      assert s.attempts[j := AttemptsOf(s, j) + 1] - {j} == s.attempts - {j};
    }
  }

  /** A read that sends the client away empty-handed happens at a moment when the script would
      refuse as well and change nothing. */
  lemma RefusalIsScript(s: System, c: nat, maxRetries: nat)
    requires SystemOk(s, maxRetries) && CanMove(s, Read(c))
    requires s.clients[c].at.Watching? || s.clients[c].at.op.RenewOp? || s.clients[c].at.op.RecoverOp?
    requires PlaceAfterRead(s.world.keys, s.clients[c].at).Idle?
    ensures KeysAfter(s.world.keys, ScriptOf(s.clients[c].at.op), maxRetries) == s.world.keys
    ensures var op := s.clients[c].at.op;
            if op.RecoverOp? then RecoveryOf(s.world.keys, op.job, op.now, maxRetries) == Untouched else !Accepts(s.world.keys, op)
  {
  }

  lemma ReadKeepsOk(s: System, c: nat, maxRetries: nat)
    requires SystemOk(s, maxRetries) && CanMove(s, Read(c))
    ensures SystemOk(Moved(s, Read(c), maxRetries), maxRetries)
  {
    var at := PlaceAfterRead(s.world.keys, s.clients[c].at);
    assert at.Idle? || HasOwner(at.op);
    assert !s.clients[c].dirty ==> StillTrue(s.world.keys, at);
  }

  lemma ScriptKeepsOk(s: System, clients: map<nat, Client>, e: Event, maxRetries: nat)
    requires SystemOk(s, maxRetries) && Enabled(s.world, e)
    requires forall c :: c in clients ==> clients[c].at.Idle? || (c in s.clients && clients[c] == s.clients[c])
    ensures var w := After(s.world, e, maxRetries);
            SystemOk(System(w, Touch(clients, s.world.keys, w.keys)), maxRetries)
  {
    var w := After(s.world, e, maxRetries);
    var touched := Touch(clients, s.world.keys, w.keys);
    StepKeepsInv(s.world, e, maxRetries);
    forall c | c in touched
      ensures touched[c].at.Idle? || HasOwner(touched[c].at.op)
      ensures !touched[c].dirty ==> StillTrue(w.keys, touched[c].at)
    {
      if !touched[c].dirty && !clients[c].at.Idle? {
        KnowledgeKept(s.world, e, maxRetries, clients[c].at);
      }
    }
  }

  /** The script a move is: reads, watches and failed EXECs are none. */
  function ScriptBy(s: System, m: Move): Option<Event> {
    match m
    case Script(e) => Some(e)
    case Watch(_, _) => None
    case Read(_) => None
    case Exec(c, abort) =>
      if c in s.clients && s.clients[c].at.Ready? && !s.clients[c].dirty && !abort
      then Some(ScriptOf(s.clients[c].at.op)) else None
  }

  /** A move that is no script leaves the keys alone; one that is a script is enabled and applied at
      that moment; and clean clients keep knowing the truth. */
  lemma MoveIsScript(s: System, m: Move, maxRetries: nat)
    requires SystemOk(s, maxRetries) && CanMove(s, m)
    ensures ScriptBy(s, m).None? ==> Moved(s, m, maxRetries).world == s.world
    ensures ScriptBy(s, m).Some? ==>
              && Enabled(s.world, ScriptBy(s, m).value)
              && Moved(s, m, maxRetries).world == After(s.world, ScriptBy(s, m).value, maxRetries)
    ensures SystemOk(Moved(s, m, maxRetries), maxRetries)
  {
    match m
    case Script(e) =>
      ScriptKeepsOk(s, s.clients, e, maxRetries);
    case Watch(c, op) =>
    case Read(c) =>
      ReadKeepsOk(s, c, maxRetries);
    case Exec(c, abort) =>
      if !(s.clients[c].dirty || abort) {
        ExecIsScript(s.world.keys, s.clients[c].at, maxRetries);
        ScriptKeepsOk(s, s.clients[c := Client(Idle, false)], ScriptOf(s.clients[c].at.op), maxRetries);
      }
  }

  /** An EXEC is retried from the WATCH when a watched key changed or it is aborted; else it is the script, and the
      client is done. */
  lemma ExecDecides(s: System, c: nat, abort: bool, maxRetries: nat)
    requires SystemOk(s, maxRetries) && CanMove(s, Exec(c, abort))
    ensures var t, op := Moved(s, Exec(c, abort), maxRetries), s.clients[c].at.op;
            if s.clients[c].dirty || abort
            then t.world == s.world && t.clients == s.clients[c := Client(Watching(op), false)]
            else t.world == After(s.world, ScriptOf(op), maxRetries) && c in t.clients && t.clients[c] == Client(Idle, false)
  {
    MoveIsScript(s, Exec(c, abort), maxRetries);
  }

  /** Another's step makes a watching client's EXEC fail exactly if it changes the active set or the job's lease. */
  lemma DirtyExactly(s: System, m: Move, c: nat, maxRetries: nat)
    requires CanMove(s, m) && c in s.clients && !s.clients[c].at.Idle?
    requires m.Script? || m.client != c
    ensures var t := Moved(s, m, maxRetries);
            && c in t.clients && t.clients[c].at == s.clients[c].at
            && (t.clients[c].dirty <==>
                  || s.clients[c].dirty
                  || t.world.keys.active != s.world.keys.active
                  || LeaseOf(t.world.keys, s.clients[c].at.op.job) != LeaseOf(s.world.keys, s.clients[c].at.op.job))
  {
  }

  /** The moves, one after the other, lead from `s` to `t`. */
  ghost predicate Leads(s: System, ms: seq<Move>, t: System, maxRetries: nat)
    decreases |ms|
  {
    if ms == [] then s == t else CanMove(s, ms[0]) && Leads(Moved(s, ms[0], maxRetries), ms[1..], t, maxRetries)
  }

  /** The moves of one client's attempt: a WATCH, one read or two, and an EXEC that is not aborted. */
  predicate IsAttempt(ms: seq<Move>, c: nat, op: Op) {
    || ms == [Watch(c, op), Read(c)]
    || ms == [Watch(c, op), Read(c), Read(c)]
    || ms == [Watch(c, op), Read(c), Exec(c, false)]
    || ms == [Watch(c, op), Read(c), Read(c), Exec(c, false)]
  }

  lemma AttemptShape(c: nat, op: Op, rest: seq<Move>)
    requires rest in [[], [Exec(c, false)], [Read(c)], [Read(c), Exec(c, false)]]
    ensures IsAttempt([Watch(c, op)] + ([Read(c)] + rest), c, op)
  {
    var ms := [Watch(c, op)] + ([Read(c)] + rest);
    if |rest| == 0 { assert ms == [Watch(c, op), Read(c)]; }
    if |rest| == 1 { assert ms == [Watch(c, op), Read(c), rest[0]]; }
    if |rest| == 2 { assert ms == [Watch(c, op), Read(c), rest[0], rest[1]]; }
  }

  lemma LeadsBefore(s: System, m: Move, ms: seq<Move>, t: System, maxRetries: nat)
    requires CanMove(s, m) && Leads(Moved(s, m, maxRetries), ms, t, maxRetries)
    ensures Leads(s, [m] + ms, t, maxRetries)
  {
    assert ([m] + ms)[1..] == ms;
  }

  lemma WatchMoves(s: System, c: nat, op: Op, maxRetries: nat)
    requires SystemOk(s, maxRetries) && CanMove(s, Watch(c, op))
    ensures var t := Moved(s, Watch(c, op), maxRetries);
            t.world == s.world && SystemOk(t, maxRetries) && c in t.clients && t.clients[c] == Client(Watching(op), false)
  {
    MoveIsScript(s, Watch(c, op), maxRetries);
  }

  lemma ReadMoves(s: System, c: nat, maxRetries: nat)
    requires SystemOk(s, maxRetries) && CanMove(s, Read(c))
    ensures var t := Moved(s, Read(c), maxRetries);
            && t.world == s.world && SystemOk(t, maxRetries) && c in t.clients
            && t.clients[c] == s.clients[c].(at := PlaceAfterRead(s.world.keys, s.clients[c].at))
  {
    MoveIsScript(s, Read(c), maxRetries);
  }

  /** The client is done, and the keys are as the script would leave them. */
  ghost predicate DoneAs(keys: Keys, t: System, c: nat, op: Op, maxRetries: nat) {
    c in t.clients && t.clients[c] == Client(Idle, false) && t.world.keys == KeysAfter(keys, ScriptOf(op), maxRetries)
  }

  /** From the point where all is read, or the client was sent away. */
  lemma LastMoves(s: System, c: nat, op: Op, maxRetries: nat) returns (ms: seq<Move>, t: System)
    requires SystemOk(s, maxRetries) && c in s.clients && !s.clients[c].dirty
    requires s.clients[c].at.Idle? || (s.clients[c].at.Ready? && s.clients[c].at.op == op)
    requires s.clients[c].at.Idle? ==> KeysAfter(s.world.keys, ScriptOf(op), maxRetries) == s.world.keys
    ensures ms == (if s.clients[c].at.Idle? then [] else [Exec(c, false)]) && Leads(s, ms, t, maxRetries)
    ensures DoneAs(s.world.keys, t, c, op, maxRetries)
  {
    if s.clients[c].at.Idle? {
      ms, t := [], s;
    } else {
      t := Moved(s, Exec(c, false), maxRetries);
      ms := [Exec(c, false)];
      ExecDecides(s, c, false, maxRetries);
      assert Leads(t, [], t, maxRetries);
    }
  }

  lemma ReadsOn(s: System, c: nat, op: Op, maxRetries: nat) returns (ms: seq<Move>, t: System)
    requires SystemOk(s, maxRetries) && c in s.clients && s.clients[c] == Client(Checked(op), false)
    requires op.RenewOp? || op.RecoverOp?
    ensures ms in [[Read(c)], [Read(c), Exec(c, false)]] && Leads(s, ms, t, maxRetries)
    ensures DoneAs(s.world.keys, t, c, op, maxRetries)
  {
    ReadMoves(s, c, maxRetries);
    if PlaceAfterRead(s.world.keys, s.clients[c].at).Idle? { RefusalIsScript(s, c, maxRetries); }
    var a := Moved(s, Read(c), maxRetries);
    ms, t := LastMoves(a, c, op, maxRetries);
    LeadsBefore(s, Read(c), ms, t, maxRetries);
    assert [Read(c)] + [] == [Read(c)] && [Read(c)] + [Exec(c, false)] == [Read(c), Exec(c, false)];
    ms := [Read(c)] + ms;
  }

  /** Undisturbed, one attempt is enough: it does what the script would do, and ends. */
  lemma UndisturbedIsScript(s: System, c: nat, op: Op, maxRetries: nat) returns (ms: seq<Move>, t: System)
    requires SystemOk(s, maxRetries) && CanMove(s, Watch(c, op))
    ensures IsAttempt(ms, c, op) && Leads(s, ms, t, maxRetries)
    ensures DoneAs(s.world.keys, t, c, op, maxRetries)
  {
    WatchMoves(s, c, op, maxRetries);
    var a := Moved(s, Watch(c, op), maxRetries);
    ReadMoves(a, c, maxRetries);
    if PlaceAfterRead(a.world.keys, a.clients[c].at).Idle? { RefusalIsScript(a, c, maxRetries); }
    var b := Moved(a, Read(c), maxRetries);
    if b.clients[c].at.Checked? {
      ms, t := ReadsOn(b, c, op, maxRetries);
    } else {
      ms, t := LastMoves(b, c, op, maxRetries);
    }
    LeadsBefore(a, Read(c), ms, t, maxRetries);
    LeadsBefore(s, Watch(c, op), [Read(c)] + ms, t, maxRetries);
    AttemptShape(c, op, ms);
    ms := [Watch(c, op)] + ([Read(c)] + ms);
  }

  // ----- Whole runs -----

  ghost predicate IsSystemRun(ss: seq<System>, ms: seq<Move>, maxRetries: nat) {
    && |ss| == |ms| + 1
    && SystemOk(ss[0], maxRetries)
    && forall k :: 0 <= k < |ms| ==> CanMove(ss[k], ms[k]) && ss[k + 1] == Moved(ss[k], ms[k], maxRetries)
  }

  /** State by state the mixed run goes through the states of the script run, and move by move it does
      nothing or takes the next step of it: `at` says which state of the script run each state is. */
  ghost predicate Follows(ss: seq<System>, ms: seq<Move>, n: nat, ws: seq<World>, es: seq<Event>, at: seq<nat>)
    requires n <= |ms| < |ss|
  {
    && |at| == n + 1 && |ws| == |es| + 1 && at[0] == 0 && at[n] == |es|
    && (forall k {:trigger at[k]} :: 0 <= k <= n ==> at[k] <= |es| && ws[at[k]] == ss[k].world)
    && (forall k {:trigger ScriptBy(ss[k], ms[k])} :: 0 <= k < n ==>
          match ScriptBy(ss[k], ms[k])
          case None => at[k + 1] == at[k]
          case Some(e) => at[k + 1] == at[k] + 1 && at[k] < |es| && es[at[k]] == e)
  }

  /** Every run of the mixed system is, keys for keys and script for script, a run of the scripts alone. */
  lemma {:induction false} Refines(ss: seq<System>, ms: seq<Move>, maxRetries: nat, n: nat)
    returns (ws: seq<World>, es: seq<Event>, at: seq<nat>)
    requires IsSystemRun(ss, ms, maxRetries) && n <= |ms|
    ensures IsRun(ws, es, maxRetries) && Follows(ss, ms, n, ws, es, at)
    ensures SystemOk(ss[n], maxRetries)
  {
    if n == 0 {
      ws, es, at := [ss[0].world], [], [0];
    } else {
      ws, es, at := Refines(ss, ms, maxRetries, n - 1);
      var s, m := ss[n - 1], ms[n - 1];
      MoveIsScript(s, m, maxRetries);
      if ScriptBy(s, m).None? {
        QuietMove(ss, ms, n - 1, ws, es, at);
        at := at + [|es|];
      } else {
        var e := ScriptBy(s, m).value;
        ScriptMove(ss, ms, n - 1, ws, es, at, e);
        ExtendRun(ws, es, maxRetries, e);
        ws, es, at := ws + [ss[n].world], es + [e], at + [|es| + 1];
      }
    }
  }

  lemma QuietMove(ss: seq<System>, ms: seq<Move>, n: nat, ws: seq<World>, es: seq<Event>, at: seq<nat>)
    requires n < |ms| < |ss|
    ensures Follows(ss, ms, n, ws, es, at) && ScriptBy(ss[n], ms[n]) == None && ss[n + 1].world == ss[n].world ==>
              Follows(ss, ms, n + 1, ws, es, at + [|es|])
  {
    var longer := at + [|es|];
    assert Follows(ss, ms, n, ws, es, at) ==> forall k :: 0 <= k <= n ==> longer[k] == at[k];
  }

  lemma ScriptMove(ss: seq<System>, ms: seq<Move>, n: nat, ws: seq<World>, es: seq<Event>, at: seq<nat>, e: Event)
    requires n < |ms| < |ss|
    ensures Follows(ss, ms, n, ws, es, at) && ScriptBy(ss[n], ms[n]) == Some(e) ==>
              Follows(ss, ms, n + 1, ws + [ss[n + 1].world], es + [e], at + [|es| + 1])
  {
    var longer := at + [|es| + 1];
    assert Follows(ss, ms, n, ws, es, at) ==> forall k :: 0 <= k <= n ==> longer[k] == at[k];
  }

  /** How often job `j` was put back in the queue by recovery, by script or by EXEC, in the first `n` moves. */
  ghost function MixedRetries(ss: seq<System>, ms: seq<Move>, maxRetries: nat, n: nat, j: JobId): nat
    requires n <= |ms| < |ss|
  {
    if n == 0 then 0
    else
      var e := ScriptBy(ss[n - 1], ms[n - 1]);
      MixedRetries(ss, ms, maxRetries, n - 1, j) +
      if e.Some? && e.value.Recover? && e.value.job == j
         && RecoveryOf(ss[n - 1].world.keys, j, e.value.now, maxRetries) == ToQueue then 1 else 0
  }

  lemma {:induction false} SameRetries(ss: seq<System>, ms: seq<Move>, maxRetries: nat, n: nat, j: JobId,
                                       ws: seq<World>, es: seq<Event>, at: seq<nat>, k: nat)
    requires k <= n <= |ms| < |ss|
    ensures Follows(ss, ms, n, ws, es, at) ==> MixedRetries(ss, ms, maxRetries, k, j) == Retries(ws, es, maxRetries, at[k], j)
  {
    if k > 0 && Follows(ss, ms, n, ws, es, at) {
      SameRetries(ss, ms, maxRetries, n, j, ws, es, at, k - 1);
      assert ws[at[k - 1]] == ss[k - 1].world;
      assert ScriptBy(ss[k - 1], ms[k - 1]).None? ==> at[k] == at[k - 1];
    }
  }

  /** So the bound on retries holds for scripts and fallbacks together. */
  lemma MixedRetriesBounded(ss: seq<System>, ms: seq<Move>, maxRetries: nat, n: nat, j: JobId)
    requires n <= |ms| < |ss|
    ensures IsSystemRun(ss, ms, maxRetries) && j !in ss[0].world.born ==> MixedRetries(ss, ms, maxRetries, n, j) <= maxRetries
  {
    if IsSystemRun(ss, ms, maxRetries) && j !in ss[0].world.born {
      var ws, es, at := Refines(ss, ms, maxRetries, n);
      assert ws[at[0]] == ss[0].world;
      SameRetries(ss, ms, maxRetries, n, j, ws, es, at, n);
      RetriesBounded(ws, es, maxRetries, at[n], j);
    }
  }

  lemma ExtendRun(ws: seq<World>, es: seq<Event>, maxRetries: nat, e: Event)
    requires IsRun(ws, es, maxRetries) && Enabled(ws[|es|], e)
    ensures IsRun(ws + [After(ws[|es|], e, maxRetries)], es + [e], maxRetries)
  {
    var ws', es' := ws + [After(ws[|es|], e, maxRetries)], es + [e];
    forall k | 0 <= k < |es'|
      ensures Enabled(ws'[k], es'[k]) && ws'[k + 1] == After(ws'[k], es'[k], maxRetries)
    {
      if k < |es| { assert ws'[k] == ws[k] && ws'[k + 1] == ws[k + 1]; }
    }
  }
}
