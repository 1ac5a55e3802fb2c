/** The sliding-window limiter: a pruned queue of recent times per client, against a limiter that
    remembers every request it ever accepted. */
module RateLimiter {
  import opened Options

  const WINDOW := 60.0
  const MAX_TRACKED_IPS := 10000

  datatype Request = Request(ip: string, now: real)

  // ----- The limiter that forgets nothing -----

  /** How many of the times fall in the window `(now - 60, now]`. */
  function CountIn(times: seq<real>, now: real): nat {
    if times == [] then 0
    else CountIn(times[..|times| - 1], now) + if now - WINDOW < times[|times| - 1] <= now then 1 else 0
  }

  /** The positions of the times in the 60 seconds up to `now`. */
  function InWindow(times: seq<real>, now: real): set<nat> {
    set i: nat | i < |times| && now - 60.0 < times[i] <= now
  }

  lemma {:induction false} CountIsSize(times: seq<real>, now: real)
    ensures CountIn(times, now) == |InWindow(times, now)|
  {
    if times != [] {
      var front, n := times[..|times| - 1], |times| - 1;
      CountIsSize(front, now);
      assert InWindow(times, now) == InWindow(front, now) + if now - 60.0 < times[n] <= now then {n} else {};
    }
  }

  /** A request is accepted when fewer than `limit` requests of its client were accepted in the window. */
  predicate Admits(limit: nat, log: seq<Request>, ip: string, now: real) {
    CountIn(Accepted(limit, log, ip), now) < limit
  }

  /** The times at which requests of `ip` were accepted, oldest first. */
  function Accepted(limit: nat, log: seq<Request>, ip: string): seq<real>
    decreases |log|, 0
  {
    if log == [] then []
    else
      var before, r := log[..|log| - 1], log[|log| - 1];
      if r.ip == ip && CountIn(Accepted(limit, before, ip), r.now) < limit
      then Accepted(limit, before, ip) + [r.now]
      else Accepted(limit, before, ip)
  }

  /** The clock never goes back. */
  predicate InTimeOrder(log: seq<Request>) {
    forall i, j :: 0 <= i < j < |log| ==> log[i].now <= log[j].now
  }

  predicate NoLaterThan(log: seq<Request>, now: real) {
    forall i :: 0 <= i < |log| ==> log[i].now <= now
  }

  predicate Sorted(times: seq<real>) {
    forall i, j :: 0 <= i <= j < |times| ==> times[i] <= times[j]
  }

  /** Any `limit + 1` accepted requests in a row span a whole window. */
  predicate Spaced(limit: nat, times: seq<real>) {
    forall i :: 0 <= i < |times| - limit ==> times[i] + WINDOW <= times[i + limit]
  }

  /** Times outside positions `lo..hi` do not count. */
  lemma {:induction false} CountAtMost(times: seq<real>, now: real, lo: nat, hi: nat)
    requires lo <= hi
    requires forall i :: 0 <= i < |times| && !(lo <= i < hi) ==> !(now - WINDOW < times[i] <= now)
    ensures CountIn(times, now) <= (if |times| < hi then |times| else hi) - (if |times| < lo then |times| else lo)
  {
    if times != [] { CountAtMost(times[..|times| - 1], now, lo, hi); }
  }

  lemma {:induction false} CountFrom(times: seq<real>, now: real, lo: nat)
    requires lo <= |times| && forall i :: lo <= i < |times| ==> now - WINDOW < times[i] <= now
    ensures CountIn(times, now) >= |times| - lo
  {
    if lo < |times| { CountFrom(times[..|times| - 1], now, lo); }
  }

  /** Accepting a time that finds room in its window keeps the times in order and spaced. */
  lemma AppendKeepsShape(limit: nat, h: seq<real>, now: real)
    requires Sorted(h) && Spaced(limit, h) && CountIn(h, now) < limit
    requires forall i :: 0 <= i < |h| ==> h[i] <= now
    ensures Sorted(h + [now]) && Spaced(limit, h + [now])
  {
    if |h| >= limit {
      if now - WINDOW < h[|h| - limit] {
        CountFrom(h, now, |h| - limit);
        assert false;
      }
      forall i | 0 <= i < |h + [now]| - limit
        ensures (h + [now])[i] + WINDOW <= (h + [now])[i + limit]
      {
        if i < |h| - limit {
          assert h[i] + WINDOW <= h[i + limit];
        }
      }
    }
  }

  /** The accepted times are in order, and the limit is kept in every window. */
  lemma {:induction false} AcceptedShape(limit: nat, log: seq<Request>, ip: string, now: real)
    requires InTimeOrder(log) && NoLaterThan(log, now)
    ensures var h := Accepted(limit, log, ip);
            Sorted(h) && Spaced(limit, h) && forall i :: 0 <= i < |h| ==> h[i] <= now
    decreases |log|
  {
    if log != [] {
      var before, r := log[..|log| - 1], log[|log| - 1];
      AcceptedShape(limit, before, ip, r.now);
      if Admits(limit, before, ip, r.now) {
        AppendKeepsShape(limit, Accepted(limit, before, ip), r.now);
      }
    }
  }

  /** Spaced times never put more than the limit in one window. */
  lemma {:induction false} SpacedCount(limit: nat, h: seq<real>, t: real, lo: nat)
    requires Sorted(h) && Spaced(limit, h) && lo <= |h|
    requires forall i :: 0 <= i < lo ==> h[i] <= t - WINDOW
    ensures CountIn(h, t) <= limit
    decreases |h| - lo
  {
    if lo < |h| && h[lo] <= t - WINDOW {
      SpacedCount(limit, h, t, lo + 1);
    } else {
      forall i | lo + limit <= i < |h|
        ensures t < h[i]
      {
        assert h[lo] + WINDOW <= h[lo + limit] <= h[i];
      }
      CountAtMost(h, t, lo, lo + limit);
    }
  }

  /** In any run, no window of 60 seconds, wherever it lies, holds more accepted requests of a
      client than the limit. */
  lemma NoWindowOverLimit(limit: nat, log: seq<Request>, ip: string, t: real)
    requires InTimeOrder(log)
    ensures CountIn(Accepted(limit, log, ip), t) == |InWindow(Accepted(limit, log, ip), t)| <= limit
  {
    CountIsSize(Accepted(limit, log, ip), t);
    if log != [] {
      AcceptedShape(limit, log, ip, log[|log| - 1].now);
    }
    SpacedCount(limit, Accepted(limit, log, ip), t, 0);
  }

  /** Requests of other clients change nothing. */
  lemma {:induction false} OthersDoNotMatter(limit: nat, log: seq<Request>, others: seq<Request>, ip: string)
    requires forall r :: r in others ==> r.ip != ip
    ensures Accepted(limit, log + others, ip) == Accepted(limit, log, ip)
    decreases |others|
  {
    if others == [] {
      assert log + others == log;
    } else {
      var front, r := others[..|others| - 1], others[|others| - 1];
      assert log + others == (log + front) + [r];
      assert r in others;
      OthersDoNotMatter(limit, log, front, ip);
    }
  }

  // ----- When a denied client may come back -----

  function Ceil(x: real): int {
    if x.Floor as real == x then x.Floor else x.Floor + 1
  }

  /** The answer to a denied request: seconds until the oldest request in its window leaves it. */
  function RetryAfter(limit: nat, log: seq<Request>, ip: string, now: real): int
    requires 0 < limit <= |Accepted(limit, log, ip)|
  {
    var h := Accepted(limit, log, ip);
    var remaining := Ceil(h[|h| - limit] + WINDOW - now);
    if remaining < 1 then 1 else remaining
  }

  /** The delay is the least whole number of seconds, at least one, after which that request has left the window. */
  lemma RetryIsLeast(limit: nat, log: seq<Request>, ip: string, now: real)
    requires 0 < limit <= |Accepted(limit, log, ip)|
    ensures var h, d := Accepted(limit, log, ip), RetryAfter(limit, log, ip, now);
            && d >= 1 && h[|h| - limit] + 60.0 <= now + d as real
            && (d > 1 ==> now + (d - 1) as real < h[|h| - limit] + 60.0)
  {
  }

  /** A denied request finds exactly the limit in its window, the oldest of them `limit` places from the end. */
  lemma DeniedShape(limit: nat, log: seq<Request>, ip: string, now: real)
    requires 0 < limit && InTimeOrder(log) && NoLaterThan(log, now) && !Admits(limit, log, ip, now)
    ensures var h := Accepted(limit, log, ip);
            && |h| >= limit && now - 60.0 < h[|h| - limit] <= now
            && forall i :: 0 <= i < |h| - limit ==> h[i] <= now - 60.0
  {
    AcceptedShape(limit, log, ip, now);
    var h := Accepted(limit, log, ip);
    CountAtMost(h, now, 0, |h|);
    if h[|h| - limit] <= now - WINDOW {
      CountAtMost(h, now, |h| - limit + 1, |h|);
      assert false;
    }
    forall i | 0 <= i < |h| - limit
      ensures h[i] <= now - WINDOW
    {
      assert h[i] + WINDOW <= h[i + limit] <= now;
    }
  }

  /** A denied client that stays silent is accepted at `t` exactly when the oldest request of its
      window has left it, whatever other clients do meanwhile. The announced delay is between 1
      and 60 seconds and is long enough; a delay of two seconds or more is not a second too long. */
  lemma SilentClientReturns(limit: nat, log: seq<Request>, ip: string, now: real, others: seq<Request>, t: real)
    requires 0 < limit && InTimeOrder(log) && NoLaterThan(log, now) && !Admits(limit, log, ip, now)
    requires now <= t && forall r :: r in others ==> r.ip != ip
    ensures |Accepted(limit, log, ip)| >= limit
    ensures var later := log + [Request(ip, now)] + others;
            var h := Accepted(limit, log, ip);
            && (Admits(limit, later, ip, t) <==> t >= h[|h| - limit] + 60.0)
            && (t >= now + RetryAfter(limit, log, ip, now) as real ==> Admits(limit, later, ip, t))
            && (t <= now + (RetryAfter(limit, log, ip, now) - 1) as real && RetryAfter(limit, log, ip, now) > 1 ==>
                  !Admits(limit, later, ip, t))
    ensures 1 <= RetryAfter(limit, log, ip, now) <= 60
  {
    DeniedShape(limit, log, ip, now);
    AcceptedShape(limit, log, ip, now);
    var h := Accepted(limit, log, ip);
    var denied := log + [Request(ip, now)];
    assert denied[..|log|] == log;
    OthersDoNotMatter(limit, denied, others, ip);
    if t >= h[|h| - limit] + WINDOW {
      CountAtMost(h, t, |h| - limit + 1, |h|);
    } else {
      CountFrom(h, t, |h| - limit);
    }
  }

  // ----- The middleware -----

  /** The queue is what is left of the accepted times after dropping some that are out of the window at `now`. */
  predicate Tracks(h: seq<real>, queue: seq<real>, now: real) {
    && |queue| <= |h|
    && queue == h[|h| - |queue|..]
    && forall i :: 0 <= i < |h| - |queue| ==> h[i] <= now - WINDOW
  }

  function QueueOf(records: map<string, seq<real>>, ip: string): seq<real> {
    if ip in records then records[ip] else []
  }

  /** Drop the times that have left the window. */
  method Evict(queue: seq<real>, windowStart: real, ghost h: seq<real>, ghost now: real) returns (r: seq<real>)
    requires Tracks(h, queue, now) && windowStart == now - WINDOW
    ensures Tracks(h, r, now)
    ensures r == [] || r[0] > windowStart
  {
    r := queue;
    while r != [] && r[0] <= windowStart
      invariant Tracks(h, r, now)
      decreases |r|
    {
      assert h[|h| - |r|..][1..] == h[|h| - |r| + 1..];
      r := r[1..];
    }
  }

  /** A queue evicted at `now` holds exactly the accepted times of the window. */
  lemma QueueIsWindow(limit: nat, log: seq<Request>, ip: string, queue: seq<real>, now: real)
    requires InTimeOrder(log) && NoLaterThan(log, now)
    requires Tracks(Accepted(limit, log, ip), queue, now) && (queue == [] || queue[0] > now - WINDOW)
    ensures |queue| == CountIn(Accepted(limit, log, ip), now) <= limit
    ensures forall i :: 0 <= i < |queue| ==> now - WINDOW < queue[i] <= now
  {
    var h := Accepted(limit, log, ip);
    AcceptedShape(limit, log, ip, now);
    NoWindowOverLimit(limit, log, ip, now);
    forall i | |h| - |queue| <= i < |h|
      ensures now - WINDOW < h[i] <= now
    {
      assert queue[0] == h[|h| - |queue|] <= h[i];
    }
    CountFrom(h, now, |h| - |queue|);
    CountAtMost(h, now, |h| - |queue|, |h|);
  }

  ghost predicate TracksAll(limit: nat, log: seq<Request>, records: map<string, seq<real>>, now: real) {
    forall ip {:trigger QueueOf(records, ip)} :: Tracks(Accepted(limit, log, ip), QueueOf(records, ip), now)
  }

  /** The state kept between requests. */
  ghost predicate Consistent(limit: nat, log: seq<Request>, records: map<string, seq<real>>) {
    && InTimeOrder(log)
    && (log == [] ==> records == map[])
    && (log != [] ==> TracksAll(limit, log, records, log[|log| - 1].now))
  }

  /** Time passing only takes requests out of the window. */
  lemma LaterTracks(limit: nat, log: seq<Request>, records: map<string, seq<real>>, now: real)
    requires Consistent(limit, log, records) && NoLaterThan(log, now)
    ensures TracksAll(limit, log, records, now)
  {
  }

  predicate Stale(queue: seq<real>, windowStart: real) {
    queue == [] || queue[|queue| - 1] <= windowStart
  }

  /** A client whose last accepted request has left the window can be forgotten. */
  lemma ForgettingTracks(limit: nat, log: seq<Request>, records: map<string, seq<real>>, now: real, k: string)
    requires TracksAll(limit, log, records, now) && InTimeOrder(log) && NoLaterThan(log, now)
    requires Stale(QueueOf(records, k), now - WINDOW)
    ensures TracksAll(limit, log, records - {k}, now)
  {
    AcceptedShape(limit, log, k, now);
    forall ip
      ensures Tracks(Accepted(limit, log, ip), QueueOf(records - {k}, ip), now)
    {
      assert Tracks(Accepted(limit, log, ip), QueueOf(records, ip), now);
      assert ip != k ==> QueueOf(records - {k}, ip) == QueueOf(records, ip);
    }
  }

  /** What one more request does to the accepted times. */
  lemma AcceptedAfter(limit: nat, log: seq<Request>, r: Request, ip: string)
    ensures Accepted(limit, log + [r], ip) ==
            if r.ip == ip && Admits(limit, log, ip, r.now) then Accepted(limit, log, ip) + [r.now] else Accepted(limit, log, ip)
  {
    assert (log + [r])[..|log|] == log;
  }

  lemma AppendTracks(h: seq<real>, queue: seq<real>, now: real)
    requires Tracks(h, queue, now)
    ensures Tracks(h + [now], queue + [now], now)
  {
  }

  /** Logging a request and storing its client's queue, with the time appended when it is admitted. */
  lemma StoringTracks(limit: nat, log: seq<Request>, records: map<string, seq<real>>, now: real, ip: string,
                      evicted: seq<real>, stored: seq<real>)
    requires TracksAll(limit, log, records, now) && Tracks(Accepted(limit, log, ip), evicted, now)
    requires stored == if Admits(limit, log, ip, now) then evicted + [now] else evicted
    requires InTimeOrder(log) && NoLaterThan(log, now)
    ensures Consistent(limit, log + [Request(ip, now)], records[ip := stored])
  {
    var records' := records[ip := stored];
    forall other
      ensures Tracks(Accepted(limit, log + [Request(ip, now)], other), QueueOf(records', other), now)
    {
      AcceptedAfter(limit, log, Request(ip, now), other);
      if other == ip {
        AppendTracks(Accepted(limit, log, ip), evicted, now);
      } else {
        assert QueueOf(records', other) == QueueOf(records, other);
      }
    }
  }

  /** The decision on an evicted queue, the delay announced, and the queue to keep. */
  method Decide(queue: seq<real>, now: real, limit: nat, ghost log: seq<Request>, ghost ip: string)
    returns (allowed: bool, retryAfter: int, stored: seq<real>)
    requires 0 < limit && InTimeOrder(log) && NoLaterThan(log, now)
    requires Tracks(Accepted(limit, log, ip), queue, now) && (queue == [] || queue[0] > now - WINDOW)
    ensures allowed <==> Admits(limit, log, ip, now)
    ensures stored == if allowed then queue + [now] else queue
    ensures allowed ==> retryAfter == 0
    ensures !allowed ==> |Accepted(limit, log, ip)| >= limit && retryAfter == RetryAfter(limit, log, ip, now)
  {
    QueueIsWindow(limit, log, ip, queue, now);
    if |queue| >= limit {
      var oldest := queue[0];
      var remaining := oldest + WINDOW - now;
      retryAfter := if Ceil(remaining) < 1 then 1 else Ceil(remaining);
      return false, retryAfter, queue;
    }
    return true, 0, queue + [now];
  }

  class RateLimitMiddleware {
    const rateLimit: Option<nat>
    var records: map<string, seq<real>>
    /** Every request that was checked. */
    ghost var log: seq<Request>

    ghost predicate Valid()
      reads this
    {
      match rateLimit
      case None => log == [] && records == map[]
      case Some(limit) => limit > 0 && Consistent(limit, log, records)
    }

    constructor (rateLimitPerMin: Option<int>)
      ensures Valid() && log == []
      ensures rateLimit == if rateLimitPerMin.Some? && rateLimitPerMin.value > 0 then Some(rateLimitPerMin.value) else None
    {
      rateLimit := if rateLimitPerMin.Some? && rateLimitPerMin.value > 0 then Some(rateLimitPerMin.value) else None;
      records := map[];
      log := [];
    }

    /** Forget clients whose last accepted request has left the window. */
    method PruneStale(windowStart: real, ghost now: real)
      requires rateLimit.Some? && TracksAll(rateLimit.value, log, records, now) && windowStart == now - WINDOW
      requires InTimeOrder(log) && NoLaterThan(log, now)
      modifies this`records
      ensures TracksAll(rateLimit.value, log, records, now)
    {
      var stale := set k | k in records && Stale(records[k], windowStart);
      while stale != {}
        invariant TracksAll(rateLimit.value, log, records, now)
        invariant forall k :: k in stale ==> k in records && Stale(records[k], windowStart)
        decreases stale
      {
        var k :| k in stale;
        ForgettingTracks(rateLimit.value, log, records, now, k);
        records := records - {k};
        stale := stale - {k};
      }
    }

    /** The decision is that of the limiter that forgets nothing, on every request of every run;
        pruning never shows. With the limit switched off everything passes and nothing is kept. */
    method CheckRateLimit(ip: string, now: real) returns (allowed: bool, retryAfter: int)
      requires Valid() && NoLaterThan(log, now)
      modifies this
      ensures Valid()
      ensures rateLimit.None? ==> allowed && retryAfter == 0 && log == old(log) && records == old(records)
      ensures rateLimit.Some? ==>
                && log == old(log) + [Request(ip, now)]
                && (allowed <==> Admits(rateLimit.value, old(log), ip, now))
                && (allowed <==> |InWindow(Accepted(rateLimit.value, old(log), ip), now)| < rateLimit.value)
                && (allowed ==> retryAfter == 0)
                && (!allowed ==>
                      && |Accepted(rateLimit.value, old(log), ip)| >= rateLimit.value
                      && retryAfter == RetryAfter(rateLimit.value, old(log), ip, now))
    {
      if rateLimit.None? || rateLimit.value <= 0 {
        return true, 0;
      }
      CountIsSize(Accepted(rateLimit.value, log, ip), now);
      allowed, retryAfter := CheckWindow(ip, now, rateLimit.value);
    }

    method CheckWindow(ip: string, now: real, limit: nat) returns (allowed: bool, retryAfter: int)
      requires Valid() && NoLaterThan(log, now) && rateLimit == Some(limit)
      modifies this
      ensures Valid() && log == old(log) + [Request(ip, now)]
      ensures allowed <==> Admits(limit, old(log), ip, now)
      ensures allowed ==> retryAfter == 0
      ensures !allowed ==>
                && |Accepted(limit, old(log), ip)| >= limit
                && retryAfter == RetryAfter(limit, old(log), ip, now)
    {
      var windowStart := now - WINDOW;
      LaterTracks(limit, log, records, now);
      if |records| > MAX_TRACKED_IPS {
        PruneStale(windowStart, now);
      }
      var queue := Evict(QueueOf(records, ip), windowStart, Accepted(limit, log, ip), now);
      var stored;
      allowed, retryAfter, stored := Decide(queue, now, limit, log, ip);
      StoringTracks(limit, log, records, now, ip, queue, stored);
      records := records[ip := stored];
      log := log + [Request(ip, now)];
    }
  }
}
