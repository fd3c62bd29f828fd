/**
 * The per-client sliding-window log behind the rate-limiting middleware
 * (internal/middleware/rate_limit.go). For every client address the limiter
 * keeps the times of its recent admitted requests; a request is admitted when
 * fewer than `limit` of them fall inside the last `window`.
 *
 * Times and durations are integers on one clock (Go's `time.Time` and
 * `time.Duration` both count nanoseconds); the current time is a parameter of
 * `Allow` rather than a read of the system clock.
 */
module RateLimit {

  /**
   * The timestamps of `ts` strictly after `windowStart`, in their original
   * order, as the filter loop collects them front to back.
   */
  function Prune(ts: seq<int>, windowStart: int): (r: seq<int>)
    ensures |r| <= |ts|
    ensures forall t :: t in r <==> t in ts && t > windowStart
    ensures forall t :: multiset(r)[t] == if t > windowStart then multiset(ts)[t] else 0
  {
    if ts == [] then []
    else
      var last := ts[|ts| - 1];
      assert ts == ts[..|ts| - 1] + [last];
      assert multiset(ts) == multiset(ts[..|ts| - 1]) + multiset{last};
      Prune(ts[..|ts| - 1], windowStart) + (if last > windowStart then [last] else [])
  }

  /** Pruning a log in two parts prunes each part on its own, keeping their order. */
  lemma {:induction false} PruneConcat(a: seq<int>, b: seq<int>, windowStart: int)
    ensures Prune(a + b, windowStart) == Prune(a, windowStart) + Prune(b, windowStart)
  {
    if b == [] {
      assert a + b == a;
    } else {
      var init := b[..|b| - 1];
      assert (a + b)[..|a + b| - 1] == a + init;
      PruneConcat(a, init, windowStart);
    }
  }

  /** Timestamps in non-decreasing order. */
  ghost predicate Sorted(ts: seq<int>) {
    forall i, j :: 0 <= i < j < |ts| ==> ts[i] <= ts[j]
  }

  /** The log stored for `ip`; an address never seen has an empty log. */
  function LogOf(requests: map<string, seq<int>>, ip: string): seq<int> {
    if ip in requests then requests[ip] else []
  }

  /**
   * One `Allow(ip)` at time `now`: the log for `ip` is pruned to the window
   * and written back; if the pruned log already holds `limit` or more entries
   * the request is refused, otherwise `now` is appended and it is admitted.
   */
  function AllowStep(requests: map<string, seq<int>>, limit: int, window: int, ip: string, now: int)
    : (r: (map<string, seq<int>>, bool))
    ensures r.0.Keys == requests.Keys + {ip}
    ensures |r.0[ip]| <= |LogOf(requests, ip)| + 1
    ensures r.1 ==> 1 <= |r.0[ip]| <= limit && r.0[ip][|r.0[ip]| - 1] == now
    ensures !r.1 ==> |r.0[ip]| >= limit
  {
    var pruned := Prune(LogOf(requests, ip), now - window);
    if |pruned| >= limit then (requests[ip := pruned], false)
    else (requests[ip := pruned + [now]], true)
  }

  /** Pruning never reorders: a sorted log stays sorted. */
  lemma {:induction false} PruneSorted(ts: seq<int>, windowStart: int)
    requires Sorted(ts)
    ensures Sorted(Prune(ts, windowStart))
  {
    if ts != [] {
      var init := ts[..|ts| - 1];
      var last := ts[|ts| - 1];
      assert Sorted(init);
      PruneSorted(init, windowStart);
      var p := Prune(init, windowStart);
      forall t | t in p ensures t <= last {
        var k :| 0 <= k < |init| && init[k] == t;
        assert ts[k] == t;
      }
      var r := Prune(ts, windowStart);
      forall i, j | 0 <= i < j < |r| ensures r[i] <= r[j] {
        if j >= |p| {
          assert r[i] in p;
        }
      }
    }
  }

  /** Admission is refused exactly when the pruned log already holds `limit` entries. */
  lemma AllowDecision(requests: map<string, seq<int>>, limit: int, window: int, ip: string, now: int)
    ensures var (after, allowed) := AllowStep(requests, limit, window, ip, now);
      var pruned := Prune(LogOf(requests, ip), now - window);
      && (!allowed <==> |pruned| >= limit)
      && (allowed ==> after[ip] == pruned + [now])
      && (!allowed ==> after[ip] == pruned)
  {
  }

  /**
   * After `Allow`, every time logged for `ip` lies strictly inside the window,
   * except the admitted `now` itself, which lies inside it whenever the window
   * is positive, so a timestamp exactly `window` old is gone.
   */
  lemma AllowKeepsWindow(requests: map<string, seq<int>>, limit: int, window: int, ip: string, now: int)
    ensures var (after, allowed) := AllowStep(requests, limit, window, ip, now);
      forall t :: t in after[ip] ==> t > now - window || (allowed && t == now)
    ensures window > 0 ==> forall t :: t in AllowStep(requests, limit, window, ip, now).0[ip] ==> t > now - window
  {
  }

  /** Logs of every other address are untouched. */
  lemma AllowIsolatesClients(requests: map<string, seq<int>>, limit: int, window: int, ip: string, now: int, other: string)
    requires other != ip
    ensures var after := AllowStep(requests, limit, window, ip, now).0;
      (other in after <==> other in requests) && (other in requests ==> after[other] == requests[other])
  {
  }

  /** With a limit of zero or less nothing is admitted and `now` is never logged. */
  lemma NonPositiveLimitRefuses(requests: map<string, seq<int>>, limit: int, window: int, ip: string, now: int)
    requires limit <= 0
    ensures !AllowStep(requests, limit, window, ip, now).1
    ensures AllowStep(requests, limit, window, ip, now).0[ip] == Prune(LogOf(requests, ip), now - window)
  {
  }

  /** Every log holds at most `limit` entries. */
  ghost predicate Bounded(requests: map<string, seq<int>>, limit: int) {
    forall ip :: ip in requests ==> |requests[ip]| <= limit
  }

  /** Every log is in time order and holds nothing later than `now`. */
  ghost predicate Chronological(requests: map<string, seq<int>>, now: int) {
    forall ip :: ip in requests ==> Sorted(requests[ip]) && forall t :: t in requests[ip] ==> t <= now
  }

  /** With a non-negative limit, `Allow` keeps every log within the limit. */
  lemma AllowKeepsBound(requests: map<string, seq<int>>, limit: int, window: int, ip: string, now: int)
    requires limit >= 0 && Bounded(requests, limit)
    ensures Bounded(AllowStep(requests, limit, window, ip, now).0, limit)
  {
    assert |LogOf(requests, ip)| <= limit;
  }

  /** With a clock that does not go backwards, `Allow` keeps every log in time order. */
  lemma AllowKeepsOrder(requests: map<string, seq<int>>, limit: int, window: int, ip: string, now: int, later: int)
    requires Chronological(requests, now) && now <= later
    ensures Chronological(AllowStep(requests, limit, window, ip, now).0, later)
  {
    var after := AllowStep(requests, limit, window, ip, now).0;
    AllowedLogChronological(LogOf(requests, ip), limit, now - window, now);
    forall other | other in after
      ensures Sorted(after[other]) && forall t :: t in after[other] ==> t <= later
    {
      if other != ip {
        assert after[other] == requests[other];
      }
    }
  }

  /** The log `Allow` writes back is in time order and ends no later than `now`. */
  lemma AllowedLogChronological(log: seq<int>, limit: int, windowStart: int, now: int)
    requires Sorted(log) && forall t :: t in log ==> t <= now
    ensures var pruned := Prune(log, windowStart);
      && Sorted(pruned) && (forall t :: t in pruned ==> t <= now)
      && (|pruned| < limit ==> Sorted(pruned + [now]) && forall t :: t in pruned + [now] ==> t <= now)
  {
    var pruned := Prune(log, windowStart);
    PruneSorted(log, windowStart);
    var s := pruned + [now];
    forall i, j | 0 <= i < j < |s| ensures s[i] <= s[j] {
      if j == |s| - 1 {
        assert s[i] in log;
      }
    }
  }

  class RateLimiter {
    /** Client address -> times of its recent admitted requests, oldest first. */
    var requests: map<string, seq<int>>
    const limit: int
    const window: int

    constructor (limit: int, window: int)
      ensures this.limit == limit && this.window == window && requests == map[]
    {
      this.limit := limit;
      this.window := window;
      requests := map[];
    }

    /** `Allow`: prunes the log for `ip`, then admits and logs the request if there is room. */
    method Allow(ip: string, now: int) returns (allowed: bool)
      modifies this`requests
      ensures (requests, allowed) == AllowStep(old(requests), limit, window, ip, now)
    {
      var windowStart := now - window;
      var log := if ip in requests then requests[ip] else [];
      var valid := [];
      for i := 0 to |log|
        invariant valid == Prune(log[..i], windowStart)
      {
        assert log[..i + 1][..i] == log[..i];
        if log[i] > windowStart {
          valid := valid + [log[i]];
        }
      }
      assert log[..|log|] == log;
      requests := requests[ip := valid];
      if |valid| >= limit {
        return false;
      }
      requests := requests[ip := valid + [now]];
      assert requests == old(requests)[ip := valid + [now]];
      return true;
    }
  }

}
