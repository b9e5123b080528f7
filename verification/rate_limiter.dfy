/**
  A sliding-window rate limiter: for every user it keeps the times at which
  that user's requests were admitted, and admits a new request only while
  fewer than `maxRequests` admissions lie inside the trailing window.

  The wall clock becomes an explicit integer `now`; the lock that makes one
  call atomic becomes the atomicity of one method call.
*/
module RateLimit {

  type UserId = string

  /** Timestamps in non-decreasing order. */
  ghost predicate Sorted(log: seq<int>) {
    forall i, j :: 0 <= i < j < |log| ==> log[i] <= log[j]
  }

  /** The number of live admissions a user may hold: a non-positive maximum admits nothing. */
  function Quota(maxRequests: int): nat {
    if maxRequests < 0 then 0 else maxRequests
  }

  /** The log with every entry at least `window` old at time `now` removed. */
  function Prune(log: seq<int>, now: int, window: int): (live: seq<int>)
    ensures forall t :: t in live ==> t in log && now - t < window
    ensures forall t :: t in log && now - t < window ==> t in live
    ensures |live| <= |log|
    ensures forall t :: multiset(live)[t] == if now - t < window then multiset(log)[t] else 0
  {
    if log == [] then []
    else
      assert log == [log[0]] + log[1..];
      if now - log[0] < window then [log[0]] + Prune(log[1..], now, window)
      else Prune(log[1..], now, window)
  }

  /** Outcome of one admission check on one user's log. */
  datatype Decision = Decision(allowed: bool, log: seq<int>)

  /** One admission check: prune, then admit and record `now` while under the maximum. */
  function Decide(log: seq<int>, now: int, maxRequests: int, window: int): Decision {
    var live := Prune(log, now, window);
    if |live| < maxRequests then Decision(true, live + [now]) else Decision(false, live)
  }

  /** The outcomes of a sequence of checks on one user's log, and the log they leave. */
  datatype Trace = Trace(outcomes: seq<bool>, log: seq<int>)

  function Run(log: seq<int>, times: seq<int>, maxRequests: int, window: int): (tr: Trace)
    ensures |tr.outcomes| == |times|
    decreases |times|
  {
    if times == [] then Trace([], log)
    else
      var d := Decide(log, times[0], maxRequests, window);
      var rest := Run(d.log, times[1..], maxRequests, window);
      Trace([d.allowed] + rest.outcomes, rest.log)
  }

  /** Number of admissions among a sequence of outcomes. */
  function Admitted(outcomes: seq<bool>): nat {
    if outcomes == [] then 0
    else (if outcomes[0] then 1 else 0) + Admitted(outcomes[1..])
  }

  /** Every timestamp of the log is at most `now`: the clock has not gone backwards. */
  ghost predicate NotAfter(log: seq<int>, now: int) {
    forall t :: t in log ==> t <= now
  }

  /** The safety invariant: a log within the quota stays within it, sorted, and
      not after the clock, whatever the check decides. */
  lemma DecideKeepsInvariant(log: seq<int>, now: int, maxRequests: int, window: int)
    requires |log| <= Quota(maxRequests) && Sorted(log) && NotAfter(log, now)
    ensures var d := Decide(log, now, maxRequests, window);
            |d.log| <= Quota(maxRequests) && Sorted(d.log) && NotAfter(d.log, now)
  {
    var live := Prune(log, now, window);
    PruneKeepsOrder(log, now, window);
    if |live| < maxRequests {
      assert forall i :: 0 <= i < |live| ==> live[i] in live;
    }
  }

  /** An unseen user (empty log) is admitted whenever the maximum is positive. */
  lemma {:induction false} FirstRequestAdmitted(now: int, maxRequests: int, window: int)
    requires maxRequests > 0
    ensures Decide([], now, maxRequests, window) == Decision(true, [now])
  {
  }

  /** On a sorted log pruning only trims a prefix: the live entries form a suffix, and
      every entry before it has expired. */
  lemma {:induction false} PruneSortedIsSuffix(log: seq<int>, now: int, window: int)
    requires Sorted(log)
    ensures exists k :: 0 <= k <= |log| && Prune(log, now, window) == log[k..]
                     && forall i :: 0 <= i < k ==> now - log[i] >= window
    decreases |log|
  {
    if log == [] {
      assert Prune(log, now, window) == log[0..];
    } else if now - log[0] < window {
      forall t | t in log ensures now - t < window {
        var i :| 0 <= i < |log| && log[i] == t;
      }
      PruneKeepsLive(log, now, window);
      assert Prune(log, now, window) == log[0..];
    } else {
      PruneSortedIsSuffix(log[1..], now, window);
      var k :| 0 <= k <= |log[1..]| && Prune(log[1..], now, window) == log[1..][k..];
      assert log[1..][k..] == log[k + 1..];
    }
  }

  /** Pruning a sorted log leaves it sorted. */
  lemma {:induction false} PruneKeepsOrder(log: seq<int>, now: int, window: int)
    requires Sorted(log)
    ensures Sorted(Prune(log, now, window))
    decreases |log|
  {
    if log != [] {
      PruneKeepsOrder(log[1..], now, window);
      var rest := Prune(log[1..], now, window);
      forall t | t in rest ensures log[0] <= t {
        var i :| 0 <= i < |log[1..]| && log[1..][i] == t;
        assert log[i + 1] == t;
      }
      if now - log[0] < window {
        var live := [log[0]] + rest;
        forall i, j | 0 <= i < j < |live| ensures live[i] <= live[j] {
          if i > 0 {
            assert live[i] == rest[i - 1] && live[j] == rest[j - 1];
          } else {
            assert live[j] in rest;
          }
        }
      }
    }
  }

  /** A log whose every entry is younger than the window loses nothing. */
  lemma {:induction false} PruneKeepsLive(log: seq<int>, now: int, window: int)
    requires forall t :: t in log ==> now - t < window
    ensures Prune(log, now, window) == log
    decreases |log|
  {
    if log != [] {
      assert log[0] in log;
      assert forall t :: t in log[1..] ==> t in log;
      PruneKeepsLive(log[1..], now, window);
      assert [log[0]] + log[1..] == log;
    }
  }

  /** A log whose every entry is at least a window old is emptied, so an entry exactly
      `window` old frees its slot. */
  lemma {:induction false} PruneDropsExpired(log: seq<int>, now: int, window: int)
    requires forall t :: t in log ==> now - t >= window
    ensures Prune(log, now, window) == []
    decreases |log|
  {
    if log != [] {
      assert log[0] in log;
      assert forall t :: t in log[1..] ==> t in log;
      PruneDropsExpired(log[1..], now, window);
    }
  }

  /** After the quota is filled, waiting exactly `window` past the newest admission
      makes the next request succeed again. */
  lemma ExpiredLogAdmits(log: seq<int>, now: int, maxRequests: int, window: int)
    requires maxRequests > 0
    requires forall t :: t in log ==> t <= now - window
    ensures Decide(log, now, maxRequests, window) == Decision(true, [now])
  {
    PruneDropsExpired(log, now, window);
  }

  /** The log of `n` admissions all made at time `now`. */
  function Burst(now: int, n: nat): (log: seq<int>)
    ensures |log| == n && forall t :: t in log ==> t == now
  {
    seq(n, _ => now)
  }

  /** A burst of `n` checks at one instant, on a log already holding `m` entries made at
      that instant, admits exactly as many requests as the quota has room for. Starting
      from an empty log, `n >= maxRequests` simultaneous calls admit exactly `maxRequests`
      and deny the rest: no count is lost or duplicated. */
  lemma {:induction false} BurstAdmitsRemainingQuota(now: int, m: nat, n: nat, maxRequests: int, window: int)
    requires window > 0
    requires m <= Quota(maxRequests)
    ensures var tr := Run(Burst(now, m), Burst(now, n), maxRequests, window);
            && Admitted(tr.outcomes) == (if n <= Quota(maxRequests) - m then n else Quota(maxRequests) - m)
            && |tr.log| == m + Admitted(tr.outcomes)
    decreases n
  {
    if n > 0 {
      var log := Burst(now, m);
      PruneKeepsLive(log, now, window);
      assert Burst(now, n)[0] == now;
      assert Burst(now, n)[1..] == Burst(now, n - 1);
      var d := Decide(log, now, maxRequests, window);
      var tr := Run(log, Burst(now, n), maxRequests, window);
      if m < Quota(maxRequests) {
        assert d.log == Burst(now, m + 1);
        BurstAdmitsRemainingQuota(now, m + 1, n - 1, maxRequests, window);
      } else {
        assert d.log == log;
        BurstAdmitsRemainingQuota(now, m, n - 1, maxRequests, window);
      }
      assert tr.outcomes == [d.allowed] + Run(d.log, Burst(now, n - 1), maxRequests, window).outcomes;
      assert tr.outcomes[1..] == Run(d.log, Burst(now, n - 1), maxRequests, window).outcomes;
    }
  }

  /** Any sequence of non-decreasing checks keeps the log within the quota. */
  lemma {:induction false} RunKeepsQuota(log: seq<int>, times: seq<int>, maxRequests: int, window: int)
    requires |log| <= Quota(maxRequests) && Sorted(log)
    requires times != [] ==> NotAfter(log, times[0])
    requires forall i, j :: 0 <= i < j < |times| ==> times[i] <= times[j]
    ensures var tr := Run(log, times, maxRequests, window);
            |tr.log| <= Quota(maxRequests) && Sorted(tr.log)
    decreases |times|
  {
    if times != [] {
      DecideKeepsInvariant(log, times[0], maxRequests, window);
      var d := Decide(log, times[0], maxRequests, window);
      if |times| > 1 {
        assert NotAfter(d.log, times[1]);
      }
      RunKeepsQuota(d.log, times[1..], maxRequests, window);
    }
  }

  /** Five requests per sixty seconds, one request every ten seconds: the calls at 0,
      10, 20, 30 and 40 are admitted one after the other. */
  lemma SampleScheduleFills()
    ensures Decide([], 0, 5, 60) == Decision(true, [0])
    ensures Decide([0], 10, 5, 60) == Decision(true, [0, 10])
    ensures Decide([0, 10], 20, 5, 60) == Decision(true, [0, 10, 20])
    ensures Decide([0, 10, 20], 30, 5, 60) == Decision(true, [0, 10, 20, 30])
    ensures Decide([0, 10, 20, 30], 40, 5, 60) == Decision(true, [0, 10, 20, 30, 40])
  {
    PruneKeepsLive([0], 10, 60);
    PruneKeepsLive([0, 10], 20, 60);
    PruneKeepsLive([0, 10, 20], 30, 60);
    PruneKeepsLive([0, 10, 20, 30], 40, 60);
  }

  /** The sixth call, at 50, finds all five admissions still live: it is denied and
      leaves the log as it was. */
  lemma SampleScheduleDenies()
    ensures Decide([0, 10, 20, 30, 40], 50, 5, 60) == Decision(false, [0, 10, 20, 30, 40])
  {
    PruneKeepsLive([0, 10, 20, 30, 40], 50, 60);
  }

  /** One request every twelve seconds: after the admissions at 0, 12, 24, 36 and 48, the
      sixth call, at 60, is admitted, because the entry made at 0 is exactly sixty old
      and has expired. */
  lemma SampleScheduleExpiry()
    ensures Decide([0, 12, 24, 36, 48], 60, 5, 60) == Decision(true, [12, 24, 36, 48, 60])
  {
    assert Prune([0, 12, 24, 36, 48], 60, 60) == [12, 24, 36, 48];
  }

  /** The limiter: two fixed settings and, per user, the log of live admissions. */
  class RateLimiter {
    const maxRequests: int
    const window: int
    var requests: map<UserId, seq<int>>

    /** Every user's log is sorted and holds at most the quota of admissions. */
    ghost predicate Valid()
      reads this
    {
      forall u :: u in requests ==> |requests[u]| <= Quota(maxRequests) && Sorted(requests[u])
    }

    /** A user's current log; a user not yet seen has an empty one. */
    function Log(user: UserId): seq<int>
      reads this
    {
      if user in requests then requests[user] else []
    }

    constructor (maxRequests: int, window: int)
      ensures this.maxRequests == maxRequests && this.window == window
      ensures requests == map[]
      ensures Valid()
    {
      this.maxRequests := maxRequests;
      this.window := window;
      requests := map[];
    }

    /** Decides one request of `user` at time `now`. Only that user's entry changes,
        and it changes exactly as `Decide` says. */
    method AllowRequest(user: UserId, now: int) returns (allowed: bool)
      requires Valid()
      requires NotAfter(Log(user), now)
      modifies this
      ensures Valid()
      ensures user in requests
      ensures Decision(allowed, requests[user]) == Decide(old(Log(user)), now, maxRequests, window)
      ensures allowed <==> |Prune(old(Log(user)), now, window)| < maxRequests
      ensures allowed ==> requests[user] == Prune(old(Log(user)), now, window) + [now]
      ensures !allowed ==> requests[user] == Prune(old(Log(user)), now, window)
      ensures forall t :: t in requests[user] ==> now - t < window || t == now
      ensures requests.Keys == old(requests.Keys) + {user}
      ensures forall u :: u in old(requests) && u != user ==> requests[u] == old(requests[u])
      ensures NotAfter(Log(user), now)
    {
      if user !in requests {
        requests := requests[user := []];
      }
      requests := requests[user := Prune(requests[user], now, window)];
      if |requests[user]| < maxRequests {
        requests := requests[user := requests[user] + [now]];
        allowed := true;
      } else {
        allowed := false;
      }
      DecideKeepsInvariant(old(Log(user)), now, maxRequests, window);
    }
  }

  /** Two users on one limiter of one request per sixty seconds: the first user's second
      request inside the window is denied, that saturation does not deny the second user
      at the same moment, and the first user is admitted again exactly sixty after the
      first admission. */
  method SaturationStaysPerUser() returns (outcomes: seq<bool>)
    ensures outcomes == [true, false, true, true]
  {
    var limiter := new RateLimiter(1, 60);
    var a := limiter.AllowRequest("user1", 0);
    var b := limiter.AllowRequest("user1", 1);
    var c := limiter.AllowRequest("user2", 1);
    var d := limiter.AllowRequest("user1", 60);
    outcomes := [a, b, c, d];
  }
}
