/** The behaviours exercised in test/rateLimiter.test.js, replayed against
    a fresh limiter through the contracts of its operations. Every check of
    a burst happens at the same instant `t`. */
module Scenarios {
  import opened Settings
  import opened Window
  import opened Store
  import opened Limiter

  /** `n` copies of the instant `t`. */
  function Repeat(t: int, n: nat): (s: seq<int>)
    ensures |s| == n && forall i :: 0 <= i < n ==> s[i] == t
  {
    seq(n, _ => t)
  }

  /** The results a burst of `n` checks at one instant reports on a key
      with no history and quota `limit`, whose window ends at `reset`. */
  function Expected(n: nat, limit: nat, reset: int): (s: seq<CheckResult>)
    ensures |s| == n
    ensures forall j :: 0 <= j < n ==>
      s[j] == CheckResult(j < limit, if j < limit then limit - j - 1 else 0, reset)
  {
    if n == 0 then []
    else
      var j := n - 1;
      Expected(j, limit, reset) + [CheckResult(j < limit, if j < limit then limit - j - 1 else 0, reset)]
  }

  /** A check at `t` of an entry whose `n` timestamps (no more than its
      limit) were all recorded at `t`: admitted while `n` is under the limit,
      and the reset instant is a full window after `t` either way. */
  lemma RepeatedCheck(e: Entry, t: int, n: nat)
    requires e.windowMs > 0 && n <= e.limit
    requires e.timestamps == Repeat(t, n)
    ensures Check(e, t) == Checked(
      e.(timestamps := Repeat(t, Min(n + 1, e.limit)), lastAccess := t),
      CheckResult(n < e.limit, if n < e.limit then e.limit - n - 1 else 0, t + e.windowMs))
  {
    PruneAllLive(e.timestamps, t, e.windowMs);
    if n < e.limit {
      assert Repeat(t, n) + [t] == Repeat(t, n + 1);
    }
    if n > 0 {
      assert Earliest(e.timestamps) in e.timestamps;
    }
  }

  /** With default quota 3 per second: three checks are admitted with 2, 1
      and 0 remaining, the fourth is denied, and once the window has passed
      (1100 ms later) a check is admitted again with 2 remaining. */
  method BurstBlockAndRecovery(t: int) returns (results: seq<CheckResult>)
    ensures results == Expected(4, 3, t + 1000) + [CheckResult(true, 2, t + 2100)]
  {
    var rl := new RateLimiter();
    var ok := rl.SetDefaultConfig(3, 1000);
    var key := "user1";
    results := [];
    assert Repeat(t, 0) == [];
    for i := 0 to 4
      invariant rl.Valid() && rl.defaultConfig == Config(3, 1000)
      invariant Resolve(rl.limits, key, rl.defaultConfig, t) == Entry(3, 1000, Repeat(t, Min(i, 3)), t)
      invariant results == Expected(i, 3, t + 1000)
    {
      RepeatedCheck(Resolve(rl.limits, key, rl.defaultConfig, t), t, Min(i, 3));
      var res := rl.CheckLimit(key, t);
      results := results + [res];
    }
    PruneNoneLive(Repeat(t, 3), t + 1100, 1000);
    var res := rl.CheckLimit(key, t + 1100);
    results := results + [res];
  }

  /** A key given its own quota of 5 per 2 seconds admits five checks, with
      4 down to 0 remaining, and denies the sixth, whatever the default. */
  method ReconfiguredKey(t: int) returns (results: seq<CheckResult>)
    ensures |results| == 6
    ensures forall j :: 0 <= j < 5 ==> results[j].allowed && results[j].remaining == 4 - j
    ensures !results[5].allowed && results[5].remaining == 0
  {
    var rl := new RateLimiter();
    var ok := rl.SetDefaultConfig(3, 1000);
    var key := "user4";
    ok := rl.UpdateLimit(key, 5, 2000, t);
    results := [];
    assert Repeat(t, 0) == [];
    for i := 0 to 6
      invariant rl.Valid()
      invariant Resolve(rl.limits, key, rl.defaultConfig, t) == Entry(5, 2000, Repeat(t, Min(i, 5)), t)
      invariant results == Expected(i, 5, t + 2000)
    {
      RepeatedCheck(Resolve(rl.limits, key, rl.defaultConfig, t), t, Min(i, 5));
      var res := rl.CheckLimit(key, t);
      results := results + [res];
    }
  }

  /** After one admitted check, the status snapshot at the same instant
      reports one action in use and two remaining under quota 3. */
  method SnapshotAfterOneCheck(t: int) returns (status: map<string, Usage>)
    ensures "user5" in status
    ensures status["user5"].currentUsage == 1 && status["user5"].remaining == 2
  {
    var rl := new RateLimiter();
    var ok := rl.SetDefaultConfig(3, 1000);
    var res := rl.CheckLimit("user5", t);
    PruneAllLive([t], t, 1000);
    status := rl.GetAllLimits(t);
  }

  /** A key checked once and then left alone for 2200 ms (more than twice
      its one-second window) is evicted by the sweep and no longer shows in
      the status snapshot. */
  method IdleKeyEvicted(t: int) returns (evicted: nat, status: map<string, Usage>)
    ensures evicted == 1
    ensures "user6" !in status
  {
    var rl := new RateLimiter();
    var ok := rl.SetDefaultConfig(3, 1000);
    var res := rl.CheckLimit("user6", t);
    PruneNoneLive([t], t + 2200, 1000);
    evicted := rl.CleanupExpired(t + 2200);
    assert rl.limits.Keys == {};
    assert map["user6" := Entry(3, 1000, [t], t)].Keys - rl.limits.Keys == {"user6"};
    status := rl.GetAllLimits(t + 2200);
  }

  /** Setting the default to 7 per 5 seconds is read back exactly; quotas
      with a zero limit or a zero window are rejected, by both the default
      and the per-key setter, and change nothing. */
  method ConfigValidation(now: int) returns (read: Config, outcomes: seq<Outcome>, status: map<string, Usage>)
    ensures read == Config(7, 5000)
    ensures outcomes == [Invalid(LimitNotPositive), Invalid(WindowNotPositive),
                         Invalid(LimitNotPositive), Invalid(WindowNotPositive)]
    ensures status == map[]
  {
    var rl := new RateLimiter();
    var ok := rl.SetDefaultConfig(7, 5000);
    read := rl.GetDefaultConfig();
    var a := rl.SetDefaultConfig(0, 1000);
    var b := rl.SetDefaultConfig(5, 0);
    var c := rl.UpdateLimit("user7", 0, 1000, now);
    var d := rl.UpdateLimit("user7", 5, 0, now);
    outcomes := [a, b, c, d];
    status := rl.GetAllLimits(now);
  }
}
