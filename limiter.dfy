/** The rate limiter itself: the store of per-key entries and the default
    quota, changed in place by its operations. The clock is the `now`
    parameter of each operation. */
module Limiter {
  import opened Settings
  import opened Window
  import opened Store

  class RateLimiter {
    var limits: map<string, Entry>
    var defaultConfig: Config

    /** Every quota in force, the default and each key's own, is positive. */
    ghost predicate Valid()
      reads this
    {
      && Positive(defaultConfig)
      && forall k :: k in limits ==> limits[k].limit > 0 && limits[k].windowMs > 0
    }

    constructor ()
      ensures Valid()
      ensures limits == map[] && defaultConfig == InitialConfig
    {
      limits := map[];
      defaultConfig := InitialConfig;
    }

    /** Replaces the default quota when both values are positive; otherwise
        rejects the change and leaves everything as it was. Existing
        entries never change. */
    method SetDefaultConfig(limit: int, windowMs: int) returns (r: Outcome)
      requires Valid()
      modifies this
      ensures Valid()
      ensures r == Validate(limit, windowMs)
      ensures r.Ok? ==> defaultConfig == Config(limit, windowMs)
      ensures r.Invalid? ==> defaultConfig == old(defaultConfig)
      ensures limits == old(limits)
    {
      if limit <= 0 {
        return Invalid(LimitNotPositive);
      }
      if windowMs <= 0 {
        return Invalid(WindowNotPositive);
      }
      defaultConfig := Config(limit, windowMs);
      r := Ok;
    }

    /** The default quota, which is always positive. */
    function GetDefaultConfig(): (c: Config)
      reads this
      requires Valid()
      ensures c.limit > 0 && c.windowMs > 0
    {
      defaultConfig
    }

    /** Admits or denies one action for `key` at `now`. A new key gets an
        entry seeded from the current default; the key's entry is then
        refreshed, pruned and, when admitted, records `now`. No other key
        and not the default changes. */
    method CheckLimit(key: string, now: int) returns (res: CheckResult)
      requires Valid()
      modifies this
      ensures Valid()
      ensures defaultConfig == old(defaultConfig)
      ensures var e := Resolve(old(limits), key, old(defaultConfig), now);
        && limits == old(limits)[key := Check(e, now).entry]
        && res == Check(e, now).result
      ensures key !in old(limits) ==> limits[key].limit == old(defaultConfig).limit
                                      && limits[key].windowMs == old(defaultConfig).windowMs
    {
      if key !in limits {
        limits := limits[key := Entry(defaultConfig.limit, defaultConfig.windowMs, [], now)];
      }
      var entry := limits[key];
      entry := entry.(lastAccess := now);
      entry := entry.(timestamps := Prune(entry.timestamps, now, entry.windowMs));
      limits := limits[key := entry];

      var remaining := Max(0, entry.limit - |entry.timestamps|);
      var resetTime := if |entry.timestamps| > 0
                       then Earliest(entry.timestamps) + entry.windowMs
                       else now + entry.windowMs;

      if |entry.timestamps| < entry.limit {
        entry := entry.(timestamps := entry.timestamps + [now]);
        limits := limits[key := entry];
        return CheckResult(true, remaining - 1, resetTime);
      }
      return CheckResult(false, 0, resetTime);
    }

    /** Gives `key` its own quota when both values are positive: an existing
        entry keeps its timestamps and `lastAccess`, a new key gets an entry
        with no history. An invalid quota changes nothing. */
    method UpdateLimit(key: string, newLimit: int, windowMs: int, now: int) returns (r: Outcome)
      requires Valid()
      modifies this
      ensures Valid()
      ensures r == Validate(newLimit, windowMs)
      ensures defaultConfig == old(defaultConfig)
      ensures r.Invalid? ==> limits == old(limits)
      ensures r.Ok? && key in old(limits) ==>
        limits == old(limits)[key := old(limits)[key].(limit := newLimit, windowMs := windowMs)]
      ensures r.Ok? && key !in old(limits) ==>
        limits == old(limits)[key := Entry(newLimit, windowMs, [], now)]
      ensures r.Ok? ==> limits == old(limits)[key := Reconfigure(old(limits), key, newLimit, windowMs, now)]
    {
      if newLimit <= 0 {
        return Invalid(LimitNotPositive);
      }
      if windowMs <= 0 {
        return Invalid(WindowNotPositive);
      }
      if key !in limits {
        limits := limits[key := Entry(newLimit, windowMs, [], now)];
      } else {
        var entry := limits[key];
        entry := entry.(limit := newLimit);
        entry := entry.(windowMs := windowMs);
        limits := limits[key := entry];
      }
      r := Ok;
    }

    /** The usage of every stored key at `now`, without touching the store:
        what still counts, and the quota left. */
    function GetAllLimits(now: int): (r: map<string, Usage>)
      reads this
      requires Valid()
      ensures r.Keys == limits.Keys
      ensures forall k :: k in r ==>
        && r[k].limit == limits[k].limit && r[k].windowMs == limits[k].windowMs
        && r[k].lastAccess == limits[k].lastAccess
        && r[k].currentUsage == |Prune(limits[k].timestamps, now, limits[k].windowMs)|
        && r[k].currentUsage <= |limits[k].timestamps|
        && r[k].remaining == Max(0, r[k].limit - r[k].currentUsage)
        && 0 <= r[k].remaining <= r[k].limit
    {
      Snapshot(limits, now)
    }

    /** The expiry sweep at `now`: prunes every entry and evicts those with
        nothing still counting that have been idle for more than twice their
        window. Returns how many keys it evicted. */
    method CleanupExpired(now: int) returns (evicted: nat)
      requires Valid()
      modifies this
      ensures Valid()
      ensures defaultConfig == old(defaultConfig)
      ensures limits == Swept(old(limits), now)
      ensures evicted == |old(limits).Keys - limits.Keys|
    {
      var pending := limits.Keys;
      var keysToDelete: set<string> := {};
      while pending != {}
        invariant defaultConfig == old(defaultConfig)
        invariant pending <= old(limits).Keys
        invariant limits == PartlyPruned(old(limits), pending, now)
        invariant keysToDelete == FoundExpired(old(limits), pending, now)
        decreases pending
      {
        var key :| key in pending;
        SweepStepPrunes(old(limits), pending, key, now);
        SweepStepNotes(old(limits), pending, key, now);
        var entry := limits[key];
        entry := entry.(timestamps := Prune(entry.timestamps, now, entry.windowMs));
        limits := limits[key := entry];
        if |entry.timestamps| == 0 && now - entry.lastAccess > entry.windowMs * 2 {
          keysToDelete := keysToDelete + {key};
        }
        pending := pending - {key};
      }
      SweepDone(old(limits), now);
      limits := limits - keysToDelete;
      evicted := |keysToDelete|;
    }
  }
}
