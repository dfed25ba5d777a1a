/** The key-to-entry store as a value: seeding, reconfiguration, the status
    snapshot and the expiry sweep, with the properties that relate them. */
module Store {
  import opened Settings
  import opened Window

  /** One row of the status snapshot. */
  datatype Usage = Usage(limit: int, windowMs: int, currentUsage: nat, remaining: int, lastAccess: int)

  /** The entry a check works on: the stored one, or, for a key seen for
      the first time, a new one with the default quota, no history and
      `now` as its last access. When every quota in force is positive, so
      is the resolved entry's. */
  function Resolve(limits: map<string, Entry>, key: string, default: Config, now: int): (r: Entry)
    ensures key in limits ==> r == limits[key]
    ensures key !in limits ==>
      r.limit == default.limit && r.windowMs == default.windowMs && r.timestamps == [] && r.lastAccess == now
    ensures Positive(default) && (forall k :: k in limits ==> limits[k].limit > 0 && limits[k].windowMs > 0) ==>
      r.limit > 0 && r.windowMs > 0
  {
    if key in limits then limits[key] else Entry(default.limit, default.windowMs, [], now)
  }

  /** The entry a valid reconfiguration leaves for `key`: it takes the new
      quota; a stored entry keeps its history and last access, a new key
      starts with no history at `now`. */
  function Reconfigure(limits: map<string, Entry>, key: string, limit: int, windowMs: int, now: int): (r: Entry)
    ensures r.limit == limit && r.windowMs == windowMs
    ensures key in limits ==> r.timestamps == limits[key].timestamps && r.lastAccess == limits[key].lastAccess
    ensures key !in limits ==> r.timestamps == [] && r.lastAccess == now
  {
    if key in limits then limits[key].(limit := limit, windowMs := windowMs)
    else Entry(limit, windowMs, [], now)
  }

  /** The snapshot row of one entry: what still counts at `now`, and the
      quota left, never below zero. Stored timestamps are not touched. */
  function UsageOf(e: Entry, now: int): (u: Usage)
    ensures u.limit == e.limit && u.windowMs == e.windowMs && u.lastAccess == e.lastAccess
    ensures u.currentUsage <= |e.timestamps|
    ensures u.remaining >= 0
    ensures u.currentUsage < e.limit ==> u.currentUsage + u.remaining == e.limit
    ensures u.currentUsage >= e.limit ==> u.remaining == 0
  {
    var n := |Prune(e.timestamps, now, e.windowMs)|;
    Usage(e.limit, e.windowMs, n, Max(0, e.limit - n), e.lastAccess)
  }

  /** The status snapshot: one row per stored key. */
  function Snapshot(limits: map<string, Entry>, now: int): (r: map<string, Usage>)
    ensures r.Keys == limits.Keys
    ensures forall k :: k in r ==> r[k].currentUsage <= |limits[k].timestamps| && r[k].remaining >= 0
  {
    map k | k in limits :: UsageOf(limits[k], now)
  }

  /** An entry with only its timestamps that still count at `now`: the
      quota and last access stay. */
  function Pruned(e: Entry, now: int): (r: Entry)
    ensures r.limit == e.limit && r.windowMs == e.windowMs && r.lastAccess == e.lastAccess
    ensures forall t :: t in r.timestamps <==> t in e.timestamps && Live(t, now, e.windowMs)
    ensures |r.timestamps| <= |e.timestamps|
  {
    e.(timestamps := Prune(e.timestamps, now, e.windowMs))
  }

  /** An entry the sweep evicts: nothing of it still counts and it has not
      been checked for more than twice its window; its snapshot row shows
      no usage. */
  function Expired(e: Entry, now: int): (b: bool)
    ensures b ==> forall t :: t in e.timestamps ==> !Live(t, now, e.windowMs)
    ensures b ==> now - e.lastAccess > e.windowMs * 2
    ensures b ==> UsageOf(e, now).currentUsage == 0
  {
    Prune(e.timestamps, now, e.windowMs) == [] && now - e.lastAccess > e.windowMs * 2
  }

  /** The store after the sweep at `now`: expired entries are gone and the
      survivors keep only their timestamps that still count. */
  function Swept(limits: map<string, Entry>, now: int): (r: map<string, Entry>)
    ensures r.Keys <= limits.Keys
    ensures forall k, t :: k in limits && t in limits[k].timestamps && Live(t, now, limits[k].windowMs) ==> k in r
    ensures forall k :: k in limits && now - limits[k].lastAccess <= limits[k].windowMs * 2 ==> k in r
    ensures forall k :: k in r ==>
      && r[k].limit == limits[k].limit && r[k].windowMs == limits[k].windowMs
      && r[k].lastAccess == limits[k].lastAccess
      && r[k].timestamps == Prune(limits[k].timestamps, now, limits[k].windowMs)
  {
    map k | k in limits && !Expired(limits[k], now) :: Pruned(limits[k], now)
  }

  /** The store part-way through the sweep: the keys still `pending` are as
      they were, the others have been pruned. */
  function PartlyPruned(before: map<string, Entry>, pending: set<string>, now: int): (r: map<string, Entry>)
    ensures r.Keys == before.Keys
  {
    map k | k in before :: if k in pending then before[k] else Pruned(before[k], now)
  }

  /** The keys found expired so far. */
  function FoundExpired(before: map<string, Entry>, pending: set<string>, now: int): set<string> {
    set k | k in before && k !in pending && Expired(before[k], now)
  }

  /** One step of the sweep prunes the entry of one pending key. */
  lemma SweepStepPrunes(before: map<string, Entry>, pending: set<string>, key: string, now: int)
    requires key in pending && pending <= before.Keys
    ensures var cur := PartlyPruned(before, pending, now);
      PartlyPruned(before, pending - {key}, now) == cur[key := Pruned(cur[key], now)]
  {
    var cur := PartlyPruned(before, pending, now);
    var next := PartlyPruned(before, pending - {key}, now);
    assert cur[key] == before[key];
    var want := cur[key := Pruned(before[key], now)];
    assert next.Keys == want.Keys;
    forall k | k in next ensures next[k] == want[k] {
      if k != key {
        assert want[k] == cur[k];
      }
    }
  }

  /** One step of the sweep notes the key it visits exactly when its entry
      is expired. */
  lemma SweepStepNotes(before: map<string, Entry>, pending: set<string>, key: string, now: int)
    requires key in pending && pending <= before.Keys
    ensures FoundExpired(before, pending - {key}, now) ==
      FoundExpired(before, pending, now) + (if Expired(before[key], now) then {key} else {})
  {
    var found := FoundExpired(before, pending, now);
    var found' := FoundExpired(before, pending - {key}, now);
    var added := if Expired(before[key], now) then {key} else {};
    forall k ensures k in found' <==> k in found + added {
    }
  }

  /** Once nothing is pending, deleting the keys found expired is the sweep. */
  lemma SweepDone(before: map<string, Entry>, now: int)
    ensures PartlyPruned(before, {}, now) - FoundExpired(before, {}, now) == Swept(before, now)
    ensures before.Keys - Swept(before, now).Keys == FoundExpired(before, {}, now)
  {
    var r := PartlyPruned(before, {}, now) - FoundExpired(before, {}, now);
    assert r.Keys == Swept(before, now).Keys;
  }

  // ---------------------------------------------------------------------
  // Properties

  /** The sweep removes a stored key exactly when nothing of it still counts
      and it has been idle for more than twice its window. */
  lemma SweptEvictsExactly(limits: map<string, Entry>, now: int, key: string)
    requires key in limits
    ensures key !in Swept(limits, now) <==>
      && Prune(limits[key].timestamps, now, limits[key].windowMs) == []
      && now - limits[key].lastAccess > limits[key].windowMs * 2
  {
  }

  /** A second sweep at the same instant changes nothing. */
  lemma SweptIdempotent(limits: map<string, Entry>, now: int)
    ensures Swept(Swept(limits, now), now) == Swept(limits, now)
  {
    var once := Swept(limits, now);
    forall k | k in once
      ensures k in Swept(once, now) && Swept(once, now)[k] == once[k]
    {
      PruneIdempotent(limits[k].timestamps, now, limits[k].windowMs);
    }
  }

  /** The sweep does not change what the snapshot reports for the keys it
      keeps, and every key it drops was reporting no usage. */
  lemma SweptKeepsSnapshot(limits: map<string, Entry>, now: int)
    ensures var swept := Swept(limits, now);
      && (forall k :: k in swept ==> Snapshot(swept, now)[k] == Snapshot(limits, now)[k])
      && (forall k :: k in limits && k !in swept ==> Snapshot(limits, now)[k].currentUsage == 0)
  {
    var swept := Swept(limits, now);
    forall k | k in swept ensures Snapshot(swept, now)[k] == Snapshot(limits, now)[k] {
      PruneIdempotent(limits[k].timestamps, now, limits[k].windowMs);
    }
  }

  /** The snapshot row predicts the next check at the same instant: it is
      admitted exactly when the row shows quota left, and then reports one
      less. */
  lemma SnapshotPredictsCheck(e: Entry, now: int)
    ensures var u := UsageOf(e, now);
      var c := Check(e, now);
      && (c.result.allowed <==> u.remaining > 0)
      && (c.result.allowed ==> c.result.remaining == u.remaining - 1)
  {
  }

  /** Right after a check every stored timestamp of the key counts, so a
      snapshot at the same instant reports the same quota left as the check. */
  lemma SnapshotAfterCheck(e: Entry, now: int)
    requires e.windowMs > 0
    ensures var c := Check(e, now);
      var u := UsageOf(c.entry, now);
      && u.currentUsage == |c.entry.timestamps|
      && (c.result.allowed ==> u.remaining == c.result.remaining)
  {
    var kept := Prune(e.timestamps, now, e.windowMs);
    var c := Check(e, now);
    forall t | t in c.entry.timestamps ensures Live(t, now, e.windowMs) {
      if t != now {
        assert t in kept;
      }
    }
    PruneAllLive(c.entry.timestamps, now, e.windowMs);
  }

  /** After a valid reconfiguration of `key` to `limit` per `windowMs`, a
      burst of checks inside one window in which none of the key's earlier
      history counts admits exactly `limit` checks and denies the rest. */
  lemma ReconfiguredBurst(limits: map<string, Entry>, key: string, limit: int, windowMs: int, now: int, times: seq<int>)
    requires limit > 0 && windowMs > 0
    requires WithinOneWindow(times, windowMs)
    requires key in limits ==>
      forall i, t :: 0 <= i < |times| && t in limits[key].timestamps ==> !Live(t, times[i], windowMs)
    ensures var tr := Run(Reconfigure(limits, key, limit, windowMs, now), times);
      forall i :: 0 <= i < |times| ==> BurstResult(tr.results[i], i, limit)
  {
    BurstAdmitsUpToLimit(Reconfigure(limits, key, limit, windowMs, now), times);
  }
}
