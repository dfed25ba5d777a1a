/** The sliding-window evaluator: what one check does to one key's entry. */
module Window {

  /** The state kept for one key. */
  datatype Entry = Entry(limit: int, windowMs: int, timestamps: seq<int>, lastAccess: int)

  /** What a check reports: the decision, the quota left after it, and the
      instant (in milliseconds) at which the oldest counted action ages out. */
  datatype CheckResult = CheckResult(allowed: bool, remaining: int, resetTime: int)

  /** A check: the entry it leaves behind and the result it reports. */
  datatype Checked = Checked(entry: Entry, result: CheckResult)

  function Max(a: int, b: int): int { if a < b then b else a }

  function Min(a: int, b: int): int { if a < b then a else b }

  /** A timestamp still counts at `now` while it is strictly less than
      `windowMs` old; one exactly `windowMs` old no longer counts. */
  predicate Live(t: int, now: int, windowMs: int) {
    now - t < windowMs
  }

  predicate Sorted(s: seq<int>) {
    forall i, j :: 0 <= i < j < |s| ==> s[i] <= s[j]
  }

  /** The timestamps that still count at `now`, in their original order. */
  function Prune(ts: seq<int>, now: int, windowMs: int): (r: seq<int>)
    ensures |r| <= |ts|
    ensures forall t :: t in r <==> t in ts && Live(t, now, windowMs)
  {
    if ts == [] then []
    else if Live(ts[0], now, windowMs) then [ts[0]] + Prune(ts[1..], now, windowMs)
    else Prune(ts[1..], now, windowMs)
  }

  /** The smallest timestamp of a non-empty list. */
  function Earliest(s: seq<int>): (m: int)
    requires s != []
    ensures m in s
    ensures forall t :: t in s ==> m <= t
  {
    if |s| == 1 then s[0]
    else
      var rest := Earliest(s[1..]);
      assert s == [s[0]] + s[1..];
      if s[0] <= rest then s[0] else rest
  }

  /** When the oldest still-counted action ages out, or a full window from now
      when nothing counts. */
  function ResetTime(kept: seq<int>, now: int, windowMs: int): (r: int)
    ensures kept != [] ==> r - windowMs in kept && forall t :: t in kept ==> r <= t + windowMs
    ensures kept == [] ==> r == now + windowMs
  {
    if |kept| > 0 then Earliest(kept) + windowMs else now + windowMs
  }

  /** One check of an existing entry at `now`: refresh `lastAccess`, prune,
      compute the reset instant, then admit (and record `now`) if fewer than
      `limit` timestamps still count. */
  function Check(e: Entry, now: int): (c: Checked)
    ensures c.entry.limit == e.limit && c.entry.windowMs == e.windowMs
    ensures c.entry.lastAccess == now
    ensures var kept := Prune(e.timestamps, now, e.windowMs);
      && (c.result.allowed <==> |kept| < e.limit)
      && c.entry.timestamps == (if c.result.allowed then kept + [now] else kept)
      && c.result.resetTime == ResetTime(kept, now, e.windowMs)
      && (|kept| <= e.limit ==> |c.entry.timestamps| <= e.limit)
    ensures c.result.allowed ==> 0 <= c.result.remaining == e.limit - |c.entry.timestamps|
    ensures !c.result.allowed ==> c.result.remaining == 0
  {
    var kept := Prune(e.timestamps, now, e.windowMs);
    var remaining := Max(0, e.limit - |kept|);
    var resetTime := ResetTime(kept, now, e.windowMs);
    if |kept| < e.limit then
      Checked(e.(timestamps := kept + [now], lastAccess := now), CheckResult(true, remaining - 1, resetTime))
    else
      Checked(e.(timestamps := kept, lastAccess := now), CheckResult(false, 0, resetTime))
  }

  // ---------------------------------------------------------------------
  // Pruning

  /** Pruning is a filter: it distributes over concatenation, so the order
      of the kept timestamps is the order they were recorded in. */
  lemma {:induction false} PruneAppend(a: seq<int>, b: seq<int>, now: int, windowMs: int)
    ensures Prune(a + b, now, windowMs) == Prune(a, now, windowMs) + Prune(b, now, windowMs)
  {
    if a == [] {
      assert a + b == b;
    } else {
      assert (a + b)[1..] == a[1..] + b;
      PruneAppend(a[1..], b, now, windowMs);
    }
  }

  /** Pruning twice at the same instant is pruning once. */
  lemma {:induction false} PruneIdempotent(ts: seq<int>, now: int, windowMs: int)
    ensures Prune(Prune(ts, now, windowMs), now, windowMs) == Prune(ts, now, windowMs)
  {
    if ts != [] {
      PruneIdempotent(ts[1..], now, windowMs);
    }
  }

  /** A list whose every timestamp still counts is left as it is. */
  lemma {:induction false} PruneAllLive(ts: seq<int>, now: int, windowMs: int)
    requires forall t :: t in ts ==> Live(t, now, windowMs)
    ensures Prune(ts, now, windowMs) == ts
  {
    if ts != [] {
      assert ts[0] in ts;
      assert forall t :: t in ts[1..] ==> t in ts;
      PruneAllLive(ts[1..], now, windowMs);
      assert [ts[0]] + ts[1..] == ts;
    }
  }

  /** A list none of whose timestamps still counts is pruned to nothing. */
  lemma {:induction false} PruneNoneLive(ts: seq<int>, now: int, windowMs: int)
    requires forall t :: t in ts ==> !Live(t, now, windowMs)
    ensures Prune(ts, now, windowMs) == []
  {
    if ts != [] {
      assert ts[0] in ts;
      assert forall t :: t in ts[1..] ==> t in ts;
      PruneNoneLive(ts[1..], now, windowMs);
    }
  }

  /** A list with a timestamp that no longer counts gets strictly shorter. */
  lemma {:induction false} PruneDropsExpired(ts: seq<int>, now: int, windowMs: int, old_t: int)
    requires old_t in ts && !Live(old_t, now, windowMs)
    ensures |Prune(ts, now, windowMs)| < |ts|
  {
    if ts[0] != old_t {
      assert old_t in ts[1..];
      PruneDropsExpired(ts[1..], now, windowMs, old_t);
    }
  }

  /** Pruning keeps a non-decreasing list non-decreasing. */
  lemma {:induction false} PruneKeepsSorted(ts: seq<int>, now: int, windowMs: int)
    requires Sorted(ts)
    ensures Sorted(Prune(ts, now, windowMs))
  {
    if ts != [] {
      assert Sorted(ts[1..]);
      PruneKeepsSorted(ts[1..], now, windowMs);
      var rest := Prune(ts[1..], now, windowMs);
      forall t | t in rest ensures ts[0] <= t {
        var i :| 0 <= i < |ts[1..]| && ts[1..][i] == t;
        assert ts[i + 1] == t;
      }
      if Live(ts[0], now, windowMs) {
        ConsKeepsSorted(ts[0], rest);
      }
    }
  }

  lemma ConsKeepsSorted(x: int, s: seq<int>)
    requires Sorted(s)
    requires forall t :: t in s ==> x <= t
    ensures Sorted([x] + s)
  {
    forall i, j | 0 <= i < j < |[x] + s| ensures ([x] + s)[i] <= ([x] + s)[j] {
      assert ([x] + s)[j] == s[j - 1];
      if i > 0 {
        assert ([x] + s)[i] == s[i - 1];
      } else {
        assert s[j - 1] in s;
      }
    }
  }

  lemma SnocKeepsSorted(s: seq<int>, x: int)
    requires Sorted(s)
    requires forall t :: t in s ==> t <= x
    ensures Sorted(s + [x])
  {
    forall i, j | 0 <= i < j < |s + [x]| ensures (s + [x])[i] <= (s + [x])[j] {
      assert (s + [x])[i] == s[i];
      assert s[i] in s;
    }
  }

  // ---------------------------------------------------------------------
  // One check

  /** The reset instant lies after `now` and is exactly the first instant at
      which the count can drop: before it every counted timestamp still
      counts, from it on at least the oldest one has aged out. */
  lemma ResetTimeIsFirstExpiry(e: Entry, now: int, later: int)
    requires e.windowMs > 0
    ensures var kept := Prune(e.timestamps, now, e.windowMs);
      var reset := Check(e, now).result.resetTime;
      && now < reset
      && (later < reset ==> Prune(kept, later, e.windowMs) == kept)
      && (kept != [] && reset <= later ==> |Prune(kept, later, e.windowMs)| < |kept|)
  {
    var kept := Prune(e.timestamps, now, e.windowMs);
    if kept != [] {
      var first := Earliest(kept);
      assert Live(first, now, e.windowMs);
      if later < first + e.windowMs {
        PruneAllLive(kept, later, e.windowMs);
      } else {
        PruneDropsExpired(kept, later, e.windowMs, first);
      }
    }
  }

  /** Once every recorded timestamp is at least a window old, a check is
      admitted as on a fresh key: `limit - 1` remain and only `now` is kept. */
  lemma AgedOutReadmits(e: Entry, now: int)
    requires e.limit > 0
    requires forall t :: t in e.timestamps ==> !Live(t, now, e.windowMs)
    ensures Check(e, now).result == CheckResult(true, e.limit - 1, now + e.windowMs)
    ensures Check(e, now).entry.timestamps == [now]
  {
    PruneNoneLive(e.timestamps, now, e.windowMs);
  }

  /** With a clock that never runs backwards the timestamps stay in
      recording order, so the reset instant is the first kept timestamp plus
      the window. */
  lemma CheckKeepsOrder(e: Entry, now: int)
    requires Sorted(e.timestamps)
    requires forall t :: t in e.timestamps ==> t <= now
    ensures Sorted(Check(e, now).entry.timestamps)
    ensures forall t :: t in Check(e, now).entry.timestamps ==> t <= now
    ensures var kept := Prune(e.timestamps, now, e.windowMs);
      kept != [] ==> Check(e, now).result.resetTime == kept[0] + e.windowMs
  {
    var kept := Prune(e.timestamps, now, e.windowMs);
    PruneKeepsSorted(e.timestamps, now, e.windowMs);
    SnocKeepsSorted(kept, now);
    if kept != [] {
      var m := Earliest(kept);
      var i :| 0 <= i < |kept| && kept[i] == m;
      assert kept[0] in kept;
      assert kept[0] <= kept[i];
    }
  }

  // ---------------------------------------------------------------------
  // Several checks on one key

  /** The entry and the results after checking the same key at each instant
      of `times`, in order. */
  datatype Trace = Trace(entry: Entry, results: seq<CheckResult>)

  function Run(e: Entry, times: seq<int>): (tr: Trace)
    ensures |tr.results| == |times|
  {
    if times == [] then Trace(e, [])
    else
      var prev := Run(e, times[..|times| - 1]);
      var c := Check(prev.entry, times[|times| - 1]);
      Trace(c.entry, prev.results + [c.result])
  }

  /** Every instant of `times` lies less than `windowMs` after every other. */
  predicate WithinOneWindow(times: seq<int>, windowMs: int) {
    forall i, j :: 0 <= i < |times| && 0 <= j < |times| ==> times[i] - times[j] < windowMs
  }

  /** No timestamp already in `e` counts at any instant of `times`. */
  predicate HistoryAgedOut(e: Entry, times: seq<int>) {
    forall i, t :: 0 <= i < |times| && t in e.timestamps ==> !Live(t, times[i], e.windowMs)
  }

  /** The result the `i`-th check (from 0) of a burst must report. */
  predicate BurstResult(r: CheckResult, i: int, limit: int) {
    && r.allowed == (i < limit)
    && r.remaining == (if i < limit then limit - i - 1 else 0)
  }

  /** A burst of checks inside one window on a key with no counted history:
      the first `limit` are admitted with `remaining` going down by one from
      `limit - 1` to 0, every later one is denied with 0 remaining, and the
      entry records exactly the admitted instants. */
  lemma {:induction false} BurstAdmitsUpToLimit(e: Entry, times: seq<int>)
    requires e.limit > 0
    requires WithinOneWindow(times, e.windowMs)
    requires HistoryAgedOut(e, times)
    ensures var tr := Run(e, times);
      && (forall i :: 0 <= i < |times| ==> BurstResult(tr.results[i], i, e.limit))
      && (times != [] ==> tr.entry.timestamps == times[..Min(|times|, e.limit)])
      && tr.entry.limit == e.limit && tr.entry.windowMs == e.windowMs
  {
    if times != [] {
      var n := |times|;
      var pre := times[..n - 1];
      BurstPrefix(e, times);
      BurstAdmitsUpToLimit(e, pre);
      var prev := Run(e, pre);
      if n == 1 {
        assert pre == [];
      } else {
        assert pre[..Min(n - 1, e.limit)] == times[..Min(n - 1, e.limit)];
      }
      BurstLastKept(e, times, prev.entry);
      BurstLastCheck(e, times, prev.entry);
      RunLast(e, times);
      BurstResultsSnoc(prev.results, Check(prev.entry, times[n - 1]).result, e.limit);
    }
  }

  /** Appending the result the next check of a burst must report keeps
      every result of the burst as it must be. */
  lemma BurstResultsSnoc(rs: seq<CheckResult>, r: CheckResult, limit: int)
    requires forall i :: 0 <= i < |rs| ==> BurstResult(rs[i], i, limit)
    requires BurstResult(r, |rs|, limit)
    ensures forall i :: 0 <= i < |rs + [r]| ==> BurstResult((rs + [r])[i], i, limit)
  {
    forall i | 0 <= i < |rs + [r]| ensures BurstResult((rs + [r])[i], i, limit) {
      if i < |rs| {
        assert (rs + [r])[i] == rs[i];
      }
    }
  }

  lemma RunLast(e: Entry, times: seq<int>)
    requires times != []
    ensures var prev := Run(e, times[..|times| - 1]);
      var c := Check(prev.entry, times[|times| - 1]);
      Run(e, times) == Trace(c.entry, prev.results + [c.result])
  {
  }

  /** The last check of a burst, once what still counts is known. */
  lemma BurstLastCheck(e: Entry, times: seq<int>, prev: Entry)
    requires times != [] && e.limit > 0
    requires prev.limit == e.limit && prev.windowMs == e.windowMs
    requires Prune(prev.timestamps, times[|times| - 1], e.windowMs) == times[..Min(|times| - 1, e.limit)]
    ensures var c := Check(prev, times[|times| - 1]);
      && BurstResult(c.result, |times| - 1, e.limit)
      && c.entry.timestamps == times[..Min(|times|, e.limit)]
      && c.entry.limit == e.limit && c.entry.windowMs == e.windowMs
  {
    var n := |times|;
    var m := Min(n - 1, e.limit);
    assert |times[..m]| == m;
    if m < e.limit {
      assert times[..m] + [times[n - 1]] == times[..n];
    }
  }

  /** The hypotheses of a burst hold of every prefix of it. */
  lemma BurstPrefix(e: Entry, times: seq<int>)
    requires times != []
    requires WithinOneWindow(times, e.windowMs)
    requires HistoryAgedOut(e, times)
    ensures WithinOneWindow(times[..|times| - 1], e.windowMs)
    ensures HistoryAgedOut(e, times[..|times| - 1])
  {
    var pre := times[..|times| - 1];
    forall i, j | 0 <= i < |pre| && 0 <= j < |pre| ensures pre[i] - pre[j] < e.windowMs {
      assert pre[i] == times[i] && pre[j] == times[j];
    }
    forall i, t | 0 <= i < |pre| && t in e.timestamps ensures !Live(t, pre[i], e.windowMs) {
      assert pre[i] == times[i];
    }
  }

  /** At the last instant of a burst, what still counts is exactly the
      instants admitted before it. */
  lemma BurstLastKept(e: Entry, times: seq<int>, prev: Entry)
    requires times != [] && e.limit > 0
    requires WithinOneWindow(times, e.windowMs)
    requires HistoryAgedOut(e, times)
    requires prev.windowMs == e.windowMs
    requires |times| == 1 ==> prev == e
    requires |times| > 1 ==> prev.timestamps == times[..Min(|times| - 1, e.limit)]
    ensures Prune(prev.timestamps, times[|times| - 1], e.windowMs) == times[..Min(|times| - 1, e.limit)]
  {
    var n := |times|;
    var now := times[n - 1];
    var m := Min(n - 1, e.limit);
    if n == 1 {
      assert times[..m] == [];
      forall t | t in e.timestamps ensures !Live(t, now, e.windowMs) {
        assert now == times[0];
      }
      PruneNoneLive(e.timestamps, now, e.windowMs);
    } else {
      forall t | t in times[..m] ensures Live(t, now, e.windowMs) {
        var j :| 0 <= j < m && times[..m][j] == t;
        assert times[j] == t;
        assert times[n - 1] - times[j] < e.windowMs;
      }
      PruneAllLive(times[..m], now, e.windowMs);
    }
  }
}
