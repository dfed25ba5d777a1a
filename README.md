# Sliding-window rate limiter, modelled in Dafny

This project models the in-memory rate limiter of `src/rateLimiter.js`. The
limiter keeps one entry per client key: that key's quota (`limit` actions per
`windowMs` milliseconds), the instants of the actions it admitted, and the
instant of the key's last check. A process-wide default quota, initially 10
per 60000 ms, seeds the entry of any key seen for the first time.

The operations are:

- `checkLimit` admits or denies one action. It uses a sliding window: a
  recorded instant `ts` still counts at `now` while `now - ts < windowMs`.
- `setDefaultConfig` and `getDefaultConfig` write and read the default quota.
- `updateLimit` gives one key its own quota.
- `getAllLimits` reports every key's current usage.
- `cleanupExpired` prunes every entry. It also evicts the keys that have
  nothing still counting and have been idle for more than twice their window.

Layout:

- `settings.dfy` (module `Settings`): the quota, its validation and the
  initial default.
- `window.dfy` (module `Window`): one key's entry as a value, and what one
  check does to it. `Check` is the reference definition. The same module has
  the lemmas on pruning, the reset instant and bursts of checks.
- `store.dfy` (module `Store`): the key-to-entry map as a value. It defines
  the status snapshot and the expiry sweep, with the lemmas that relate them.
- `limiter.dfy` (module `Limiter`): the class `RateLimiter`. Its fields
  `limits` and `defaultConfig` are updated in place by methods that follow
  the source statement by statement. Each method's `ensures` ties the new
  state and the result to the functions of `Settings`, `Window` and `Store`. The class
  invariant `Valid` holds that every quota in force is positive.
- `scenarios.dfy` (module `Scenarios`): the behaviours of
  `test/rateLimiter.test.js`, proved for a fresh limiter at an arbitrary
  instant `t`.

Instants are integers in milliseconds. Every operation that reads the clock
takes the instant as its `now` parameter.

## Model

| member | source | states |
|---|---|---|
| Settings.Validate | src/rateLimiter.js:19-21 | a quota change is accepted iff both values are positive; a non-positive limit is reported first, a non-positive window only when the limit is positive |
| Limiter.RateLimiter.constructor | src/rateLimiter.js:11-17 | the store starts empty and the default quota is 10 per 60000 ms |
| Limiter.RateLimiter.SetDefaultConfig | src/rateLimiter.js:19-24 | a valid quota replaces the default; an invalid one is rejected with its reason and changes nothing; stored entries never change; every quota stays positive |
| Limiter.RateLimiter.GetDefaultConfig | src/rateLimiter.js:26-28 | the default quota read back is always positive |
| Store.Resolve | src/rateLimiter.js:33-42 | the entry a check works on: the stored one, or for a new key one with the default quota, no history and now as last access; its quota is positive when every quota in force is |
| Window.ResetTime | src/rateLimiter.js:49-52 | with kept timestamps, the reset is the window added to one of them, and to none later than the earliest; with none, now plus the window |
| Limiter.RateLimiter.CheckLimit | src/rateLimiter.js:30-68 | only the checked key's entry changes: a new key is seeded from the current default, then the entry becomes `Check` of it, and the result is `Check`'s; the default never changes |
| Window.Check | src/rateLimiter.js:42-67 | keeps the quota; sets lastAccess to now; admits iff fewer than `limit` pruned timestamps remain; records now only when admitted; after admission the reported remaining equals the quota left and is at least 0; a denial reports 0; the reset instant is the earliest kept timestamp plus the window, or now plus the window when none is kept |
| Window.Prune | src/rateLimiter.js:46 | keeps exactly the timestamps less than one window old at now; never lengthens the list |
| Window.Earliest | src/rateLimiter.js:51 | the minimum of a non-empty list is an element of it and no larger than any element |
| Window.PruneAppend | src/rateLimiter.js:46 | pruning distributes over concatenation, so it is an order-preserving filter |
| Window.PruneIdempotent | src/rateLimiter.js:93-95 | pruning again at the same instant removes nothing more |
| Window.PruneAllLive | src/rateLimiter.js:46 | a list whose every timestamp still counts is kept whole |
| Window.PruneNoneLive | src/rateLimiter.js:46 | a list none of whose timestamps counts is pruned to empty |
| Window.PruneDropsExpired | src/rateLimiter.js:46 | a list holding a timestamp that no longer counts gets strictly shorter |
| Window.PruneKeepsSorted | src/rateLimiter.js:46 | pruning keeps a non-decreasing list non-decreasing |
| Window.ResetTimeIsFirstExpiry | src/rateLimiter.js:49-52 | the reset instant is after now; before it, every kept timestamp still counts; from it on, at least one has aged out |
| Window.AgedOutReadmits | src/rateLimiter.js:46-60 | once all recorded timestamps are a window old, a check is admitted with limit-1 remaining, the reset is now plus the window, and only now is kept |
| Window.CheckKeepsOrder | src/rateLimiter.js:49-55 | with a clock that never runs backwards, timestamps stay sorted and not after now, and the reset instant is the first kept timestamp plus the window |
| Window.BurstAdmitsUpToLimit | src/rateLimiter.js:54-67 | in a burst inside one window on a key with no counted history, the i-th check is admitted iff i < limit, with limit-i-1 remaining (0 when denied); the entry records exactly the admitted instants |
| Store.UsageOf | src/rateLimiter.js:93-102 | a snapshot row copies the quota and lastAccess; usage counts at most the stored timestamps; remaining is never negative; usage plus remaining is the limit while under quota, and remaining is 0 otherwise |
| Store.Snapshot | src/rateLimiter.js:88-106 | one row per stored key and no other; usage bounded by the stored timestamps; remaining never negative |
| Limiter.RateLimiter.GetAllLimits | src/rateLimiter.js:88-106 | one row per stored key; each row reports the key's quota and lastAccess, the number of its timestamps still counting at now, and max(0, limit - usage) as remaining, which lies between 0 and the limit |
| Store.Swept | src/rateLimiter.js:113-126 | no key is added; a key with a timestamp still counting is never evicted, nor is one idle for at most twice its window; survivors keep their quota and lastAccess, and their timestamps are pruned |
| Store.Pruned | src/rateLimiter.js:114-116 | the entry with only its timestamps that still count at now; quota and lastAccess unchanged, never longer |
| Store.Expired | src/rateLimiter.js:118-121 | the eviction test: an expired entry has no timestamp still counting, has been idle for more than twice its window, and shows zero usage |
| Store.SweepStepPrunes | src/rateLimiter.js:114-116 | one step of the sweep prunes the entry of the pending key it visits and no other |
| Store.SweepStepNotes | src/rateLimiter.js:118-123 | one step of the sweep notes the key it visits exactly when its entry is expired |
| Store.SweepDone | src/rateLimiter.js:126 | deleting the noted keys from the fully pruned store gives the sweep, and the deleted keys are exactly the noted ones |
| Limiter.RateLimiter.CleanupExpired | src/rateLimiter.js:109-128 | the store becomes the sweep of the old store; the default does not change; the count returned is the number of keys removed |
| Store.SweptEvictsExactly | src/rateLimiter.js:118-123 | a key is evicted iff nothing of it still counts and it has been idle for more than twice its window |
| Store.SweptIdempotent | src/rateLimiter.js:113-126 | a second sweep at the same instant changes nothing |
| Store.SweptKeepsSnapshot | src/rateLimiter.js:113-126 | the sweep does not change the snapshot row of a surviving key, and every evicted key was reporting zero usage |
| Store.SnapshotPredictsCheck | src/rateLimiter.js:99-100 | a check at the instant of a snapshot is admitted iff the row shows quota left, and then reports one less |
| Store.SnapshotAfterCheck | src/rateLimiter.js:93-100 | right after a check every stored timestamp counts, and an admitted check reported the same remaining as the snapshot does |
| Limiter.RateLimiter.UpdateLimit | src/rateLimiter.js:70-86 | same validation as the default setter; invalid quotas change nothing; an existing key keeps its timestamps and lastAccess and takes the new quota; a new key gets an empty entry at now; other keys and the default are untouched |
| Store.Reconfigure | src/rateLimiter.js:74-85 | the entry a valid reconfiguration leaves: the new quota; a stored key keeps its timestamps and lastAccess, a new key starts with none at now |
| Store.ReconfiguredBurst | src/rateLimiter.js:82-85 | after a key is reconfigured, a burst inside one window in which none of its earlier history counts admits exactly the new limit and denies the rest |
| Scenarios.RepeatedCheck | src/rateLimiter.js:46-67 | a check at t of an entry holding n ≤ limit copies of t is admitted iff n < limit, records one more copy when admitted, and resets at t plus the window |
| Scenarios.BurstBlockAndRecovery | test/rateLimiter.test.js:17-43 | with default 3 per second, three checks are admitted with 2, 1 and 0 remaining, the fourth is denied with 0, and a check 1100 ms later is admitted with 2 remaining |
| Scenarios.ReconfiguredKey | test/rateLimiter.test.js:45-54 | a key given 5 per 2 seconds admits five checks and denies the sixth |
| Scenarios.SnapshotAfterOneCheck | test/rateLimiter.test.js:62-69 | after one check, the snapshot shows usage 1 and 2 remaining |
| Scenarios.IdleKeyEvicted | test/rateLimiter.test.js:71-82 | a key idle for 2200 ms on a one-second window is evicted and missing from the snapshot |
| Scenarios.ConfigValidation | test/rateLimiter.test.js:84-89 | a zero limit or window is rejected by both setters, a valid default is read back exactly, and nothing is stored |

## Left out

- The HTTP server in `src/server.js`, with its request parsing, responses and timers, is not part of this model.
- `Date.now()` is the `now` parameter. The model places no constraint on successive instants; only `Window.CheckKeepsOrder` assumes a clock that never runs backwards.
- ISO-8601 formatting of `resetTime` and `lastAccess` is left out. Both are kept as integer milliseconds.
- The console message of `cleanupExpired` is left out. Instead, `Limiter.RateLimiter.CleanupExpired` returns the number of keys it removed. The source function returns nothing.
- Thrown errors are modelled as the `Invalid` outcome with its reason, and the message text is dropped.
- JavaScript number semantics are not modelled: NaN, non-numeric arguments, fractional values and floating-point overflow. For example, `limit <= 0` is false for NaN, so the source accepts a NaN quota. Every quota here is an integer.
- `Math.min(...timestamps)` may fail for very large arrays (the argument count limit); `Window.Earliest` has no such limit.
- `getAllLimits` builds a plain object, so a key named `__proto__` would be lost there. The model returns a map, which keeps every key.
- `getDefaultConfig` returns the live default object, which a caller could mutate. The model returns a value.
- The source iterates the store in insertion order, while `CleanupExpired` picks pending keys in any order. The result does not depend on the order.
- Concurrency is left out. The module's state is shared by every caller, and here each operation is one atomic step.
- Each scenario starts from a fresh limiter rather than the state the test file's earlier cases leave behind. The test file's `beforeEach` hook, which resets the default and sweeps, is replaced by that fresh start.

Two boundary cases follow the code exactly:

- A timestamp exactly one window old no longer counts (`now - ts < windowMs`, src/rateLimiter.js:46).
- Eviction needs an idle time strictly greater than twice the window (src/rateLimiter.js:120).
