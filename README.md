# Sliding-window memory counter, modelled in Dafny

This project models the in-memory counting backend of a sliding-window rate
limiter (`memorycounter.go`). The backend keeps one unsigned count per
(raw key, window) pair. It stores each count in an expiring key-value cache
under the composite key `key + "-" + decimal(window.Unix())`. Each write gives
the entry a time-to-live of twice the window length, so the previous window's
count is still there after a rollover. An optional capacity bounds the number
of entries. The backend offers `Get`, `Increment` and an explicit
`DeleteExpired` sweep.

Files:

- `wrappers.dfy`: `Option`, used where the source has a nil item.
- `decimal.dfy`: the `%d` rendering of the window second, with a parser that
  inverts it.
- `ttlcache.dfy`: the expiring cache the counter stores into. This is a map
  from string to (value, ttl, expiresAt) with a capacity. `SetStep` is the
  relation a write establishes and `Sweep` is the expiry sweep.
- `memorycounter.dfy`: the counter itself. It holds the composite key, the
  `MemoryCounter` class (constructor, `Get`, `Increment`, `DeleteExpired`) and
  the lemmas about counts, independence between keys and windows, and expiry.

Time is an integer number of nanoseconds. Every operation takes the current
instant as an explicit `now` parameter. `Unix(t)` is `t / 10^9` rounded down,
like Go's `Time.Unix`. So two windows in the same second share one count
(`KeyTruncatesToSecond`).

Behaviour of the code worth knowing:

- The composite key is not injective across raw keys: `"x-"` with window
  second 3 and `"x"` with second −3 both give `"x--3"` (`KeyCollision`). It is
  injective in the window for a fixed raw key (`KeyInjectiveInWindow`).
- The window length is not validated. With a window length ≤ 0 the cache's
  time-to-live is ≤ 0, and such entries never expire.
- An entry expires strictly after `write time + 2 × windowLen`. At exactly
  that instant it is still visible (`EntryLifetime`).
- The `windowLen` field of `MemoryCounter` is never assigned. It keeps its zero
  value, and the window length is only used for the cache's time-to-live
  (memorycounter.go:45-62).
- With a capacity set, an increment of a new composite key into a full store evicts one entry, and that entry may
  be another window's count for the same raw key. Increments in one window then do change what another window
  reads: it drops to 0 (`IncrementStepFrame`, `OtherWindowUnaffected`).
- The count is a `uint64`, and `Increment` wraps it to 0 after 2^64 − 1
  (`NextCount`).

## Model

| member | source | states |
|---|---|---|
| `Decimal.IntToDecimal` | memorycounter.go:92 | the decimal form of an integer is non-empty, starts with a minus sign exactly when the integer is negative, and after the sign holds the digits of its absolute value |
| `MemoryCounters.Unix` | memorycounter.go:92 | the whole second that contains the instant, rounded down: seconds × 10^9 ≤ t < (seconds + 1) × 10^9, also for instants before the epoch |
| `MemoryCounters.GenerateKey` | memorycounter.go:91-93 | the composite key starts with the raw key followed by a dash; the character after that dash is a minus sign exactly when the window lies before the epoch |
| `MemoryCounters.ConfiguredCapacity` | memorycounter.go:28-49 | with no capacity option in the list the configured capacity is 0, which means unbounded |
| `MemoryCounters.ConfiguredCapacityIsLast` | memorycounter.go:28-49 | when the list holds a capacity option, the configured capacity is the value of the last one: no capacity option follows it |
| `MemoryCounters.AutoDeleteDisabled` | memorycounter.go:36-49 | automatic expiry is disabled exactly when the option list contains the disable option |
| `TtlCache.Lookup` | memorycounter.go:67-68 | `Lookup` (and `Cache.Get`, which returns it) is the reference definition of a live entry, with no contract of its own: the value of a present, unexpired entry, and none otherwise; the lemmas about sweeps and increments are stated through it |
| `TtlCache.Stamp` | memorycounter.go:86 | the item written at time w is unexpired at t exactly when its ttl is ≤ 0 or t ≤ w + ttl |
| `TtlCache.Sweep` | memorycounter.go:97 | a sweep keeps only keys that were already present and never increases the number of entries |
| `Decimal.NatToDecimal` | memorycounter.go:92 | the decimal form of a natural number is non-empty, made only of digits, and has no leading zero |
| `Decimal.NatToDecimalRoundTrip` | memorycounter.go:92 | reading the digits back gives the original number |
| `Decimal.IntToDecimalRoundTrip` | memorycounter.go:92 | the signed decimal form of any integer parses back to that integer |
| `Decimal.IntToDecimalInjective` | memorycounter.go:92 | two integers have the same decimal form if and only if they are equal |
| `MemoryCounters.KeyRoundTrip` | memorycounter.go:91-93 | given the raw key, the window second can be recovered from the composite key |
| `MemoryCounters.KeyInjectiveInWindow` | memorycounter.go:91-93 | for a fixed raw key, two windows give the same composite key if and only if they have the same Unix second |
| `MemoryCounters.KeyTruncatesToSecond` | memorycounter.go:92 | a window shares its key with the start of its second and not with the next second |
| `MemoryCounters.KeyCollision` | memorycounter.go:92 | raw key "x-" with window 3 s and raw key "x" with window −3 s give the same composite key |
| `MemoryCounters.MemoryCounter.constructor` | memorycounter.go:45-62 | the last capacity option wins (0 if there is none), and any disable option turns off auto-delete; the store starts empty with ttl 2 × windowLen; its capacity equals the counter's, and 0 means unbounded |
| `TtlCache.Cache.constructor` | memorycounter.go:50-56 | the store starts empty, with the ttl and capacity its options set |
| `MemoryCounters.MemoryCounter.Get` | memorycounter.go:65-72 | returns no error; returns 0 when the composite key has no live entry, and otherwise the stored count |
| `MemoryCounters.NextCount` | memorycounter.go:80-85 | an absent count becomes 1; a present count n becomes n + 1, wrapping to 0 at 2^64 |
| `MemoryCounters.MemoryCounter.Increment` | memorycounter.go:75-89 | returns no error; keeps the store within its capacity; writes NextCount of the live count under the composite key, stamped with the cache ttl; creates or changes no other entry |
| `TtlCache.Cache.Set` | memorycounter.go:86 | stamps the written item with expiry now + ttl; overwrites a live key in place; at capacity, evicts exactly one entry before adding a new key; changes no other entry |
| `TtlCache.SetStepKeepsBound` | memorycounter.go:53-55 | with capacity C > 0, a write never leaves more than C entries |
| `TtlCache.UnboundedSetKeepsKeys` | memorycounter.go:53-55 | with capacity 0, a write never evicts: every other entry survives unchanged |
| `MemoryCounters.IncrementStepCount` | memorycounter.go:79-86 | after an increment, an absent count reads 1 and a present count n below 2^64 − 1 reads n + 1 until the new ttl runs out (`NextCount` gives the wrap) |
| `MemoryCounters.IncrementStepFrame` | memorycounter.go:76-86 | an increment never changes another composite key's count; that entry stays as it was unless a full store evicted it |
| `MemoryCounters.OtherWindowUnaffected` | memorycounter.go:75-93 | increments in one window never change the count of a window with a different Unix second for the same raw key, unless a full store evicted that entry |
| `MemoryCounters.RepeatedIncrements` | memorycounter.go:75-89 | N increments of one composite key, starting from absent and each made before the previous write expired, read back as N |
| `MemoryCounters.EntryLifetime` | memorycounter.go:50-51 | with ttl 2 × windowLen, an incremented entry is visible one window later and at exactly two windows later; it reads as absent after that, and a sweep removes it |
| `MemoryCounters.MemoryCounter.DeleteExpired` | memorycounter.go:96-98 | the store afterwards holds exactly the entries that have not expired at `now`, with their values |
| `TtlCache.Cache.DeleteExpired` | memorycounter.go:96-98 | replaces the entries with their sweep at `now` and keeps the capacity bound |
| `TtlCache.SweepRemovesExactlyExpired` | memorycounter.go:96-98 | a key survives the sweep if and only if it was present and not expired; survivors keep their items; the store does not grow |
| `TtlCache.SweepPreservesLookup` | memorycounter.go:96-98 | lookups at or after the sweep instant see the same counts with or without the sweep |
| `TtlCache.SweepIdempotent` | memorycounter.go:96-98 | a second sweep at the same instant removes nothing more |

## Left out

- The mutex (memorycounter.go:23, 77-78, 87) exists only for concurrency. `Increment` is modelled as one sequential step.
- The background expiry goroutine (memorycounter.go:58-60) is concurrent. Only its `disableAutoDeleteExpired` flag is kept. Lookups treat expired entries as absent whether or not a sweep has run (`SweepPreservesLookup`).
- MemoryCounters.MemoryCounter.Get: the cache's lookup also refreshes the entry's expiry on a hit and moves it in its recency order. The model's `Get` is a pure read, so it does not capture that extension of the entry's lifetime.
- TtlCache.Cache.Set: the cache evicts its least recently used entry. The model evicts an unspecified single entry and keeps no recency order.
- MemoryCounters.MemoryCounter.Get: the conversion of the `uint64` count to `int` (memorycounter.go:71) is not modelled. Counts of 2^63 and above are returned unchanged rather than as negative numbers.
- The error returned by each option function is ignored by the constructor (memorycounter.go:48). The options here cannot fail.
- The `Counter` interface (counter.go:5-10) has no behaviour. `MemoryCounter` provides its two operations with the same shapes.
- `time.Duration` overflow in `windowLen * 2` is not modelled. Durations and instants are unbounded integers.
- `fmt.Sprintf` is modelled only for the `%s-%d` pattern that the key uses.
- The cache's internals are not modelled: expiry queue, timers, eviction callbacks, and the item that `Set` returns (the source discards it).
