/**
 The in-memory sliding-window counter: a count per (raw key, window) pair,
 kept in an expiring store under a composite string key, with entries that
 live for twice the window length and an optional bound on the number of
 entries. Instants and durations are integers counting nanoseconds; the
 instant of each operation is an explicit `now` parameter.
 */
module MemoryCounters {
  import opened Wrappers
  import Decimal
  import opened TtlCache

  const NanosPerSecond: int := 1_000_000_000
  const Uint64Limit: int := 0x1_0000_0000_0000_0000

  /** An unsigned 64-bit count. */
  type Uint64 = x: int | 0 <= x < Uint64Limit

  /** Nanoseconds since the Unix epoch. */
  type Instant = int

  /** A length of time in nanoseconds. */
  type Duration = int

  /** Whole seconds since the epoch, rounded down (the nanosecond part of an instant is never negative). */
  function Unix(t: Instant): (seconds: int)
    ensures seconds * NanosPerSecond <= t < (seconds + 1) * NanosPerSecond
  {
    t / NanosPerSecond
  }

  /** The composite key: the raw key, a dash, and the window's Unix second in decimal. */
  function GenerateKey(key: string, window: Instant): (composite: string)
    ensures |composite| > |key| + 1 && composite[..|key| + 1] == key + "-"
    ensures composite[|key| + 1] == '-' <==> window < 0
  {
    key + "-" + Decimal.IntToDecimal(Unix(window))
  }

  /** Recovers the window second from a composite key, given the raw key it was built from. */
  function WindowOf(key: string, composite: string): Option<int> {
    if |composite| > |key| && composite[..|key| + 1] == key + "-" then
      Decimal.ParseInt(composite[|key| + 1..])
    else
      None
  }

  lemma KeyRoundTrip(key: string, window: Instant)
    ensures WindowOf(key, GenerateKey(key, window)) == Some(Unix(window))
  {
    var composite := GenerateKey(key, window);
    assert composite[..|key| + 1] == key + "-";
    assert composite[|key| + 1..] == Decimal.IntToDecimal(Unix(window));
    Decimal.IntToDecimalRoundTrip(Unix(window));
  }

  /**
   For one raw key, two windows share a composite key exactly when they fall
   in the same whole second.
   */
  lemma KeyInjectiveInWindow(key: string, w1: Instant, w2: Instant)
    ensures GenerateKey(key, w1) == GenerateKey(key, w2) <==> Unix(w1) == Unix(w2)
  {
    KeyRoundTrip(key, w1);
    KeyRoundTrip(key, w2);
  }

  /** Every window shares its composite key with the start of its second. */
  lemma KeyTruncatesToSecond(key: string, window: Instant)
    ensures GenerateKey(key, window) == GenerateKey(key, window - window % NanosPerSecond)
    ensures GenerateKey(key, window) != GenerateKey(key, window - window % NanosPerSecond + NanosPerSecond)
  {
    KeyInjectiveInWindow(key, window, window - window % NanosPerSecond + NanosPerSecond);
  }

  /** Across raw keys the composition is not injective: a key ending in a dash can meet a negative window. */
  lemma KeyCollision()
    ensures GenerateKey("x-", 3 * NanosPerSecond) == GenerateKey("x", -3 * NanosPerSecond)
  {
  }

  /** Construction options of the counter. */
  datatype MemoryCounterOption = WithCapacity(capacity: Uint64) | DisableAutoDeleteExpired

  /** The capacity the options set: the last capacity option, or 0 when there is none. */
  function ConfiguredCapacity(opts: seq<MemoryCounterOption>): (capacity: Uint64)
    ensures (forall i :: 0 <= i < |opts| ==> !opts[i].WithCapacity?) ==> capacity == 0
  {
    if opts == [] then 0
    else match opts[|opts| - 1]
      case WithCapacity(capacity) => capacity
      case DisableAutoDeleteExpired => ConfiguredCapacity(opts[..|opts| - 1])
  }

  /** When capacity options are given, the configured capacity is that of the last one. */
  lemma {:induction false} ConfiguredCapacityIsLast(opts: seq<MemoryCounterOption>, i: nat)
    requires i < |opts| && opts[i].WithCapacity?
    ensures exists k :: i <= k < |opts| && opts[k] == MemoryCounterOption.WithCapacity(ConfiguredCapacity(opts)) &&
              forall j :: k < j < |opts| ==> !opts[j].WithCapacity?
  {
    var n := |opts| - 1;
    if opts[n].WithCapacity? {
      assert opts[n] == MemoryCounterOption.WithCapacity(ConfiguredCapacity(opts));
    } else {
      var prefix := opts[..n];
      ConfiguredCapacityIsLast(prefix, i);
      var k :| i <= k < |prefix| && prefix[k] == MemoryCounterOption.WithCapacity(ConfiguredCapacity(prefix)) &&
                forall j :: k < j < |prefix| ==> !prefix[j].WithCapacity?;
      assert ConfiguredCapacity(opts) == ConfiguredCapacity(prefix);
      assert opts[k] == prefix[k];
      assert forall j :: k < j < |opts| ==> !opts[j].WithCapacity? by {
        forall j | k < j < |opts| ensures !opts[j].WithCapacity? {
          if j < n { assert opts[j] == prefix[j]; }
        }
      }
    }
  }

  /** Whether any option turns off the background expiry task. */
  function AutoDeleteDisabled(opts: seq<MemoryCounterOption>): (disabled: bool)
    ensures disabled <==> DisableAutoDeleteExpired in opts
  {
    opts != [] && (opts[|opts| - 1] == DisableAutoDeleteExpired || AutoDeleteDisabled(opts[..|opts| - 1]))
  }

  /** The error a counter may report; this backend never produces one. */
  datatype CounterError = CounterError(message: string)

  datatype GetResult = GetResult(count: int, err: Option<CounterError>)

  /** The count an increment stores, given the live count before it (unsigned 64-bit addition wraps). */
  function NextCount(prev: Option<Uint64>): (v: Uint64)
    ensures prev.None? ==> v == 1
    ensures prev.Some? && prev.value + 1 < Uint64Limit ==> v == prev.value + 1
    ensures prev == Some(Uint64Limit - 1) ==> v == 0
  {
    match prev
    case None => 1
    case Some(n) => (n + 1) % Uint64Limit
  }

  /** The store before and after one increment of `key` at `now`. */
  ghost predicate IncrementStep(items: map<string, Item<Uint64>>, items': map<string, Item<Uint64>>,
                                key: string, ttl: Duration, capacity: nat, now: Instant)
  {
    SetStep(items, items', key, NextCount(Lookup(items, key, now)), ttl, capacity, now)
  }

  /**
   One increment sets an absent count to 1 and a present count n to n + 1, and
   the entry stays visible until its time-to-live has passed.
   */
  lemma IncrementStepCount(items: map<string, Item<Uint64>>, items': map<string, Item<Uint64>>,
                           key: string, ttl: Duration, capacity: nat, now: Instant, t: Instant)
    requires IncrementStep(items, items', key, ttl, capacity, now)
    requires Alive(ttl, now, t)
    ensures Lookup(items, key, now).None? ==> Lookup(items', key, t) == Some(1)
    ensures Lookup(items, key, now).Some? && Lookup(items, key, now).value + 1 < Uint64Limit ==>
              Lookup(items', key, t) == Some(Lookup(items, key, now).value + 1)
  {
  }

  /**
   An increment of one key never changes the count of another: the other
   entry is either kept as it was or, when the store was full, evicted.
   */
  lemma IncrementStepFrame(items: map<string, Item<Uint64>>, items': map<string, Item<Uint64>>,
                           key: string, ttl: Duration, capacity: nat, now: Instant, other: string, t: Instant)
    requires IncrementStep(items, items', key, ttl, capacity, now)
    requires other != key
    ensures Lookup(items', other, t).Some? ==> Lookup(items', other, t) == Lookup(items, other, t)
    ensures !MustEvict(items, key, capacity, now) ==> Lookup(items', other, t) == Lookup(items, other, t)
  {
  }

  /** Increments in one window never change the count of a different window of the same raw key. */
  lemma OtherWindowUnaffected(items: map<string, Item<Uint64>>, items': map<string, Item<Uint64>>,
                              key: string, w1: Instant, w2: Instant,
                              ttl: Duration, capacity: nat, now: Instant, t: Instant)
    requires Unix(w1) != Unix(w2)
    requires IncrementStep(items, items', GenerateKey(key, w1), ttl, capacity, now)
    ensures Lookup(items', GenerateKey(key, w2), t).Some? ==>
              Lookup(items', GenerateKey(key, w2), t) == Lookup(items, GenerateKey(key, w2), t)
    ensures !MustEvict(items, GenerateKey(key, w1), capacity, now) ==>
              Lookup(items', GenerateKey(key, w2), t) == Lookup(items, GenerateKey(key, w2), t)
  {
    KeyInjectiveInWindow(key, w1, w2);
    IncrementStepFrame(items, items', GenerateKey(key, w1), ttl, capacity, now, GenerateKey(key, w2), t);
  }

  /**
   N increments of one composite key, starting from no live entry and each
   made before the previous write expired, leave a count of N.
   */
  lemma {:induction false} RepeatedIncrements(states: seq<map<string, Item<Uint64>>>, times: seq<Instant>,
                                              key: string, ttl: Duration, capacity: nat, t: Instant)
    requires 0 < |times| < Uint64Limit && |states| == |times| + 1
    requires Lookup(states[0], key, times[0]).None?
    requires forall i :: 0 <= i < |times| ==> IncrementStep(states[i], states[i + 1], key, ttl, capacity, times[i])
    requires forall i :: 0 < i < |times| ==> Alive(ttl, times[i - 1], times[i])
    requires Alive(ttl, times[|times| - 1], t)
    ensures Lookup(states[|times|], key, t) == Some(|times|)
  {
    var n := |times|;
    if n == 1 {
      IncrementStepCount(states[0], states[1], key, ttl, capacity, times[0], t);
    } else {
      assert IncrementStep(states[n - 1], states[n], key, ttl, capacity, times[n - 1]);
      assert Alive(ttl, times[n - 2], times[n - 1]);
      RepeatedIncrements(states[..n], times[..n - 1], key, ttl, capacity, times[n - 1]);
      IncrementStepCount(states[n - 1], states[n], key, ttl, capacity, times[n - 1], t);
    }
  }

  /**
   With the counter's time-to-live of twice the window length, a count written
   at `now` is still visible one window later, is gone from lookups once two
   windows have passed, and a sweep then removes it.
   */
  lemma EntryLifetime(items: map<string, Item<Uint64>>, items': map<string, Item<Uint64>>,
                      key: string, windowLen: Duration, capacity: nat, now: Instant, later: Instant)
    requires windowLen > 0
    requires IncrementStep(items, items', key, 2 * windowLen, capacity, now)
    requires later > now + 2 * windowLen
    ensures Lookup(items', key, now + windowLen).Some?
    ensures Lookup(items', key, now + 2 * windowLen).Some?
    ensures Lookup(items', key, later) == None
    ensures key !in Sweep(items', later)
  {
  }

  class MemoryCounter {
    var cache: Cache?<Uint64>
    var windowLen: Duration
    var capacity: Uint64
    var disableAutoDeleteExpired: bool

    ghost predicate Valid()
      reads this, cache
    {
      && cache != null
      && cache.Valid()
      && cache.capacity == capacity
    }

    /**
     Starts from the zero value of every field, applies the options in order,
     then creates the store with a time-to-live of 2 × windowLen and, if one is
     set, the capacity. The `windowLen` field itself is never assigned.
     */
    constructor (windowLen: Duration, opts: seq<MemoryCounterOption>)
      ensures Valid() && fresh(cache)
      ensures this.windowLen == 0
      ensures capacity == ConfiguredCapacity(opts)
      ensures disableAutoDeleteExpired == AutoDeleteDisabled(opts)
      ensures cache.ttl == 2 * windowLen
      ensures cache.capacity == capacity
      ensures cache.items == map[]
    {
      cache := null;
      this.windowLen := 0;
      capacity := 0;
      disableAutoDeleteExpired := false;
      new;
      for i := 0 to |opts|
        invariant capacity == ConfiguredCapacity(opts[..i])
        invariant disableAutoDeleteExpired == AutoDeleteDisabled(opts[..i])
        invariant this.windowLen == 0
      {
        assert opts[..i + 1][..i] == opts[..i];
        match opts[i]
        case WithCapacity(n) =>
          capacity := n;
        case DisableAutoDeleteExpired =>
          disableAutoDeleteExpired := true;
      }
      assert opts[..|opts|] == opts;
      var ttlOpts := [WithTTL(windowLen * 2)];
      assert TtlOption(ttlOpts) == windowLen * 2 && CapacityOption(ttlOpts) == 0;
      if capacity > 0 {
        var withTtl := ttlOpts;
        ttlOpts := ttlOpts + [TtlCache.WithCapacity(capacity)];
        assert ttlOpts[..|ttlOpts| - 1] == withTtl;
        assert CapacityOption(ttlOpts) == capacity;
      }
      cache := new Cache(ttlOpts);
    }

    /** The live count of the composite key of (key, window) at `now`; 0 when there is none. */
    function Get(key: string, window: Instant, now: Instant): (r: GetResult)
      requires Valid()
      reads this, cache
      ensures r.err == None
      ensures 0 <= r.count < Uint64Limit
      ensures Lookup(cache.items, GenerateKey(key, window), now).None? ==> r.count == 0
      ensures Lookup(cache.items, GenerateKey(key, window), now).Some? ==>
                r.count == Lookup(cache.items, GenerateKey(key, window), now).value
    {
      var i := cache.Get(GenerateKey(key, window), now);
      if i.None? then GetResult(0, None) else GetResult(i.value, None)
    }

    /** Adds one to the count of (key, currWindow), writing it back with the default time-to-live. */
    method Increment(key: string, currWindow: Instant, now: Instant) returns (err: Option<CounterError>)
      requires Valid()
      modifies cache
      ensures Valid()
      ensures err == None
      ensures IncrementStep(old(cache.items), cache.items, GenerateKey(key, currWindow), cache.ttl, capacity, now)
    {
      var k := GenerateKey(key, currWindow);
      var i := cache.Get(k, now);
      var v: Uint64;
      if i.Some? {
        v := (i.value + 1) % Uint64Limit;
      } else {
        v := 1;
      }
      cache.Set(k, v, now);
      err := None;
    }

    /** Removes every expired entry from the store. */
    method DeleteExpired(now: Instant)
      requires Valid()
      modifies cache
      ensures Valid()
      ensures cache.items == Sweep(old(cache.items), now)
    {
      cache.DeleteExpired(now);
    }
  }
}
