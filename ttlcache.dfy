/**
 The expiring key-value store the counter keeps its counts in. The library it
 stands for is not part of this model; only the behaviour the counter relies
 on is kept: a default time-to-live stamped on each write, lookups that treat
 expired entries as absent, an optional capacity enforced by evicting one
 entry before a new key is inserted, and an explicit sweep of expired entries.
 Instants and durations are integers (nanoseconds).
 */
module TtlCache {
  import opened Wrappers

  /** A stored value with the time-to-live it was written with and its expiry instant. */
  datatype Item<V> = Item(value: V, ttl: int, expiresAt: int)

  /** Construction options of the cache; a later option overrides an earlier one. */
  datatype CacheOption = WithTTL(ttl: int) | WithCapacity(capacity: nat)

  /** The default time-to-live the options set; 0 (no expiry) when none is given. */
  function TtlOption(opts: seq<CacheOption>): int {
    if opts == [] then 0
    else match opts[|opts| - 1]
      case WithTTL(ttl) => ttl
      case WithCapacity(_) => TtlOption(opts[..|opts| - 1])
  }

  /** The capacity the options set; 0 (unbounded) when none is given. */
  function CapacityOption(opts: seq<CacheOption>): nat {
    if opts == [] then 0
    else match opts[|opts| - 1]
      case WithCapacity(capacity) => capacity
      case WithTTL(_) => CapacityOption(opts[..|opts| - 1])
  }

  /** An item expires strictly after its expiry instant; a non-positive ttl never expires. */
  predicate Expired<V>(item: Item<V>, now: int) {
    item.ttl > 0 && item.expiresAt < now
  }

  /** An entry written at `writtenAt` with time-to-live `ttl` is still live at `now`. */
  predicate Alive(ttl: int, writtenAt: int, now: int) {
    ttl <= 0 || now <= writtenAt + ttl
  }

  /** The item a write at `now` stores. */
  function Stamp<V>(value: V, ttl: int, now: int): (item: Item<V>)
    ensures forall t :: !Expired(item, t) <==> Alive(ttl, now, t)
  {
    Item(value, ttl, now + ttl)
  }

  /** The value stored under `key` at `now`, if its entry is present and not expired. */
  function Lookup<V>(items: map<string, Item<V>>, key: string, now: int): Option<V> {
    if key in items && !Expired(items[key], now) then Some(items[key].value) else None
  }

  /** A bounded store that has no room for another key. */
  predicate AtCapacity<V>(items: map<string, Item<V>>, capacity: nat) {
    capacity > 0 && |items| >= capacity
  }

  /** Writing `key` at `now` must first evict an entry. */
  predicate MustEvict<V>(items: map<string, Item<V>>, key: string, capacity: nat, now: int) {
    Lookup(items, key, now).None? && AtCapacity(items, capacity)
  }

  /**
   The relation between the entries before and after a write of `value` under
   `key` at `now`: the key holds a freshly stamped item; no other entry is
   created or changed; a live key is overwritten in place; otherwise, when the
   store is full, exactly one entry (chosen by the cache) is evicted first.
   */
  ghost predicate SetStep<V>(items: map<string, Item<V>>, items': map<string, Item<V>>,
                             key: string, value: V, ttl: int, capacity: nat, now: int)
  {
    && key in items' && items'[key] == Stamp(value, ttl, now)
    && (forall k :: k in items' && k != key ==> k in items && items'[k] == items[k])
    && if MustEvict(items, key, capacity, now) then
         exists victim :: victim in items && items'.Keys == items.Keys - {victim} + {key}
       else
         items'.Keys == items.Keys + {key}
  }

  /** The entries an expiry sweep at `now` keeps. */
  function Sweep<V>(items: map<string, Item<V>>, now: int): (r: map<string, Item<V>>)
    ensures r.Keys <= items.Keys && |r| <= |items|
  {
    var r := map k | k in items && !Expired(items[k], now) :: items[k];
    SubsetCardinality(r.Keys, items.Keys);
    r
  }

  lemma {:induction false} SubsetCardinality(a: set<string>, b: set<string>)
    requires a <= b
    ensures |a| <= |b|
  {
    if a != {} {
      var x :| x in a;
      SubsetCardinality(a - {x}, b - {x});
    }
  }

  /** With capacity C, a write never leaves more than C entries. */
  lemma SetStepKeepsBound<V>(items: map<string, Item<V>>, items': map<string, Item<V>>,
                             key: string, value: V, ttl: int, capacity: nat, now: int)
    requires SetStep(items, items', key, value, ttl, capacity, now)
    requires capacity > 0 && |items| <= capacity
    ensures |items'| <= capacity
  {
  }

  /** With no capacity, a write never evicts: every key present before is still present. */
  lemma UnboundedSetKeepsKeys<V>(items: map<string, Item<V>>, items': map<string, Item<V>>,
                                 key: string, value: V, ttl: int, now: int)
    requires SetStep(items, items', key, value, ttl, 0, now)
    ensures items.Keys <= items'.Keys
    ensures forall k :: k in items && k != key ==> k in items' && items'[k] == items[k]
  {
  }

  /** A sweep removes exactly the expired entries and keeps the others as they were. */
  lemma SweepRemovesExactlyExpired<V>(items: map<string, Item<V>>, now: int, key: string)
    ensures key in Sweep(items, now) <==> key in items && !Expired(items[key], now)
    ensures key in Sweep(items, now) ==> Sweep(items, now)[key] == items[key]
    ensures |Sweep(items, now)| <= |items|
  {
  }

  /**
   A sweep cannot be observed through lookups at its own instant or later:
   it only removes entries that lookups already treat as absent.
   */
  lemma SweepPreservesLookup<V>(items: map<string, Item<V>>, now: int, key: string, t: int)
    requires now <= t
    ensures Lookup(Sweep(items, now), key, t) == Lookup(items, key, t)
  {
  }

  /** Sweeping twice at the same instant removes nothing more. */
  lemma SweepIdempotent<V>(items: map<string, Item<V>>, now: int)
    ensures Sweep(Sweep(items, now), now) == Sweep(items, now)
  {
  }

  class Cache<V> {
    var items: map<string, Item<V>>
    const ttl: int
    const capacity: nat

    ghost predicate Valid()
      reads this
    {
      capacity > 0 ==> |items| <= capacity
    }

    constructor (opts: seq<CacheOption>)
      ensures Valid()
      ensures items == map[]
      ensures ttl == TtlOption(opts) && capacity == CapacityOption(opts)
    {
      items := map[];
      ttl := TtlOption(opts);
      capacity := CapacityOption(opts);
    }

    /** The live value under `key` at `now`. */
    function Get(key: string, now: int): Option<V>
      reads this
    {
      Lookup(items, key, now)
    }

    /** Stores `value` under `key` with the default time-to-live. */
    method Set(key: string, value: V, now: int)
      requires Valid()
      modifies this
      ensures Valid()
      ensures SetStep(old(items), items, key, value, ttl, capacity, now)
    {
      if MustEvict(items, key, capacity, now) {
        assert items.Keys != {} by {
          assert |items.Keys| > 0;
        }
        // The cache evicts its least recently used entry; which one is not modelled.
        var victim :| victim in items;
        items := items - {victim};
        items := items[key := Stamp(value, ttl, now)];
        assert items.Keys == old(items).Keys - {victim} + {key};
      } else {
        items := items[key := Stamp(value, ttl, now)];
      }
      if capacity > 0 {
        SetStepKeepsBound(old(items), items, key, value, ttl, capacity, now);
      }
    }

    /** Removes every expired entry. */
    method DeleteExpired(now: int)
      requires Valid()
      modifies this
      ensures Valid()
      ensures items == Sweep(old(items), now)
    {
      items := Sweep(items, now);
    }
  }
}
