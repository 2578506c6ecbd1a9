/** The in-memory cache with expiry, proved against the log of what was done to it
    (acapy_agent/cache/in_memory.py). The clock never runs backwards; a purge reads it once for every item, so time
    passes while it runs. */
module InMemoryCache {
  import opened Prelude

  type Key = string

  datatype Item<+V> = Item(expires: Option<real>, value: V)

  /** `purge(k)` is what the clock shows when the purge looks at the item of `k`; `at` is the time after that. */
  datatype Op<V> =
    | Set(keys: seq<Key>, value: V, ttl: Option<real>, purge: Key -> real, at: real)
    | Clear(key: Key)
    | Flush
    | Get(key: Key, purge: Key -> real, at: real)

  /** Python's truth: no ttl and a ttl of zero both mean forever. */
  function Expiry(ttl: Option<real>, at: real): Option<real> {
    if ttl.None? || ttl.value == 0.0 then None else Some(at + ttl.value)
  }

  predicate Alive(expires: Option<real>, now: real) {
    expires.None? || now < expires.value
  }

  /** The reference: the last value set for the key since the last clear or flush, if it is not expired. */
  function Expected<V>(log: seq<Op<V>>, key: Key, now: real): Option<V> {
    if log == [] then None
    else match log[|log| - 1]
      case Set(keys, value, ttl, _, at) =>
        if key in keys then (if Alive(Expiry(ttl, at), now) then Some(value) else None)
        else Expected(log[..|log| - 1], key, now)
      case Clear(k) => if k == key then None else Expected(log[..|log| - 1], key, now)
      case Flush => None
      case Get(_, _, _) => Expected(log[..|log| - 1], key, now)
  }

  function Lookup<V>(items: map<Key, Item<V>>, key: Key, now: real): Option<V> {
    if key in items && Alive(items[key].expires, now) then Some(items[key].value) else None
  }

  function Purged<V>(items: map<Key, Item<V>>, purge: Key -> real): map<Key, Item<V>> {
    map k | k in items && Alive(items[k].expires, purge(k)) :: items[k]
  }

  function Stored<V>(items: map<Key, Item<V>>, keys: seq<Key>, item: Item<V>): map<Key, Item<V>> {
    map k | k in items.Keys + (set k' | k' in keys) :: if k in keys then item else items[k]
  }

  /** What the cache does to its dictionary. */
  function Apply<V>(items: map<Key, Item<V>>, op: Op<V>): map<Key, Item<V>> {
    match op
    case Set(keys, value, ttl, purge, at) => Stored(Purged(items, purge), keys, Item(Expiry(ttl, at), value))
    case Clear(key) => items - {key}
    case Flush => map[]
    case Get(_, purge, _) => Purged(items, purge)
  }

  function Contents<V>(log: seq<Op<V>>): map<Key, Item<V>> {
    if log == [] then map[] else Apply(Contents(log[..|log| - 1]), log[|log| - 1])
  }

  function Time<V>(op: Op<V>, before: real): real {
    if op.Set? || op.Get? then op.at else before
  }

  /** The clock after a log that started at `start`. */
  function Clock<V>(start: real, log: seq<Op<V>>): real {
    if log == [] then start else Time(log[|log| - 1], Clock(start, log[..|log| - 1]))
  }

  /** All readings of an operation lie between the operation before it and its own end. */
  ghost predicate ReadsBetween<V>(before: real, op: Op<V>) {
    op.Set? || op.Get? ==> before <= op.at && forall k: Key :: before <= op.purge(k) <= op.at
  }

  ghost predicate Ordered<V>(start: real, log: seq<Op<V>>) {
    log != [] ==>
      && Ordered(start, log[..|log| - 1])
      && ReadsBetween(Clock(start, log[..|log| - 1]), log[|log| - 1])
  }

  /** Purging is unobservable at the time of looking at an item and ever after. */
  lemma PurgeUnobservable<V>(items: map<Key, Item<V>>, key: Key, purge: Key -> real, now: real)
    requires purge(key) <= now
    ensures Lookup(Purged(items, purge), key, now) == Lookup(items, key, now)
  {
  }

  /** After any history with a clock that never runs backwards, the dictionary answers as the log says. */
  lemma {:induction false} CacheRefinesLog<V>(start: real, log: seq<Op<V>>, key: Key, now: real)
    requires Ordered(start, log) && Clock(start, log) <= now
    ensures Lookup(Contents(log), key, now) == Expected(log, key, now)
  {
    if log != [] {
      CacheRefinesLog(start, log[..|log| - 1], key, now);
      var op, items := log[|log| - 1], Contents(log[..|log| - 1]);
      if op.Set? || op.Get? {
        PurgeUnobservable(items, key, op.purge, now);
      }
    }
  }

  /** A value set with a ttl is returned before it expires and never again after. */
  lemma {:induction false} ExpiryIsFinal<V>(
      start: real, log: seq<Op<V>>, key: Key, value: V, ttl: real, purge: Key -> real, at: real, now: real)
    requires Ordered(start, log) && ReadsBetween(Clock(start, log), Set([key], value, Some(ttl), purge, at))
    requires at <= now && ttl != 0.0
    ensures Lookup(Contents(log + [Set([key], value, Some(ttl), purge, at)]), key, now) ==
            if now < at + ttl then Some(value) else None
  {
    var log' := log + [Set([key], value, Some(ttl), purge, at)];
    assert log'[..|log'| - 1] == log;
    CacheRefinesLog(start, log', key, now);
  }

  /** A purge drops exactly the items that have expired when it looks at them. */
  lemma PurgeDrops<V>(items: map<Key, Item<V>>, purge: Key -> real, k: Key)
    ensures k in Purged(items, purge) <==>
            k in items && (items[k].expires == None || purge(k) < items[k].expires.value)
    ensures k in Purged(items, purge) ==> Purged(items, purge)[k] == items[k]
  {
  }

  /** Setting stores the value under every key with the same expiry, drops the other items that have expired when they
      are looked at, and leaves the rest. */
  lemma SetStores<V>(items: map<Key, Item<V>>, keys: seq<Key>, value: V, ttl: Option<real>, purge: Key -> real, at: real)
    ensures var items' := Apply(items, Set(keys, value, ttl, purge, at));
      && (forall k :: k in keys ==>
            && k in items' && items'[k].value == value
            && items'[k].expires == if ttl == None || ttl == Some(0.0) then None else Some(at + ttl.value))
      && (forall k :: k !in keys ==>
            && (k in items' <==> k in items && (items[k].expires == None || purge(k) < items[k].expires.value))
            && (k in items' ==> items'[k] == items[k]))
  {
  }

  /** A value set without a ttl, or with a ttl of zero, is found whatever the time, until something else happens to
      its key. */
  lemma {:induction false} NoTtlIsForever<V>(
      start: real, log: seq<Op<V>>, key: Key, value: V, ttl: Option<real>, purge: Key -> real, at: real, now: real)
    requires Ordered(start, log) && ReadsBetween(Clock(start, log), Set([key], value, ttl, purge, at))
    requires at <= now && (ttl == None || ttl == Some(0.0))
    ensures Lookup(Contents(log + [Set([key], value, ttl, purge, at)]), key, now) == Some(value)
    ensures Lookup(Contents(log + [Set([key], value, ttl, purge, at)] + [Clear(key)]), key, now) == None
    ensures Lookup(Contents(log + [Set([key], value, ttl, purge, at)] + [Flush]), key, now) == None
  {
    var log' := log + [Set([key], value, ttl, purge, at)];
    assert log'[..|log'| - 1] == log;
    assert (log' + [Clear(key)])[..|log'|] == log' && (log' + [Flush])[..|log'|] == log';
  }

  class InMemoryCache<V> {
    var cache: map<Key, Item<V>>
    ghost var start: real
    ghost var log: seq<Op<V>>

    ghost predicate Valid()
      reads this
    {
      cache == Contents(log) && Ordered(start, log)
    }

    constructor (ghost now: real)
      ensures Valid() && log == [] && start == now
    {
      cache, log, start := map[], [], now;
    }

    ghost method Record(op: Op<V>)
      requires Ordered(start, log) && ReadsBetween(Clock(start, log), op)
      modifies this`log
      ensures log == old(log) + [op] && Ordered(start, log) && Contents(log) == Apply(Contents(old(log)), op)
      ensures Clock(start, log) == Time(op, Clock(start, old(log)))
    {
      log := log + [op];
      assert log[..|log| - 1] == old(log);
    }

    /** Iterates over a copy and deletes from the original, reading the clock for every item that can expire. */
    method RemoveExpired(purge: Key -> real)
      modifies this`cache
      ensures cache == Purged(old(cache), purge)
    {
      var copy := cache;
      var todo := copy.Keys;
      while todo != {}
        invariant todo <= copy.Keys
        invariant cache == map k | k in copy && (k in todo || Alive(copy[k].expires, purge(k))) :: copy[k]
        decreases todo
      {
        ghost var m := Member(todo);
        var k :| k in todo;
        if copy[k].expires.Some? {
          var now := purge(k);
          if now >= copy[k].expires.value {
            cache := cache - {k};
          }
        }
        todo := todo - {k};
      }
    }

    /** The answer is the log's, as of the moment at which the purge looks at the key's own item. */
    method GetItem(key: Key, purge: Key -> real, ghost now: real) returns (r: Option<V>)
      requires Valid() && ReadsBetween<V>(Clock(start, log), Get(key, purge, now))
      modifies this
      ensures Valid() && start == old(start) && log == old(log) + [Get(key, purge, now)]
      ensures r == Expected(old(log), key, purge(key))
      ensures r == if key in old(cache)
                      && (old(cache)[key].expires == None || purge(key) < old(cache)[key].expires.value)
                   then Some(old(cache)[key].value) else None
    {
      CacheRefinesLog(start, log, key, purge(key));
      RemoveExpired(purge);
      r := if key in cache then Some(cache[key].value) else None;
      Record(Get(key, purge, now));
    }

    method SetItem(keys: seq<Key>, value: V, ttl: Option<real>, purge: Key -> real, now: real)
      requires Valid() && ReadsBetween(Clock(start, log), Set(keys, value, ttl, purge, now))
      modifies this
      ensures Valid() && start == old(start) && log == old(log) + [Set(keys, value, ttl, purge, now)]
    {
      RemoveExpired(purge);
      var expires := if ttl.Some? && ttl.value != 0.0 then Some(now + ttl.value) else None;
      ghost var items := cache;
      for i := 0 to |keys|
        modifies this`cache
        invariant cache == Stored(items, keys[..i], Item(expires, value))
      {
        cache := cache[keys[i] := Item(expires, value)];
        StoreOneMore(items, keys, i, Item(expires, value));
      }
      assert keys[..|keys|] == keys;
      Record(Set(keys, value, ttl, purge, now));
    }

    method ClearItem(key: Key)
      requires Valid()
      modifies this
      ensures Valid() && start == old(start) && log == old(log) + [Clear(key)] && cache == old(cache) - {key}
    {
      if key in cache {
        cache := cache - {key};
      }
      Record(Clear(key));
    }

    method FlushAll()
      requires Valid()
      modifies this
      ensures Valid() && start == old(start) && log == old(log) + [Flush] && cache == map[]
    {
      cache := map[];
      Record(Flush);
    }
  }

  lemma StoreOneMore<V>(items: map<Key, Item<V>>, keys: seq<Key>, i: nat, item: Item<V>)
    requires i < |keys|
    ensures Stored(items, keys[..i + 1], item) == Stored(items, keys[..i], item)[keys[i] := item]
  {
    assert keys[..i + 1] == keys[..i] + [keys[i]];
  }

}
