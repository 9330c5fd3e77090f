/** The in-process TTL cache (app/_cache.py). */
module TtlCache {
  import opened Common

  datatype Entry<V> = Entry(value: V, expires: Time)

  /** What a lookup at `now` returns: an entry is dead from its expiry instant on. */
  function Lookup<K, V>(store: map<K, Entry<V>>, key: K, now: Time): (hit: Option<V>)
    ensures hit.Some? <==> key in store && now < store[key].expires
    ensures hit.Some? ==> hit.value == store[key].value
  {
    if key !in store || store[key].expires <= now then None else Some(store[key].value)
  }

  function Stored<K, V>(store: map<K, Entry<V>>, key: K, value: V, now: Time, ttl: Time): map<K, Entry<V>> {
    store[key := Entry(value, now + ttl)]
  }

  /** A value that was set is returned until its TTL has passed or its key is touched again, and never after. */
  lemma StoredIsReadUntilExpiry<K, V>(store: map<K, Entry<V>>, key: K, value: V, now: Time, ttl: Time, later: Time,
                                      other: K)
    ensures Lookup(Stored(store, key, value, now, ttl), key, later) == if later < now + ttl then Some(value) else None
    ensures other != key ==> Lookup(Stored(store, key, value, now, ttl), other, later) == Lookup(store, other, later)
  {
  }

  class Cache<V> {
    const ttl: Time
    var store: map<string, Entry<V>>

    constructor (ttl: Time)
      ensures this.ttl == ttl && store == map[]
    {
      this.ttl := ttl;
      store := map[];
    }

    method Get(key: string, now: Time) returns (hit: Option<V>)
      ensures hit == Lookup(store, key, now)
    {
      if key !in store {
        return None;
      }
      var entry := store[key];
      hit := if entry.expires <= now then None else Some(entry.value);
    }

    method Set(key: string, value: V, now: Time, override: Option<Time>)
      modifies this
      ensures store == Stored(old(store), key, value, now, if override.Some? then override.value else ttl)
    {
      var expires := now + if override.Some? then override.value else ttl;
      store := store[key := Entry(value, expires)];
    }

    /** Without a key, everything goes. */
    method Invalidate(key: Option<string>)
      modifies this
      ensures store == if key.Some? then old(store) - {key.value} else map[]
    {
      if key.None? {
        store := map[];
      } else {
        store := map k | k in store && k != key.value :: store[k];
      }
    }
  }
}
