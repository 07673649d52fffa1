/** The time-to-live cache (`util.Cache`) and the entry record that every
    upstream service keeps in its own cache map. The clock is the explicit
    parameter `now` (milliseconds); expiry is checked lazily, on read. */
module TtlCache {
  import opened Wrappers

  /** `CacheEntry`: a value and the absolute instant at which it expires. */
  datatype Entry<V> = Entry(value: V, expiresAt: int) {
    /** Active strictly before the expiry instant. */
    predicate IsActive(now: int) {
      now < expiresAt
    }
  }

  /** One hour, in milliseconds. */
  const DefaultTtlMillis: int := 60 * 60 * 1000

  lemma EntryActiveUntilExpiry<V>(e: Entry<V>, now: int)
    ensures e.IsActive(now) <==> now < e.expiresAt
    ensures !e.IsActive(e.expiresAt)
  {
  }

  class Cache<K(==), V> {
    var entries: map<K, Entry<V>>
    var ttl: int

    constructor ()
      ensures entries == map[] && ttl == DefaultTtlMillis
    {
      entries := map[];
      ttl := DefaultTtlMillis;
    }

    /** `new Cache(ttl)` with a non-null duration. */
    constructor WithTtl(ttlMillis: int)
      ensures entries == map[] && ttl == ttlMillis
    {
      entries := map[];
      ttl := ttlMillis;
    }

    /** `setTtl`: a null duration (`None`) is rejected with an exception and
        leaves the configured one in place. */
    method SetTtl(ttlMillis: Option<int>) returns (accepted: bool)
      modifies this
      ensures accepted <==> ttlMillis.Some?
      ensures ttl == if accepted then ttlMillis.value else old(ttl)
      ensures entries == old(entries)
    {
      if ttlMillis.None? {
        return false;
      }
      ttl := ttlMillis.value;
      return true;
    }

    /** `put(key, value, ttlMillis)`: replaces any earlier entry for `key`. */
    method Put(key: K, value: V, ttlMillis: int, now: int)
      modifies this
      ensures entries == old(entries)[key := Entry(value, now + ttlMillis)]
      ensures ttl == old(ttl)
    {
      entries := entries[key := Entry(value, now + ttlMillis)];
    }

    /** `put(key, value)` with the configured time-to-live. */
    method PutDefault(key: K, value: V, now: int)
      modifies this
      ensures entries == old(entries)[key := Entry(value, now + old(ttl))]
      ensures ttl == old(ttl)
    {
      Put(key, value, ttl, now);
    }

    /** `containsKey`: an active entry exists; nothing is removed. */
    function ContainsKey(key: K, now: int): (r: bool)
      reads this
      ensures r ==> key in entries && now < entries[key].expiresAt
      ensures key in entries && now < entries[key].expiresAt ==> r
    {
      key in entries && entries[key].IsActive(now)
    }

    /** `get(key)`: the value of an active entry; otherwise the entry (if any)
        is removed and the answer is null. Other keys are untouched. */
    method Get(key: K, now: int) returns (r: Option<V>)
      modifies this
      ensures r.Some? <==> old(ContainsKey(key, now))
      ensures r.Some? ==> r.value == old(entries)[key].value && entries == old(entries)
      ensures r.None? ==> entries == old(entries) - {key}
      ensures ttl == old(ttl)
    {
      if key in entries && entries[key].IsActive(now) {
        return Some(entries[key].value);
      }
      entries := entries - {key};
      return None;
    }

    /** `clear()` */
    method Clear()
      modifies this
      ensures entries == map[]
      ensures forall key: K, now: int :: !ContainsKey(key, now)
      ensures ttl == old(ttl)
    {
      entries := map[];
    }

    /** `get(key, fetcher)`: an active value is returned without calling the
        fetcher; otherwise the fetcher is called once (`fetched` is what it
        produces, `None` for null) and a non-null result is stored with the
        configured time-to-live. The answer is what the fetcher produced. */
    method GetOrFetch(key: K, now: int, fetched: Option<V>) returns (r: Option<V>, fetcherCalled: bool)
      modifies this
      ensures fetcherCalled <==> !old(ContainsKey(key, now))
      ensures !fetcherCalled ==> r == Some(old(entries)[key].value) && entries == old(entries)
      ensures fetcherCalled ==> r == fetched
      ensures fetcherCalled && fetched.Some? ==>
        entries == old(entries)[key := Entry(fetched.value, now + old(ttl))]
      ensures fetcherCalled && fetched.None? ==> entries == old(entries) - {key}
      ensures ttl == old(ttl)
    {
      r := Get(key, now);
      if r.Some? {
        return r, false;
      }
      r := fetched;
      if r.Some? {
        PutDefault(key, r.value, now);
      }
      fetcherCalled := true;
    }
  }
}
