/** The Redis cache of resolved links: key `short:<code>` holds the long URL. */
module Cache {
  import opened Types

  const KeyPrefix := "short:"

  /** Seconds a resolved link stays cached (`'EX', 3600`). */
  const TtlSeconds: nat := 3600

  function CacheKey(code: string): (key: string)
    ensures |key| == |KeyPrefix| + |code| && key[|KeyPrefix|..] == code
  {
    KeyPrefix + code
  }

  /** Distinct codes never share a cache key. */
  lemma CacheKeyInjective(a: string, b: string)
    requires CacheKey(a) == CacheKey(b)
    ensures a == b
  {
    assert a == CacheKey(a)[|KeyPrefix|..];
  }

  /** `redis.get(key)`: the stored string, or `null` when the key is absent. */
  function Get(cache: map<string, CacheEntry>, key: string): Option<string> {
    if key in cache then Some(cache[key].value) else None
  }

  /** Reads after the cache writes the handlers make: `redis.set` is read
      back, `redis.del` (and expiry) makes the key absent, and neither changes
      what any other key reads. */
  lemma ReadAfterWrite(cache: map<string, CacheEntry>, key: string, e: CacheEntry, other: string)
    requires other != key
    ensures Get(cache[key := e], key) == Some(e.value)
    ensures Get(cache - {key}, key) == None
    ensures Get(cache[key := e], other) == Get(cache, other)
    ensures Get(cache - {key}, other) == Get(cache, other)
  {
  }

  /** The key's time-to-live elapsed: Redis drops it. */
  function Expire(st: State, key: string): (st': State)
    ensures key !in st'.cache
    ensures forall k :: k != key ==> Get(st'.cache, k) == Get(st.cache, k)
    ensures st'.urls == st.urls && st'.users == st.users
  {
    st.(cache := st.cache - {key})
  }
}
