/** The cache component. Every method runs under the component's mutex, so each is one step. */
module CacheManager {
  import opened Results
  import opened MachineInts
  import opened CacheKeys
  import opened CacheModel

  class CacheManager {
    var cache: Cache

    constructor ()
      ensures cache == map[]
    {
      cache := map[];
    }

    method Get(key: string, now: int) returns (value: Option<string>)
      modifies this
      ensures (cache, value) == Step(Lazy, old(cache), CacheModel.Get(key, now))
    {
      if key !in cache {
        return None;
      }
      if now > cache[key].expiresAt {
        cache := cache - {key};
        return None;
      }
      return Some(cache[key].value);
    }

    method Set(key: string, value: string, ttlSeconds: int, now: int)
      modifies this
      ensures cache == Step(Lazy, old(cache), CacheModel.Set(key, value, ttlSeconds, now)).0
    {
      cache := cache[key := CacheEntry(value, now + ttlSeconds * SECOND)];
    }

    method Invalidate(key: string)
      modifies this
      ensures cache == old(cache) - {key}
    {
      cache := cache - {key};
    }

    /** The iterator visits the entries in the hash map's own order, which the loop leaves open: each turn takes
        any entry not visited yet, erases it if it matches and moves on. Nothing else is touched. */
    method InvalidateByPrefix(prefix: string)
      modifies this
      ensures cache == Swept(old(cache), prefix)
    {
      var unvisited := cache.Keys;
      while unvisited != {}
        invariant unvisited <= cache.Keys <= old(cache).Keys
        invariant forall key :: key in old(cache) ==>
                    (key in cache <==> key in unvisited || !StartsWith(key, prefix))
        invariant forall key :: key in cache ==> cache[key] == old(cache)[key]
        decreases |unvisited|
      {
        var key :| key in unvisited;
        unvisited := unvisited - {key};
        if StartsWith(key, prefix) {
          cache := cache - {key};
        }
      }
    }
  }
}
