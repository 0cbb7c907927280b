/** `IMemoryCache`: a string-keyed map of cached values. */
module Caching {
  import opened Wrappers

  class MemoryCache<V> {
    var entries: map<string, V>

    constructor ()
      ensures entries == map[]
    {
      entries := map[];
    }

    /** `TryGetValue`: the cached value, if any. */
    method TryGetValue(key: string) returns (r: Option<V>)
      ensures r.Some? <==> key in entries
      ensures r.Some? ==> r.value == entries[key]
    {
      if key in entries {
        r := Some(entries[key]);
      } else {
        r := None;
      }
    }

    /** `Set`: stores the value under the key, replacing any earlier one. */
    method Set(key: string, value: V)
      modifies this
      ensures entries == old(entries)[key := value]
    {
      entries := entries[key := value];
    }

    /** `Remove`: forgets the key; a missing key is not an error. */
    method Remove(key: string)
      modifies this
      ensures entries == old(entries) - {key}
    {
      entries := entries - {key};
    }
  }
}
