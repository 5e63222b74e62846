/** The in-process key/value cache with prefix and pattern deletion. */
module MemoryCache {
  import opened Prelude
  import opened GoStrings
  import opened Glob

  class InMemoryCache<V> {
    var data: map<string, V>

    constructor ()
      ensures data == map[]
    {
      data := map[];
    }

    method Get(key: string) returns (value: Option<V>)
      ensures value == if key in data then Some(data[key]) else None
    {
      value := if key in data then Some(data[key]) else None;
    }

    method Set(key: string, value: V)
      modifies this
      ensures data == old(data)[key := value]
    {
      data := data[key := value];
    }

    method Delete(key: string)
      modifies this
      ensures data == old(data) - {key}
    {
      data := data - {key};
    }

    method DeleteByPrefix(prefix: string)
      modifies this
      ensures data == map k | k in old(data) && !HasPrefix(k, prefix) :: old(data)[k]
    {
      var keysToDelete: seq<string> := [];
      var keys := data.Keys;
      while keys != {}
        invariant keys <= data.Keys && data == old(data)
        invariant forall k :: k in keysToDelete <==> k in data.Keys - keys && HasPrefix(k, prefix)
        decreases |keys|
      {
        var key :| key in keys;
        if HasPrefix(key, prefix) {
          keysToDelete := keysToDelete + [key];
        }
        keys := keys - {key};
      }
      DeleteAll(keysToDelete);
    }

    method DeletePattern(pattern: string)
      modifies this
      ensures data == map k | k in old(data) && !Accepts(k, pattern) :: old(data)[k]
    {
      var keysToDelete: seq<string> := [];
      var keys := data.Keys;
      while keys != {}
        invariant keys <= data.Keys && data == old(data)
        invariant forall k :: k in keysToDelete <==> k in data.Keys - keys && Accepts(k, pattern)
        decreases |keys|
      {
        var key :| key in keys;
        var matched := MatchPattern(key, pattern);
        if matched {
          keysToDelete := keysToDelete + [key];
        }
        keys := keys - {key};
      }
      DeleteAll(keysToDelete);
    }

    method DeleteAll(keys: seq<string>)
      modifies this
      ensures data == map k | k in old(data) && k !in keys :: old(data)[k]
    {
      for i := 0 to |keys|
        invariant data == map k | k in old(data) && k !in keys[..i] :: old(data)[k]
      {
        data := data - {keys[i]};
      }
    }
  }
}
