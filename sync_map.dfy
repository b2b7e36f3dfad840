/** Go's `sync.Map`, the store behind the concurrent maps and sets, seen by one
    goroutine at a time: a map from keys to values with the five operations
    the containers call. Atomicity and memory ordering are not modelled. */
module GoSync {
  import opened OptionMonad
  import opened MapSpec

  class SyncMap<K(==), V> {
    var contents: map<K, V>

    /** The zero `sync.Map` is empty and ready to use. */
    constructor ()
      ensures contents == map[]
    {
      contents := map[];
    }

    method Load(key: K) returns (r: Option<V>)
      ensures r.IsSome() <==> key in contents
      ensures r.IsSome() ==> r.value == contents[key]
    {
      r := if key in contents then Some(contents[key]) else None;
    }

    method Store(key: K, value: V)
      modifies this
      ensures contents == old(contents)[key := value]
    {
      contents := contents[key := value];
    }

    /** Returns the existing value and true if the key is present, and
        otherwise stores the given value and returns it with false. */
    method LoadOrStore(key: K, value: V) returns (actual: V, loaded: bool)
      modifies this
      ensures loaded <==> key in old(contents)
      ensures loaded ==> actual == old(contents)[key] && contents == old(contents)
      ensures !loaded ==> actual == value && contents == old(contents)[key := value]
    {
      loaded := key in contents;
      if loaded {
        actual := contents[key];
      } else {
        actual := value;
        contents := contents[key := value];
      }
    }

    /** Deletes the key, returning the value it had, if any. */
    method LoadAndDelete(key: K) returns (r: Option<V>)
      modifies this
      ensures r.IsSome() <==> key in old(contents)
      ensures r.IsSome() ==> r.value == old(contents)[key]
      ensures contents == old(contents) - {key}
    {
      r := if key in contents then Some(contents[key]) else None;
      contents := contents - {key};
    }

    method Clear()
      modifies this
      ensures contents == map[]
    {
      contents := map[];
    }

    /** The order in which Range calls its callback: every key once, in an
        unspecified order. The callers run the callback body themselves. */
    method Range() returns (ks: seq<K>)
      ensures Enumerates(ks, contents.Keys)
    {
      ks := RangeKeys(contents);
    }
  }
}
