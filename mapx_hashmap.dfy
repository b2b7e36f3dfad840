/** mapx/hashmap/map.go: a HashMap over a Go map, with Option and Result returns.
    Go's `reflect.DeepEqual` on values is `==`. */
module MapxHashMap {
  import opened OptionMonad
  import opened ResultMonad
  import opened Errors
  import opened MapSpec

  class HashMap<K(==), V(==)> {
    var elements: map<K, V>

    constructor ()
      ensures elements == map[]
    {
      elements := map[];
    }

    /** Replaces the map by a fresh empty one. */
    method Clear()
      modifies this
      ensures elements == map[]
    {
      elements := map[];
    }

    function ContainsKey(key: K): (b: bool)
      reads this
      ensures b <==> Get(key).IsSome()
    {
      key in elements
    }

    /** True iff some key maps to the value. */
    method ContainsValue(value: V) returns (b: bool)
      ensures b <==> value in elements.Values
    {
      var ks := RangeKeys(elements);
      var i := 0;
      while i < |ks|
        invariant 0 <= i <= |ks|
        invariant forall j :: 0 <= j < i ==> elements[ks[j]] != value
      {
        if elements[ks[i]] == value {
          return true;
        }
        i := i + 1;
      }
      forall w | w in elements.Values
        ensures w != value
      {
        var k :| k in elements && elements[k] == w;
        var j :| 0 <= j < |ks| && ks[j] == k;
      }
      return false;
    }

    /** Every entry once, in iteration order. */
    method Entries() returns (r: seq<Entry<K, V>>)
      ensures exists ks :: EntriesAlong(r, ks, elements)
      ensures |r| == |elements|
      ensures forall k :: k in elements ==> Entry(k, elements[k]) in r
      ensures forall i :: 0 <= i < |r| ==> r[i].key in elements && elements[r[i].key] == r[i].value
    {
      var ks := RangeKeys(elements);
      r := [];
      var i := 0;
      while i < |ks|
        invariant 0 <= i <= |ks|
        invariant |r| == i
        invariant forall j :: 0 <= j < i ==> r[j] == Entry(ks[j], elements[ks[j]])
      {
        r := r + [Entry(ks[i], elements[ks[i]])];
        i := i + 1;
      }
      assert EntriesAlong(r, ks, elements);
      EntryListFacts(r, ks, elements);
    }

    function Get(key: K): (r: Option<V>)
      reads this
      ensures r.IsSome() <==> key in elements
      ensures r.IsSome() ==> r.value == elements[key]
    {
      if key in elements then Some(elements[key]) else None
    }

    function IsEmpty(): (b: bool)
      reads this
      ensures b <==> Size() == 0
      ensures b <==> elements == map[]
    {
      |elements| == 0
    }

    /** Every key once, in iteration order. */
    method Keys() returns (r: seq<K>)
      ensures Enumerates(r, elements.Keys)
      ensures |r| == |elements|
    {
      var ks := RangeKeys(elements);
      r := [];
      var i := 0;
      while i < |ks|
        invariant 0 <= i <= |ks|
        invariant r == ks[..i]
      {
        r := r + [ks[i]];
        i := i + 1;
      }
      assert r == ks;
      KeyListLength(r, elements);
    }

    /** Stores the value and returns the one it replaced, if any. */
    method Put(key: K, value: V) returns (prev: Option<V>)
      modifies this
      ensures prev == old(Get(key))
      ensures elements == old(elements)[key := value]
    {
      if key in elements {
        var previousValue := elements[key];
        elements := elements[key := value];
        return Some(previousValue);
      }
      elements := elements[key := value];
      return None;
    }

    /** Deletes a present key and returns its value; an absent key is an
        error and the map is unchanged. */
    method Remove(key: K) returns (r: Result<V, Error>)
      modifies this
      ensures key in old(elements) ==> r == Ok(old(elements)[key])
      ensures key !in old(elements) ==> r == Err(KeyNotFound)
      ensures elements == old(elements) - {key}
    {
      if key in elements {
        var value := elements[key];
        elements := elements - {key};
        return Ok(value);
      }
      return Err(KeyNotFound);
    }

    function Size(): (n: nat)
      reads this
      ensures n == |elements.Keys|
    {
      |elements|
    }

    /** The value of every key once, in iteration order. */
    method Values() returns (r: seq<V>)
      ensures exists ks :: ValuesAlong(r, ks, elements)
      ensures |r| == |elements|
      ensures forall v :: v in r <==> v in elements.Values
    {
      var ks := RangeKeys(elements);
      r := [];
      var i := 0;
      while i < |ks|
        invariant 0 <= i <= |ks|
        invariant |r| == i
        invariant forall j :: 0 <= j < i ==> r[j] == elements[ks[j]]
      {
        r := r + [elements[ks[i]]];
        i := i + 1;
      }
      assert ValuesAlong(r, ks, elements);
      ValueListFacts(r, ks, elements);
    }

    /** The same lookup as Get. */
    function TryGet(key: K): (r: Option<V>)
      reads this
      ensures r == Get(key)
    {
      if key in elements then Some(elements[key]) else None
    }

    /** Remove with its own error message. */
    method TryRemove(key: K) returns (r: Result<V, Error>)
      modifies this
      ensures key in old(elements) ==> r == Ok(old(elements)[key])
      ensures key !in old(elements) ==> r == Err(KeyNotFoundInMap)
      ensures elements == old(elements) - {key}
    {
      if key in elements {
        var value := elements[key];
        elements := elements - {key};
        return Ok(value);
      }
      return Err(KeyNotFoundInMap);
    }

    /** Some key holding the value, the first one met in iteration order. */
    method FindKey(value: V) returns (r: Option<K>)
      ensures r.IsSome() ==> r.value in elements && elements[r.value] == value
      ensures r.IsNone() <==> value !in elements.Values
    {
      var ks := RangeKeys(elements);
      var i := 0;
      while i < |ks|
        invariant 0 <= i <= |ks|
        invariant forall j :: 0 <= j < i ==> elements[ks[j]] != value
      {
        if elements[ks[i]] == value {
          return Some(ks[i]);
        }
        i := i + 1;
      }
      forall w | w in elements.Values
        ensures w != value
      {
        var k :| k in elements && elements[k] == w;
        var j :| 0 <= j < |ks| && ks[j] == k;
      }
      return None;
    }

    /** Some entry satisfying the predicate, or None iff there is none. */
    method FindEntry(pred: (K, V) -> bool) returns (r: Option<Entry<K, V>>)
      ensures r.IsSome() ==> r.value.key in elements && elements[r.value.key] == r.value.value
                             && pred(r.value.key, r.value.value)
      ensures r.IsNone() <==> forall k :: k in elements ==> !pred(k, elements[k])
    {
      var ks := RangeKeys(elements);
      var i := 0;
      while i < |ks|
        invariant 0 <= i <= |ks|
        invariant forall j :: 0 <= j < i ==> !pred(ks[j], elements[ks[j]])
      {
        if pred(ks[i], elements[ks[i]]) {
          return Some(Entry(ks[i], elements[ks[i]]));
        }
        i := i + 1;
      }
      forall k | k in elements
        ensures !pred(k, elements[k])
      {
        var j :| 0 <= j < |ks| && ks[j] == k;
      }
      return None;
    }

    /** A new map holding exactly the entries that satisfy the predicate;
        the receiver is left as it was. */
    method Filter(pred: (K, V) -> bool) returns (r: HashMap<K, V>)
      ensures fresh(r)
      ensures r.elements == Restrict(elements, pred)
    {
      r := new HashMap();
      var ks := RangeKeys(elements);
      var i := 0;
      while i < |ks|
        invariant 0 <= i <= |ks|
        invariant forall k :: k in r.elements <==> k in ks[..i] && pred(k, elements[k])
        invariant forall k :: k in r.elements ==> r.elements[k] == elements[k]
      {
        var k := ks[i];
        if pred(k, elements[k]) {
          var _ := r.Put(k, elements[k]);
        }
        assert ks[..i + 1] == ks[..i] + [k];
        i := i + 1;
      }
      assert ks[..i] == ks;
    }
  }
}
