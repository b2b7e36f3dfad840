/** maps/hashmap/map.go: the older HashMap whose lookups return Go's
    comma-ok `(value, exists)` pair. A missing key yields the zero value of V, which
    the model is given as `zero` when the map is made. */
module MapsHashMap {
  import opened MapSpec

  class HashMap<K(==), V(==)> {
    var elements: map<K, V>
    const zero: V

    constructor (zero: V)
      ensures elements == map[] && this.zero == zero
    {
      elements := map[];
      this.zero := zero;
    }

    method Clear()
      modifies this
      ensures elements == map[]
    {
      elements := map[];
    }

    function ContainsKey(key: K): (b: bool)
      reads this
      ensures b <==> Get(key).1
    {
      key in elements
    }

    /** True iff some key maps to the value. */
    method ContainsValue(value: V) returns (b: bool)
      ensures b <==> value in elements.Values
    {
      var ks := RangeKeys(elements);
      var i := 0;
      while i < |ks|
        invariant 0 <= i <= |ks|
        invariant forall j :: 0 <= j < i ==> elements[ks[j]] != value
      {
        if elements[ks[i]] == value {
          return true;
        }
        i := i + 1;
      }
      forall w | w in elements.Values
        ensures w != value
      {
        var k :| k in elements && elements[k] == w;
        var j :| 0 <= j < |ks| && ks[j] == k;
      }
      return false;
    }

    /** Every entry once, in iteration order. */
    method Entries() returns (r: seq<Entry<K, V>>)
      ensures exists ks :: EntriesAlong(r, ks, elements)
      ensures |r| == |elements|
      ensures forall k :: k in elements ==> Entry(k, elements[k]) in r
      ensures forall i :: 0 <= i < |r| ==> r[i].key in elements && elements[r[i].key] == r[i].value
    {
      var ks := RangeKeys(elements);
      r := [];
      var i := 0;
      while i < |ks|
        invariant 0 <= i <= |ks|
        invariant |r| == i
        invariant forall j :: 0 <= j < i ==> r[j] == Entry(ks[j], elements[ks[j]])
      {
        r := r + [Entry(ks[i], elements[ks[i]])];
        i := i + 1;
      }
      assert EntriesAlong(r, ks, elements);
      EntryListFacts(r, ks, elements);
    }

    /** Go's comma-ok lookup: (m[key], true) when present, else (zero, false). */
    function Get(key: K): (r: (V, bool))
      reads this
      ensures r.1 <==> key in elements
      ensures r.0 == if key in elements then elements[key] else zero
    {
      if key in elements then (elements[key], true) else (zero, false)
    }

    function IsEmpty(): (b: bool)
      reads this
      ensures b <==> Size() == 0
      ensures b <==> elements == map[]
    {
      |elements| == 0
    }

    /** Every key once, in iteration order. */
    method Keys() returns (r: seq<K>)
      ensures Enumerates(r, elements.Keys)
      ensures |r| == |elements|
    {
      var ks := RangeKeys(elements);
      r := [];
      var i := 0;
      while i < |ks|
        invariant 0 <= i <= |ks|
        invariant r == ks[..i]
      {
        r := r + [ks[i]];
        i := i + 1;
      }
      assert r == ks;
      KeyListLength(r, elements);
    }

    /** Reports the previous value as Get would, then stores the new one. */
    method Put(key: K, value: V) returns (previousValue: V, found: bool)
      modifies this
      ensures (previousValue, found) == old(Get(key))
      ensures elements == old(elements)[key := value]
    {
      previousValue, found := if key in elements then elements[key] else zero, key in elements;
      elements := elements[key := value];
    }

    /** Reports the value as Get would and deletes the key if it was present. */
    method Remove(key: K) returns (value: V, found: bool)
      modifies this
      ensures (value, found) == old(Get(key))
      ensures elements == old(elements) - {key}
    {
      value, found := if key in elements then elements[key] else zero, key in elements;
      if found {
        elements := elements - {key};
      }
    }

    function Size(): (n: nat)
      reads this
      ensures n == |elements.Keys|
    {
      |elements|
    }

    /** The value of every key once, in iteration order. */
    method Values() returns (r: seq<V>)
      ensures exists ks :: ValuesAlong(r, ks, elements)
      ensures |r| == |elements|
      ensures forall v :: v in r <==> v in elements.Values
    {
      var ks := RangeKeys(elements);
      r := [];
      var i := 0;
      while i < |ks|
        invariant 0 <= i <= |ks|
        invariant |r| == i
        invariant forall j :: 0 <= j < i ==> r[j] == elements[ks[j]]
      {
        r := r + [elements[ks[i]]];
        i := i + 1;
      }
      assert ValuesAlong(r, ks, elements);
      ValueListFacts(r, ks, elements);
    }
  }
}
