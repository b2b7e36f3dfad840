/** maps/concurrentmap/map.go: the older map interface, with Go's comma-ok
    `(value, exists)` returns, over a `sync.Map`, in its single-goroutine
    behaviour. A missing key yields the zero value of V, given as `zero` when
    the map is made. Range callbacks run as loop bodies, as in the newer map. */
module MapsConcurrentMap {
  import opened OptionMonad
  import opened MapSpec
  import opened GoSync

  class ConcurrentMap<K(==), V(==)> {
    const elements: SyncMap<K, V>
    const zero: V

    /** The entries currently stored. */
    ghost function Contents(): map<K, V>
      reads elements
    {
      elements.contents
    }

    constructor (zero: V)
      ensures fresh(elements) && Contents() == map[] && this.zero == zero
    {
      elements := new SyncMap();
      this.zero := zero;
    }

    method Clear()
      modifies elements
      ensures Contents() == map[]
    {
      elements.Clear();
    }

    method ContainsKey(key: K) returns (b: bool)
      ensures b <==> key in Contents()
    {
      var loaded := elements.Load(key);
      b := loaded.IsSome();
    }

    method ContainsValue(value: V) returns (found: bool)
      ensures found <==> value in Contents().Values
    {
      found := false;
      var ks := elements.Range();
      var i := 0;
      while i < |ks|
        invariant 0 <= i <= |ks|
        invariant !found
        invariant forall j :: 0 <= j < i ==> elements.contents[ks[j]] != value
      {
        if elements.contents[ks[i]] == value {
          found := true;
          break;
        }
        i := i + 1;
      }
      if !found {
        forall w | w in elements.contents.Values
          ensures w != value
        {
          var k :| k in elements.contents && elements.contents[k] == w;
          var j :| 0 <= j < |ks| && ks[j] == k;
        }
      }
    }

    method Entries() returns (r: seq<Entry<K, V>>)
      ensures exists ks :: EntriesAlong(r, ks, Contents())
      ensures |r| == |Contents()|
      ensures forall k :: k in Contents() ==> Entry(k, Contents()[k]) in r
      ensures forall i :: 0 <= i < |r| ==> r[i].key in Contents() && Contents()[r[i].key] == r[i].value
    {
      r := [];
      var ks := elements.Range();
      var i := 0;
      while i < |ks|
        invariant 0 <= i <= |ks|
        invariant |r| == i
        invariant forall j :: 0 <= j < i ==> r[j] == Entry(ks[j], elements.contents[ks[j]])
      {
        r := r + [Entry(ks[i], elements.contents[ks[i]])];
        i := i + 1;
      }
      assert EntriesAlong(r, ks, Contents());
      EntryListFacts(r, ks, Contents());
    }

    /** (m[key], true) when present, else (zero, false). */
    method Get(key: K) returns (value: V, found: bool)
      ensures found <==> key in Contents()
      ensures found ==> value == Contents()[key]
      ensures !found ==> value == zero
    {
      value := zero;
      var val := elements.Load(key);
      found := val.IsSome();
      if found {
        value := val.value;
      }
    }

    /** The callback for the first key visited clears the flag and stops the iteration. */
    method IsEmpty() returns (isEmpty: bool)
      ensures isEmpty <==> Contents() == map[]
    {
      isEmpty := true;
      var ks := elements.Range();
      if ks != [] {
        isEmpty := false;
      }
      KeyListLength(ks, Contents());
    }

    method Keys() returns (r: seq<K>)
      ensures Enumerates(r, Contents().Keys)
      ensures |r| == |Contents()|
    {
      r := [];
      var ks := elements.Range();
      var i := 0;
      while i < |ks|
        invariant 0 <= i <= |ks|
        invariant r == ks[..i]
      {
        r := r + [ks[i]];
        i := i + 1;
      }
      assert r == ks;
      KeyListLength(r, Contents());
    }

    /** LoadOrStore stores the value for a new key; for a present key the
        old value is reported and a second Store overwrites it. */
    method Put(key: K, value: V) returns (previousValue: V, found: bool)
      modifies elements
      ensures found <==> key in old(Contents())
      ensures previousValue == if found then old(Contents())[key] else zero
      ensures Contents() == old(Contents())[key := value]
    {
      previousValue, found := zero, false;
      var val, loaded := elements.LoadOrStore(key, value);
      if loaded {
        previousValue := val;
        found := true;
        elements.Store(key, value);
      }
    }

    /** LoadAndDelete: the old value and true for a present key, otherwise
        (zero, false) with nothing changed. */
    method Remove(key: K) returns (value: V, found: bool)
      modifies elements
      ensures found <==> key in old(Contents())
      ensures value == if found then old(Contents())[key] else zero
      ensures Contents() == old(Contents()) - {key}
    {
      value, found := zero, false;
      var val := elements.LoadAndDelete(key);
      if val.IsSome() {
        value := val.value;
        found := true;
      }
    }

    /** Counts the Range callbacks. */
    method Size() returns (count: int)
      ensures count == |Contents()|
    {
      count := 0;
      var ks := elements.Range();
      var i := 0;
      while i < |ks|
        invariant 0 <= i <= |ks|
        invariant count == i
      {
        count := count + 1;
        i := i + 1;
      }
      KeyListLength(ks, Contents());
    }

    method Values() returns (r: seq<V>)
      ensures exists ks :: ValuesAlong(r, ks, Contents())
      ensures |r| == |Contents()|
      ensures forall v :: v in r <==> v in Contents().Values
    {
      r := [];
      var ks := elements.Range();
      var i := 0;
      while i < |ks|
        invariant 0 <= i <= |ks|
        invariant |r| == i
        invariant forall j :: 0 <= j < i ==> r[j] == elements.contents[ks[j]]
      {
        r := r + [elements.contents[ks[i]]];
        i := i + 1;
      }
      assert ValuesAlong(r, ks, Contents());
      ValueListFacts(r, ks, Contents());
    }
  }
}
