/** mapx/concurrentmap/map.go: the Option/Result map interface over a
    `sync.Map`, in its single-goroutine behaviour. Each `Range` callback runs
    as the body of a loop over the visiting order; a callback that returns
    false ends the loop with `break`. */
module MapxConcurrentMap {
  import opened OptionMonad
  import opened ResultMonad
  import opened Errors
  import opened MapSpec
  import opened GoSync

  class ConcurrentMap<K(==), V(==)> {
    const elements: SyncMap<K, V>

    /** The entries currently stored. */
    ghost function Contents(): map<K, V>
      reads elements
    {
      elements.contents
    }

    constructor ()
      ensures fresh(elements) && Contents() == map[]
    {
      elements := new SyncMap();
    }

    method Clear()
      modifies elements
      ensures Contents() == map[]
    {
      elements.Clear();
    }

    method ContainsKey(key: K) returns (b: bool)
      ensures b <==> key in Contents()
    {
      var loaded := elements.Load(key);
      b := loaded.IsSome();
    }

    method ContainsValue(value: V) returns (found: bool)
      ensures found <==> value in Contents().Values
    {
      found := false;
      var ks := elements.Range();
      var i := 0;
      while i < |ks|
        invariant 0 <= i <= |ks|
        invariant !found
        invariant forall j :: 0 <= j < i ==> elements.contents[ks[j]] != value
      {
        if elements.contents[ks[i]] == value {
          found := true;
          break;
        }
        i := i + 1;
      }
      if !found {
        forall w | w in elements.contents.Values
          ensures w != value
        {
          var k :| k in elements.contents && elements.contents[k] == w;
          var j :| 0 <= j < |ks| && ks[j] == k;
        }
      }
    }

    method Entries() returns (r: seq<Entry<K, V>>)
      ensures exists ks :: EntriesAlong(r, ks, Contents())
      ensures |r| == |Contents()|
      ensures forall k :: k in Contents() ==> Entry(k, Contents()[k]) in r
      ensures forall i :: 0 <= i < |r| ==> r[i].key in Contents() && Contents()[r[i].key] == r[i].value
    {
      r := [];
      var ks := elements.Range();
      var i := 0;
      while i < |ks|
        invariant 0 <= i <= |ks|
        invariant |r| == i
        invariant forall j :: 0 <= j < i ==> r[j] == Entry(ks[j], elements.contents[ks[j]])
      {
        r := r + [Entry(ks[i], elements.contents[ks[i]])];
        i := i + 1;
      }
      assert EntriesAlong(r, ks, Contents());
      EntryListFacts(r, ks, Contents());
    }

    method Get(key: K) returns (r: Option<V>)
      ensures r.IsSome() <==> key in Contents()
      ensures r.IsSome() ==> r.value == Contents()[key]
    {
      r := elements.Load(key);
    }

    /** The callback for the first key visited clears the flag and stops the iteration. */
    method IsEmpty() returns (isEmpty: bool)
      ensures isEmpty <==> Contents() == map[]
    {
      isEmpty := true;
      var ks := elements.Range();
      if ks != [] {
        isEmpty := false;
      }
      KeyListLength(ks, Contents());
    }

    method Keys() returns (r: seq<K>)
      ensures Enumerates(r, Contents().Keys)
      ensures |r| == |Contents()|
    {
      r := [];
      var ks := elements.Range();
      var i := 0;
      while i < |ks|
        invariant 0 <= i <= |ks|
        invariant r == ks[..i]
      {
        r := r + [ks[i]];
        i := i + 1;
      }
      assert r == ks;
      KeyListLength(r, Contents());
    }

    /** LoadOrStore stores the value for a new key; for a present key the old
        value is returned and a second Store overwrites it. */
    method Put(key: K, value: V) returns (prev: Option<V>)
      modifies elements
      ensures key in old(Contents()) ==> prev == Some(old(Contents())[key])
      ensures key !in old(Contents()) ==> prev == None
      ensures Contents() == old(Contents())[key := value]
    {
      var val, loaded := elements.LoadOrStore(key, value);
      if loaded {
        elements.Store(key, value);
        return Some(val);
      }
      return None;
    }

    method Remove(key: K) returns (r: Result<V, Error>)
      modifies elements
      ensures key in old(Contents()) ==> r == Ok(old(Contents())[key])
      ensures key !in old(Contents()) ==> r == Err(KeyNotFound)
      ensures Contents() == old(Contents()) - {key}
    {
      var val := elements.LoadAndDelete(key);
      if val.IsSome() {
        return Ok(val.value);
      }
      return Err(KeyNotFound);
    }

    /** Counts the Range callbacks. */
    method Size() returns (count: int)
      ensures count == |Contents()|
    {
      count := 0;
      var ks := elements.Range();
      var i := 0;
      while i < |ks|
        invariant 0 <= i <= |ks|
        invariant count == i
      {
        count := count + 1;
        i := i + 1;
      }
      KeyListLength(ks, Contents());
    }

    method Values() returns (r: seq<V>)
      ensures exists ks :: ValuesAlong(r, ks, Contents())
      ensures |r| == |Contents()|
      ensures forall v :: v in r <==> v in Contents().Values
    {
      r := [];
      var ks := elements.Range();
      var i := 0;
      while i < |ks|
        invariant 0 <= i <= |ks|
        invariant |r| == i
        invariant forall j :: 0 <= j < i ==> r[j] == elements.contents[ks[j]]
      {
        r := r + [elements.contents[ks[i]]];
        i := i + 1;
      }
      assert ValuesAlong(r, ks, Contents());
      ValueListFacts(r, ks, Contents());
    }

    method FindKey(value: V) returns (found: Option<K>)
      ensures found.IsSome() ==> found.value in Contents() && Contents()[found.value] == value
      ensures found.IsNone() <==> value !in Contents().Values
    {
      found := None;
      var ks := elements.Range();
      var i := 0;
      while i < |ks|
        invariant 0 <= i <= |ks|
        invariant found.IsNone()
        invariant forall j :: 0 <= j < i ==> elements.contents[ks[j]] != value
      {
        if elements.contents[ks[i]] == value {
          found := Some(ks[i]);
          break;
        }
        i := i + 1;
      }
      if found.IsNone() {
        forall w | w in elements.contents.Values
          ensures w != value
        {
          var k :| k in elements.contents && elements.contents[k] == w;
          var j :| 0 <= j < |ks| && ks[j] == k;
        }
      }
    }

    method FindEntry(pred: (K, V) -> bool) returns (found: Option<Entry<K, V>>)
      ensures found.IsSome() ==> found.value.key in Contents()
                                 && Contents()[found.value.key] == found.value.value
                                 && pred(found.value.key, found.value.value)
      ensures found.IsNone() <==> forall k :: k in Contents() ==> !pred(k, Contents()[k])
    {
      found := None;
      var ks := elements.Range();
      var i := 0;
      while i < |ks|
        invariant 0 <= i <= |ks|
        invariant found.IsNone()
        invariant forall j :: 0 <= j < i ==> !pred(ks[j], elements.contents[ks[j]])
      {
        var k, v := ks[i], elements.contents[ks[i]];
        if pred(k, v) {
          found := Some(Entry(k, v));
          break;
        }
        i := i + 1;
      }
      if found.IsNone() {
        forall k | k in elements.contents
          ensures !pred(k, elements.contents[k])
        {
          var j :| 0 <= j < |ks| && ks[j] == k;
        }
      }
    }

    /** A new map with exactly the entries that satisfy the predicate;
        the receiver is left as it was. */
    method Filter(pred: (K, V) -> bool) returns (r: ConcurrentMap<K, V>)
      ensures fresh(r) && fresh(r.elements)
      ensures r.Contents() == Restrict(Contents(), pred)
    {
      r := new ConcurrentMap();
      var ks := elements.Range();
      var i := 0;
      while i < |ks|
        invariant 0 <= i <= |ks|
        invariant fresh(r.elements)
        invariant forall k :: k in r.elements.contents <==> k in ks[..i] && pred(k, elements.contents[k])
        invariant forall k :: k in r.elements.contents ==> r.elements.contents[k] == elements.contents[k]
      {
        var k, v := ks[i], elements.contents[ks[i]];
        if pred(k, v) {
          var _ := r.Put(k, v);
        }
        assert ks[..i + 1] == ks[..i] + [k];
        i := i + 1;
      }
      assert ks[..i] == ks;
    }
  }
}
