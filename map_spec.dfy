/** What the map and set containers promise about their listings.
    Go iterates a map in an unspecified order, so a listing is specified by
    "some enumeration of the keys", never by one fixed order. */
module MapSpec {

  /** Go's `Entry[K, V]{Key, Value}` of mapx/map.go and maps/map.go. */
  datatype Entry<K, V> = Entry(key: K, value: V)

  ghost predicate Distinct<T>(s: seq<T>) {
    forall i, j :: 0 <= i < j < |s| ==> s[i] != s[j]
  }

  /** s lists every element of xs exactly once and nothing else. */
  ghost predicate Enumerates<T>(s: seq<T>, xs: set<T>) {
    Distinct(s)
    && (forall i :: 0 <= i < |s| ==> s[i] in xs)
    && (forall x :: x in xs ==> x in s)
  }

  /** rs lists the values of m, once per key, in the key order ks. */
  ghost predicate ValuesAlong<K, V>(rs: seq<V>, ks: seq<K>, m: map<K, V>) {
    Enumerates(ks, m.Keys) && |ks| == |rs|
    && forall i :: 0 <= i < |rs| ==> rs[i] == m[ks[i]]
  }

  /** es lists the entries of m, once per key, in the key order ks. */
  ghost predicate EntriesAlong<K, V>(es: seq<Entry<K, V>>, ks: seq<K>, m: map<K, V>) {
    Enumerates(ks, m.Keys) && |ks| == |es|
    && forall i :: 0 <= i < |es| ==> es[i] == Entry(ks[i], m[ks[i]])
  }

  /** The entries of m that satisfy p: what Filter keeps. */
  ghost function Restrict<K, V>(m: map<K, V>, p: (K, V) -> bool): map<K, V> {
    map k | k in m && p(k, m[k]) :: m[k]
  }

  /** An enumeration of a set has exactly as many elements as the set. */
  lemma {:induction false} EnumerationLength<T>(s: seq<T>, xs: set<T>)
    requires Enumerates(s, xs)
    ensures |s| == |xs|
  {
    if s == [] {
      assert forall x :: x in xs ==> false;
      assert xs == {};
    } else {
      var x, s' := s[|s| - 1], s[..|s| - 1];
      forall y | y in xs - {x}
        ensures y in s'
      {
        var k :| 0 <= k < |s| && s[k] == y;
        assert k != |s| - 1;
        assert s'[k] == y;
      }
      assert Enumerates(s', xs - {x});
      EnumerationLength(s', xs - {x});
    }
  }

  /** A key list has one element per key of the map. */
  lemma KeyListLength<K, V>(ks: seq<K>, m: map<K, V>)
    requires Enumerates(ks, m.Keys)
    ensures |ks| == |m|
  {
    EnumerationLength(ks, m.Keys);
  }

  /** A value list has one element per key, and holds exactly the values of the map. */
  lemma ValueListFacts<K, V>(rs: seq<V>, ks: seq<K>, m: map<K, V>)
    requires ValuesAlong(rs, ks, m)
    ensures |rs| == |m|
    ensures forall v :: v in rs <==> v in m.Values
  {
    KeyListLength(ks, m);
    forall v | v in m.Values
      ensures v in rs
    {
      var k :| k in m && m[k] == v;
      var i :| 0 <= i < |ks| && ks[i] == k;
      assert rs[i] == v;
    }
  }

  /** An entry list has one entry per key, every entry is in the map,
      and every key of the map appears with its value. */
  lemma EntryListFacts<K, V>(es: seq<Entry<K, V>>, ks: seq<K>, m: map<K, V>)
    requires EntriesAlong(es, ks, m)
    ensures |es| == |m|
    ensures forall i :: 0 <= i < |es| ==> es[i].key in m && m[es[i].key] == es[i].value
    ensures forall k :: k in m ==> Entry(k, m[k]) in es
    ensures forall i, j :: 0 <= i < j < |es| ==> es[i].key != es[j].key
  {
    KeyListLength(ks, m);
    forall k | k in m
      ensures Entry(k, m[k]) in es
    {
      var i :| 0 <= i < |ks| && ks[i] == k;
      assert es[i] == Entry(k, m[k]);
    }
  }

  /** The order in which Go's `for k := range m` (and sync.Map's Range) visits
      the keys: unspecified, so any enumeration of the key set may be chosen. */
  method RangeKeys<K, V>(m: map<K, V>) returns (ks: seq<K>)
    ensures Enumerates(ks, m.Keys)
  {
    var rest := m.Keys;
    ks := [];
    while rest != {}
      invariant rest <= m.Keys
      invariant Enumerates(ks, m.Keys - rest)
      decreases |rest|
    {
      var k :| k in rest;
      ks := ks + [k];
      rest := rest - {k};
    }
  }

  /** The same for a set. */
  method RangeElements<T>(s: set<T>) returns (xs: seq<T>)
    ensures Enumerates(xs, s)
  {
    var rest := s;
    xs := [];
    while rest != {}
      invariant rest <= s
      invariant Enumerates(xs, s - rest)
      decreases |rest|
    {
      var x :| x in rest;
      xs := xs + [x];
      rest := rest - {x};
    }
  }
}
