/** setx/hashset/set.go: a HashSet over a Go `map[T]struct{}`, whose key set
    is the `set<T>` here. The `other` operand of the set algebra is another
    HashSet. */
module SetxHashSet {
  import opened MapSpec

  class HashSet<T(==)> {
    var elements: set<T>

    constructor ()
      ensures elements == {}
    {
      elements := {};
    }

    /** True iff the element was new; it is a member afterwards either way. */
    method Add(element: T) returns (added: bool)
      modifies this
      ensures added <==> element !in old(elements)
      ensures elements == old(elements) + {element}
    {
      if element in elements {
        return false;
      }
      elements := elements + {element};
      return true;
    }

    method Clear()
      modifies this
      ensures elements == {}
    {
      elements := {};
    }

    function Contains(element: T): (b: bool)
      reads this
      ensures b <==> element in elements
    {
      element in elements
    }

    /** A new set of the elements not in other; both operands are left as they were. */
    method Difference(other: HashSet<T>) returns (r: HashSet<T>)
      ensures fresh(r)
      ensures r.elements == elements - other.elements
    {
      r := new HashSet();
      var xs := RangeElements(elements);
      var i := 0;
      while i < |xs|
        invariant 0 <= i <= |xs|
        invariant r.elements == (set j | 0 <= j < i :: xs[j]) - other.elements
      {
        if !other.Contains(xs[i]) {
          var _ := r.Add(xs[i]);
        }
        i := i + 1;
      }
      assert (set j | 0 <= j < |xs| :: xs[j]) == elements;
    }

    /** A new set of the elements also in other; both operands are left as they were. */
    method Intersection(other: HashSet<T>) returns (r: HashSet<T>)
      ensures fresh(r)
      ensures r.elements == elements * other.elements
    {
      r := new HashSet();
      var xs := RangeElements(elements);
      var i := 0;
      while i < |xs|
        invariant 0 <= i <= |xs|
        invariant r.elements == (set j | 0 <= j < i :: xs[j]) * other.elements
      {
        if other.Contains(xs[i]) {
          var _ := r.Add(xs[i]);
        }
        i := i + 1;
      }
      assert (set j | 0 <= j < |xs| :: xs[j]) == elements;
    }

    function IsEmpty(): (b: bool)
      reads this
      ensures b <==> Size() == 0
      ensures b <==> elements == {}
    {
      |elements| == 0
    }

    /** Stops at the first element that other lacks. */
    method IsSubsetOf(other: HashSet<T>) returns (b: bool)
      ensures b <==> elements <= other.elements
    {
      var xs := RangeElements(elements);
      var i := 0;
      while i < |xs|
        invariant 0 <= i <= |xs|
        invariant forall j :: 0 <= j < i ==> xs[j] in other.elements
      {
        if !other.Contains(xs[i]) {
          return false;
        }
        i := i + 1;
      }
      return true;
    }

    /** Asks other whether it is a subset of this set. */
    method IsSupersetOf(other: HashSet<T>) returns (b: bool)
      ensures b <==> other.elements <= elements
    {
      b := other.IsSubsetOf(this);
    }

    /** True iff the element was present; it is absent afterwards either way. */
    method Remove(element: T) returns (removed: bool)
      modifies this
      ensures removed <==> element in old(elements)
      ensures elements == old(elements) - {element}
    {
      if element in elements {
        elements := elements - {element};
        return true;
      }
      return false;
    }

    function Size(): (n: nat)
      reads this
      ensures n == |elements|
      ensures n == 0 ==> elements == {}
    {
      |elements|
    }

    /** Every element once, in iteration order. */
    method ToSlice() returns (r: seq<T>)
      ensures Enumerates(r, elements)
      ensures |r| == |elements|
    {
      var xs := RangeElements(elements);
      r := [];
      var i := 0;
      while i < |xs|
        invariant 0 <= i <= |xs|
        invariant r == xs[..i]
      {
        r := r + [xs[i]];
        i := i + 1;
      }
      assert r == xs;
      EnumerationLength(r, elements);
    }

    /** A new set: first every element of this set, then every element of other. */
    method Union(other: HashSet<T>) returns (r: HashSet<T>)
      ensures fresh(r)
      ensures r.elements == elements + other.elements
    {
      r := new HashSet();
      var xs := RangeElements(elements);
      var i := 0;
      while i < |xs|
        invariant 0 <= i <= |xs|
        invariant r.elements == set j | 0 <= j < i :: xs[j]
      {
        var _ := r.Add(xs[i]);
        i := i + 1;
      }
      assert r.elements == elements;
      var ys := RangeElements(other.elements);
      i := 0;
      while i < |ys|
        invariant 0 <= i <= |ys|
        invariant r.elements == elements + set j | 0 <= j < i :: ys[j]
      {
        var _ := r.Add(ys[i]);
        i := i + 1;
      }
      assert (set j | 0 <= j < |ys| :: ys[j]) == other.elements;
    }
  }
}
