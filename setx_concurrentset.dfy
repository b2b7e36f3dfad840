/** setx/concurrentset/set.go: a set stored as the key set of a `sync.Map`
    whose values are `struct{}{}`, here `()`, in its single-goroutine
    behaviour. Range callbacks run as loop bodies; `return false` is `break`.
    The `other` operand of the set algebra is another ConcurrentSet. */
module SetxConcurrentSet {
  import opened OptionMonad
  import opened ResultMonad
  import opened Errors
  import opened MapSpec
  import opened GoSync

  class ConcurrentSet<T(==)> {
    const elements: SyncMap<T, ()>

    /** The members: the keys stored in the sync.Map. */
    ghost function Contents(): set<T>
      reads elements
    {
      elements.contents.Keys
    }

    constructor ()
      ensures fresh(elements) && Contents() == {}
    {
      elements := new SyncMap();
    }

    /** True iff LoadOrStore did not find the element, i.e. it was new. */
    method Add(element: T) returns (added: bool)
      modifies elements
      ensures added <==> element !in old(Contents())
      ensures Contents() == old(Contents()) + {element}
    {
      var _, loaded := elements.LoadOrStore(element, ());
      return !loaded;
    }

    method Clear()
      modifies elements
      ensures Contents() == {}
    {
      elements.Clear();
    }

    method Contains(element: T) returns (b: bool)
      ensures b <==> element in Contents()
    {
      var loaded := elements.Load(element);
      b := loaded.IsSome();
    }

    /** A new set of the elements not in other; both operands are left as they were. */
    method Difference(other: ConcurrentSet<T>) returns (r: ConcurrentSet<T>)
      ensures fresh(r) && fresh(r.elements)
      ensures r.Contents() == Contents() - other.Contents()
    {
      r := new ConcurrentSet();
      var xs := elements.Range();
      var i := 0;
      while i < |xs|
        invariant 0 <= i <= |xs|
        invariant fresh(r.elements)
        invariant r.Contents() == (set j | 0 <= j < i :: xs[j]) - other.Contents()
      {
        var element := xs[i];
        var inOther := other.Contains(element);
        if !inOther {
          var _ := r.Add(element);
        }
        i := i + 1;
      }
      assert (set j | 0 <= j < |xs| :: xs[j]) == Contents();
    }

    /** A new set of the elements also in other; both operands are left as they were. */
    method Intersection(other: ConcurrentSet<T>) returns (r: ConcurrentSet<T>)
      ensures fresh(r) && fresh(r.elements)
      ensures r.Contents() == Contents() * other.Contents()
    {
      r := new ConcurrentSet();
      var xs := elements.Range();
      var i := 0;
      while i < |xs|
        invariant 0 <= i <= |xs|
        invariant fresh(r.elements)
        invariant r.Contents() == (set j | 0 <= j < i :: xs[j]) * other.Contents()
      {
        var element := xs[i];
        var inOther := other.Contains(element);
        if inOther {
          var _ := r.Add(element);
        }
        i := i + 1;
      }
      assert (set j | 0 <= j < |xs| :: xs[j]) == Contents();
    }

    /** The callback for the first element visited clears the flag and stops. */
    method IsEmpty() returns (isEmpty: bool)
      ensures isEmpty <==> Contents() == {}
    {
      isEmpty := true;
      var xs := elements.Range();
      if xs != [] {
        isEmpty := false;
      }
      EnumerationLength(xs, Contents());
    }

    /** Stops at the first element that other lacks. */
    method IsSubsetOf(other: ConcurrentSet<T>) returns (isSubset: bool)
      ensures isSubset <==> Contents() <= other.Contents()
    {
      isSubset := true;
      var xs := elements.Range();
      var i := 0;
      while i < |xs|
        invariant 0 <= i <= |xs|
        invariant isSubset
        invariant forall j :: 0 <= j < i ==> xs[j] in other.Contents()
      {
        var inOther := other.Contains(xs[i]);
        if !inOther {
          isSubset := false;
          break;
        }
        i := i + 1;
      }
    }

    /** Asks other whether it is a subset of this set. */
    method IsSupersetOf(other: ConcurrentSet<T>) returns (b: bool)
      ensures b <==> other.Contents() <= Contents()
    {
      b := other.IsSubsetOf(this);
    }

    /** True iff LoadAndDelete found the element; it is absent afterwards. */
    method Remove(element: T) returns (existed: bool)
      modifies elements
      ensures existed <==> element in old(Contents())
      ensures Contents() == old(Contents()) - {element}
    {
      var loaded := elements.LoadAndDelete(element);
      existed := loaded.IsSome();
    }

    /** Counts the Range callbacks. */
    method Size() returns (count: int)
      ensures count == |Contents()|
    {
      count := 0;
      var xs := elements.Range();
      var i := 0;
      while i < |xs|
        invariant 0 <= i <= |xs|
        invariant count == i
      {
        count := count + 1;
        i := i + 1;
      }
      EnumerationLength(xs, Contents());
    }

    /** Every element once, in iteration order. */
    method ToSlice() returns (r: seq<T>)
      ensures Enumerates(r, Contents())
      ensures |r| == |Contents()|
    {
      r := [];
      var xs := elements.Range();
      var i := 0;
      while i < |xs|
        invariant 0 <= i <= |xs|
        invariant r == xs[..i]
      {
        r := r + [xs[i]];
        i := i + 1;
      }
      assert r == xs;
      EnumerationLength(r, Contents());
    }

    /** A new set: first every element of this set, then (other's ForEach)
        every element of other. */
    method Union(other: ConcurrentSet<T>) returns (r: ConcurrentSet<T>)
      ensures fresh(r) && fresh(r.elements)
      ensures r.Contents() == Contents() + other.Contents()
    {
      r := new ConcurrentSet();
      var xs := elements.Range();
      var i := 0;
      while i < |xs|
        invariant 0 <= i <= |xs|
        invariant fresh(r.elements)
        invariant r.Contents() == set j | 0 <= j < i :: xs[j]
      {
        var _ := r.Add(xs[i]);
        i := i + 1;
      }
      assert r.Contents() == Contents();
      var ys := other.elements.Range();
      i := 0;
      while i < |ys|
        invariant 0 <= i <= |ys|
        invariant fresh(r.elements)
        invariant r.Contents() == Contents() + set j | 0 <= j < i :: ys[j]
      {
        var _ := r.Add(ys[i]);
        i := i + 1;
      }
      assert (set j | 0 <= j < |ys| :: ys[j]) == other.Contents();
    }

    /** The first element met that satisfies the predicate, or None iff none does. */
    method Find(pred: T -> bool) returns (found: Option<T>)
      ensures found.IsSome() ==> found.value in Contents() && pred(found.value)
      ensures found.IsNone() <==> forall x :: x in Contents() ==> !pred(x)
    {
      found := None;
      var xs := elements.Range();
      var i := 0;
      while i < |xs|
        invariant 0 <= i <= |xs|
        invariant found.IsNone()
        invariant forall j :: 0 <= j < i ==> !pred(xs[j])
      {
        if pred(xs[i]) {
          found := Some(xs[i]);
          break;
        }
        i := i + 1;
      }
      if found.IsNone() {
        forall x | x in Contents()
          ensures !pred(x)
        {
          var j :| 0 <= j < |xs| && xs[j] == x;
        }
      }
    }

    /** The first element visited, or None iff the set is empty. */
    method GetAny() returns (found: Option<T>)
      ensures found.IsSome() ==> found.value in Contents()
      ensures found.IsNone() <==> Contents() == {}
    {
      found := None;
      var xs := elements.Range();
      if xs != [] {
        found := Some(xs[0]);
      }
      EnumerationLength(xs, Contents());
    }

    /** Ok(element) when LoadAndDelete found it, otherwise an error. */
    method TryRemove(element: T) returns (r: Result<T, Error>)
      modifies elements
      ensures element in old(Contents()) ==> r == Ok(element)
      ensures element !in old(Contents()) ==> r == Err(ElementNotFoundInSet)
      ensures Contents() == old(Contents()) - {element}
    {
      var loaded := elements.LoadAndDelete(element);
      if loaded.IsSome() {
        return Ok(element);
      }
      return Err(ElementNotFoundInSet);
    }

    /** A new set of the elements that satisfy the predicate; the receiver
        is left as it was. */
    method Filter(pred: T -> bool) returns (r: ConcurrentSet<T>)
      ensures fresh(r) && fresh(r.elements)
      ensures r.Contents() == set x | x in Contents() && pred(x)
    {
      r := new ConcurrentSet();
      var xs := elements.Range();
      var i := 0;
      while i < |xs|
        invariant 0 <= i <= |xs|
        invariant fresh(r.elements)
        invariant r.Contents() == set j | 0 <= j < i && pred(xs[j]) :: xs[j]
      {
        if pred(xs[i]) {
          var _ := r.Add(xs[i]);
        }
        i := i + 1;
      }
      assert (set j | 0 <= j < |xs| && pred(xs[j]) :: xs[j]) == set x | x in Contents() && pred(x);
    }
  }
}
