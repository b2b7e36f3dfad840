/** listx/hash/list.go: a list stored in a Go `map[int]T` whose keys are
    exactly the indices 0 .. size - 1; `contents` is the list's value as a
    sequence, with contents[i] stored under key i. */
module ListxHashList {
  import opened OptionMonad
  import opened ResultMonad
  import opened Errors
  import opened ListSpec

  class HashList<T(==)> {
    var elements: map<int, T>
    var size: int
    ghost var contents: seq<T>
    ghost var Repr: set<object>

    /** The keys are 0 .. size - 1 and key i holds contents[i]. */
    ghost predicate Valid()
      reads this, Repr
    {
      Repr == {this}
      && size == |contents|
      && (forall i :: i in elements <==> 0 <= i < size)
      && (forall i :: 0 <= i < size ==> elements[i] == contents[i])
    }

    constructor ()
      ensures Valid() && fresh(Repr) && contents == []
    {
      elements := map[];
      size := 0;
      contents := [];
      Repr := {this};
    }

    /** Stores element under key size and counts it. */
    method Add(element: T)
      requires Valid()
      modifies Repr
      ensures Valid() && fresh(Repr - old(Repr))
      ensures contents == old(contents) + [element]
    {
      elements := elements[size := element];
      size := size + 1;
      contents := contents + [element];
    }

    /** Inserts so that element lands at index; 0 <= index <= size, otherwise
        an error and no change. Keys size down to index + 1 take the value of
        the key below, then index takes element. */
    method Insert(index: int, element: T) returns (err: Option<Error>)
      requires Valid()
      modifies Repr
      ensures Valid() && fresh(Repr - old(Repr))
      ensures 0 <= index <= |old(contents)| ==> err.IsNone() && contents == InsertAt(old(contents), index, element)
      ensures !(0 <= index <= |old(contents)|) ==> err == Some(IndexOutOfBounds) && contents == old(contents)
    {
      if index < 0 || index > size {
        return Some(IndexOutOfBounds);
      }
      if index == size {
        Add(element);
        InsertAtEnds(old(contents), element);
        return None;
      }
      ShiftRight(index);
      elements := elements[index := element];
      size := size + 1;
      contents := InsertAt(contents, index, element);
      return None;
    }

    /** The loop of Insert: afterwards the keys are 0 .. size, key k holds
        contents[k] below index and contents[k - 1] above it. */
    method ShiftRight(index: int)
      requires Valid() && 0 <= index < size
      modifies this
      ensures size == old(size) && contents == old(contents) && Repr == old(Repr)
      ensures forall k :: k in elements <==> 0 <= k <= size
      ensures forall k :: 0 <= k < index ==> elements[k] == contents[k]
      ensures forall k :: index < k <= size ==> elements[k] == contents[k - 1]
    {
      var m := elements;
      var i := size;
      while i > index
        invariant index <= i <= size
        invariant forall k :: k in m <==> 0 <= k < size || (i < size && k == size)
        invariant forall k :: 0 <= k <= i && k < size ==> m[k] == contents[k]
        invariant forall k :: i < k <= size ==> m[k] == contents[k - 1]
      {
        m := m[i := m[i - 1]];
        i := i - 1;
      }
      elements := m;
    }

    /** Some(contents[index]) when 0 <= index < size, else None. */
    method Get(index: int) returns (r: Option<T>)
      requires Valid()
      ensures 0 <= index < |contents| ==> r == Some(contents[index])
      ensures !(0 <= index < |contents|) ==> r == None
    {
      if index < 0 || index >= size {
        return None;
      }
      r := if index in elements then Some(elements[index]) else None;
    }

    /** Overwrites key index only; out of bounds is an error and no change. */
    method Set(index: int, element: T) returns (err: Option<Error>)
      requires Valid()
      modifies Repr
      ensures Valid() && Repr == old(Repr)
      ensures 0 <= index < |old(contents)| ==> err.IsNone() && contents == old(contents)[index := element]
      ensures !(0 <= index < |old(contents)|) ==> err == Some(IndexOutOfBounds) && contents == old(contents)
    {
      if index < 0 || index >= size {
        return Some(IndexOutOfBounds);
      }
      elements := elements[index := element];
      contents := contents[index := element];
      return None;
    }

    /** Returns the value at index; keys index .. size - 2 take the value of
        the key above, the last key is deleted. Out of bounds is an error and
        no change. */
    method Remove(index: int) returns (r: Result<T, Error>)
      requires Valid()
      modifies Repr
      ensures Valid() && Repr == old(Repr)
      ensures 0 <= index < |old(contents)| ==> r == Ok(old(contents)[index]) && contents == RemoveAt(old(contents), index)
      ensures !(0 <= index < |old(contents)|) ==> r == Err(IndexOutOfBounds) && contents == old(contents)
    {
      if index < 0 || index >= size {
        return Err(IndexOutOfBounds);
      }
      var removedElement := elements[index];
      ShiftLeft(index);
      elements := elements - {size - 1};
      size := size - 1;
      contents := RemoveAt(contents, index);
      return Ok(removedElement);
    }

    /** The loop of Remove: afterwards key k holds contents[k + 1] from index
        on, and the keys are still 0 .. size - 1. */
    method ShiftLeft(index: int)
      requires Valid() && 0 <= index < size
      modifies this
      ensures size == old(size) && contents == old(contents) && Repr == old(Repr)
      ensures forall k :: k in elements <==> 0 <= k < size
      ensures forall k :: 0 <= k < index ==> elements[k] == contents[k]
      ensures forall k :: index <= k < size - 1 ==> elements[k] == contents[k + 1]
    {
      var m := elements;
      var i := index;
      while i < size - 1
        invariant index <= i <= size - 1
        invariant forall k :: k in m <==> 0 <= k < size
        invariant forall k :: 0 <= k < index ==> m[k] == contents[k]
        invariant forall k :: index <= k < i ==> m[k] == contents[k + 1]
        invariant forall k :: i <= k < size ==> m[k] == contents[k]
      {
        m := m[i := m[i + 1]];
        i := i + 1;
      }
      elements := m;
    }

    /** Removes the element at IndexOf(element), if there is one. */
    method RemoveElement(element: T) returns (removed: bool)
      requires Valid()
      modifies Repr
      ensures Valid() && Repr == old(Repr)
      ensures removed <==> element in old(contents)
      ensures removed ==> contents == RemoveAt(old(contents), FirstIndexOf(old(contents), element).value)
      ensures !removed ==> contents == old(contents)
    {
      var indexOpt := IndexOf(element);
      if indexOpt.IsNone() {
        return false;
      }
      var result := Remove(indexOpt.Unwrap());
      return result.IsOk();
    }

    /** The first index holding element, or None iff there is none. */
    method IndexOf(element: T) returns (r: Option<int>)
      requires Valid()
      ensures r == FirstIndexOf(contents, element)
    {
      var i := 0;
      while i < size
        invariant 0 <= i <= size
        invariant forall j :: 0 <= j < i ==> contents[j] != element
      {
        if i in elements && elements[i] == element {
          FirstIndexOfIs(contents, element, i);
          return Some(i);
        }
        i := i + 1;
      }
      return None;
    }

    /** The last index holding element, or None iff there is none. */
    method LastIndexOf(element: T) returns (r: Option<int>)
      requires Valid()
      ensures r == ListSpec.LastIndexOf(contents, element)
    {
      var lastIndex := -1;
      var i := 0;
      while i < size
        invariant 0 <= i <= size
        invariant -1 <= lastIndex < i
        invariant lastIndex >= 0 ==> contents[lastIndex] == element
        invariant forall j :: lastIndex < j < i ==> contents[j] != element
      {
        if i in elements && elements[i] == element {
          lastIndex := i;
        }
        i := i + 1;
      }
      if lastIndex == -1 {
        return None;
      }
      LastIndexOfIs(contents, element, lastIndex);
      return Some(lastIndex);
    }

    method Contains(element: T) returns (b: bool)
      requires Valid()
      ensures b <==> element in contents
    {
      var index := IndexOf(element);
      b := index.IsSome();
    }

    function Size(): (n: int)
      reads this, Repr
      requires Valid()
      ensures n == |contents|
    {
      size
    }

    function IsEmpty(): (b: bool)
      reads this, Repr
      requires Valid()
      ensures b <==> contents == []
    {
      size == 0
    }

    /** A fresh empty map and size 0. */
    method Clear()
      requires Valid()
      modifies Repr
      ensures Valid() && Repr == old(Repr)
      ensures contents == []
    {
      elements := map[];
      size := 0;
      contents := [];
    }

    /** The values of keys 0 .. size - 1 in index order. */
    method ToSlice() returns (r: seq<T>)
      requires Valid()
      ensures r == contents
    {
      r := [];
      var i := 0;
      while i < size
        invariant 0 <= i <= size
        invariant r == contents[..i]
      {
        if i in elements {
          r := r + [elements[i]];
        }
        i := i + 1;
      }
      assert r == contents;
    }
  }
}
