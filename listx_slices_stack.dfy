/** listx/slices/stack.go: a LIFO stack over a SliceList; the top is the
    last index, so Push appends and Pop removes index Size() - 1. */
module ListxSlicesStack {
  import opened OptionMonad
  import opened ResultMonad
  import opened Errors
  import opened ListSpec
  import opened ListxSlicesList

  class SliceStack<T(==)> {
    const list: SliceList<T>

    ghost predicate Valid()
      reads list, list.Repr
    {
      list.Valid()
    }

    /** The elements from bottom to top. */
    ghost function Contents(): seq<T>
      reads list
    {
      list.contents
    }

    constructor ()
      ensures Valid() && fresh(list.Repr) && Contents() == []
    {
      list := new SliceList();
    }

    method Push(element: T)
      requires Valid()
      modifies list.Repr
      ensures Valid() && fresh(list.Repr - old(list.Repr))
      ensures Contents() == old(Contents()) + [element]
    {
      list.Add(element);
    }

    /** Removes the top, the most recently pushed element still present,
        or reports that the stack is empty. */
    method Pop() returns (r: Result<T, Error>)
      requires Valid()
      modifies list.Repr
      ensures Valid() && list.Repr == old(list.Repr)
      ensures old(Contents()) == [] ==> r == Err(StackIsEmpty) && Contents() == []
      ensures old(Contents()) != [] ==> r == Ok(Last(old(Contents()))) && Contents() == DropLast(old(Contents()))
    {
      if IsEmpty() {
        return Err(StackIsEmpty);
      }
      r := list.Remove(list.Size() - 1);
      RemoveAtEnds(old(list.contents));
    }

    method Peek() returns (r: Option<T>)
      requires Valid()
      ensures Contents() == [] ==> r == None
      ensures Contents() != [] ==> r == Some(Last(Contents()))
    {
      if IsEmpty() {
        return None;
      }
      r := list.Get(list.Size() - 1);
    }

    function Size(): (n: int)
      reads list, list.Repr
      requires Valid()
      ensures n == |Contents()|
    {
      list.Size()
    }

    function IsEmpty(): (b: bool)
      reads list, list.Repr
      requires Valid()
      ensures b <==> Contents() == []
    {
      list.IsEmpty()
    }

    method Clear()
      requires Valid()
      modifies list.Repr
      ensures Valid() && list.Repr == old(list.Repr)
      ensures Contents() == []
    {
      list.Clear();
    }

    /** Top to bottom: element i of the list goes to index len - 1 - i of a
        slice of the same length. */
    method ToSlice() returns (r: seq<T>)
      requires Valid()
      ensures r == Reversed(Contents())
    {
      var slice := list.ToSlice();
      r := slice;
      var i := 0;
      while i < |slice|
        invariant 0 <= i <= |slice| && |r| == |slice|
        invariant forall j :: 0 <= j < i ==> r[|slice| - 1 - j] == slice[j]
      {
        r := r[|slice| - 1 - i := slice[i]];
        i := i + 1;
      }
      forall k | 0 <= k < |slice|
        ensures r[k] == Reversed(slice)[k]
      {
        ReversedAt(slice, k);
        assert r[|slice| - 1 - (|slice| - 1 - k)] == slice[|slice| - 1 - k];
      }
    }
  }
}
