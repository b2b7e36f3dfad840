/** listx/slices/queue.go: a FIFO queue over a SliceList; the front is
    index 0 and Enqueue appends at the back. */
module ListxSlicesQueue {
  import opened OptionMonad
  import opened ResultMonad
  import opened Errors
  import opened ListSpec
  import opened ListxSlicesList

  class SliceQueue<T(==)> {
    const list: SliceList<T>

    ghost predicate Valid()
      reads list, list.Repr
    {
      list.Valid()
    }

    /** The elements from front to back. */
    ghost function Contents(): seq<T>
      reads list
    {
      list.contents
    }

    constructor ()
      ensures Valid() && fresh(list.Repr) && Contents() == []
    {
      list := new SliceList();
    }

    method Enqueue(element: T)
      requires Valid()
      modifies list.Repr
      ensures Valid() && fresh(list.Repr - old(list.Repr))
      ensures Contents() == old(Contents()) + [element]
    {
      list.Add(element);
    }

    /** Removes index 0, or reports that the queue is empty. */
    method Dequeue() returns (r: Result<T, Error>)
      requires Valid()
      modifies list.Repr
      ensures Valid() && list.Repr == old(list.Repr)
      ensures old(Contents()) == [] ==> r == Err(QueueIsEmpty) && Contents() == []
      ensures old(Contents()) != [] ==> r == Ok(old(Contents())[0]) && Contents() == old(Contents())[1..]
    {
      if IsEmpty() {
        return Err(QueueIsEmpty);
      }
      r := list.Remove(0);
      RemoveAtEnds(old(list.contents));
    }

    method Peek() returns (r: Option<T>)
      requires Valid()
      ensures Contents() == [] ==> r == None
      ensures Contents() != [] ==> r == Some(Contents()[0])
    {
      if IsEmpty() {
        return None;
      }
      r := list.Get(0);
    }

    function Size(): (n: int)
      reads list, list.Repr
      requires Valid()
      ensures n == |Contents()|
    {
      list.Size()
    }

    function IsEmpty(): (b: bool)
      reads list, list.Repr
      requires Valid()
      ensures b <==> Contents() == []
    {
      list.IsEmpty()
    }

    method Clear()
      requires Valid()
      modifies list.Repr
      ensures Valid() && list.Repr == old(list.Repr)
      ensures Contents() == []
    {
      list.Clear();
    }

    /** Front to back, the list's own order. */
    method ToSlice() returns (r: seq<T>)
      requires Valid()
      ensures r == Contents()
    {
      r := list.ToSlice();
    }
  }
}
