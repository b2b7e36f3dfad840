/** listx/linked/deque.go: a double-ended queue that embeds a LinkedList.
    The front is index 0 and the back is index Size() - 1 of the list. */
module ListxLinkedDeque {
  import opened OptionMonad
  import opened ResultMonad
  import opened Errors
  import opened ListSpec
  import opened ListxLinkedList

  class LinkedDeque<T(==)> {
    const list: LinkedList<T>

    ghost predicate Valid()
      reads list, list.Repr
    {
      list.Valid()
    }

    /** The elements from front to back. */
    ghost function Contents(): seq<T>
      reads list
    {
      list.contents
    }

    constructor ()
      ensures Valid() && fresh(list.Repr) && Contents() == []
    {
      list := new LinkedList();
    }

    /** Inserts at index 0. */
    method AddFirst(element: T)
      requires Valid()
      modifies list.Repr
      ensures Valid() && fresh(list.Repr - old(list.Repr))
      ensures Contents() == [element] + old(Contents())
    {
      var _ := list.Insert(0, element);
      InsertAtEnds(old(list.contents), element);
    }

    method AddLast(element: T)
      requires Valid()
      modifies list.Repr
      ensures Valid() && fresh(list.Repr - old(list.Repr))
      ensures Contents() == old(Contents()) + [element]
    {
      list.Add(element);
    }

    /** Removes index 0, or reports that the deque is empty. */
    method RemoveFirst() returns (r: Result<T, Error>)
      requires Valid()
      modifies list.Repr
      ensures Valid() && list.Repr == old(list.Repr)
      ensures old(Contents()) == [] ==> r == Err(DequeIsEmpty) && Contents() == []
      ensures old(Contents()) != [] ==> r == Ok(old(Contents())[0]) && Contents() == old(Contents())[1..]
    {
      if list.IsEmpty() {
        return Err(DequeIsEmpty);
      }
      r := list.Remove(0);
      RemoveAtEnds(old(list.contents));
    }

    /** Removes index Size() - 1, or reports that the deque is empty. */
    method RemoveLast() returns (r: Result<T, Error>)
      requires Valid()
      modifies list.Repr
      ensures Valid() && list.Repr == old(list.Repr)
      ensures old(Contents()) == [] ==> r == Err(DequeIsEmpty) && Contents() == []
      ensures old(Contents()) != [] ==> r == Ok(Last(old(Contents()))) && Contents() == DropLast(old(Contents()))
    {
      if list.IsEmpty() {
        return Err(DequeIsEmpty);
      }
      r := list.Remove(list.Size() - 1);
      RemoveAtEnds(old(list.contents));
    }

    method PeekFirst() returns (r: Option<T>)
      requires Valid()
      ensures Contents() == [] ==> r == None
      ensures Contents() != [] ==> r == Some(Contents()[0])
    {
      if list.IsEmpty() {
        return None;
      }
      r := list.Get(0);
    }

    method PeekLast() returns (r: Option<T>)
      requires Valid()
      ensures Contents() == [] ==> r == None
      ensures Contents() != [] ==> r == Some(Last(Contents()))
    {
      if list.IsEmpty() {
        return None;
      }
      r := list.Get(list.Size() - 1);
    }
  }
}
