/** lists/hash/deque.go: the older double-ended queue over the older
    HashList, returning Go's `(T, error)` pair; an empty deque gives the
    list's zero value and an error. */
module ListsHashDeque {
  import opened OptionMonad
  import opened Errors
  import opened ListSpec
  import opened ListsHashList

  class HashDeque<T(==)> {
    const list: HashList<T>

    ghost predicate Valid()
      reads list, list.Repr
    {
      list.Valid()
    }

    /** The elements from front to back. */
    ghost function Contents(): seq<T>
      reads list
    {
      list.contents
    }

    constructor (zero: T)
      ensures Valid() && fresh(list.Repr) && Contents() == [] && list.zero == zero
    {
      list := new HashList(zero);
    }

    /** Inserts at index 0. */
    method AddFirst(element: T)
      requires Valid()
      modifies list.Repr
      ensures Valid() && fresh(list.Repr - old(list.Repr))
      ensures Contents() == [element] + old(Contents())
    {
      var _ := list.Insert(0, element);
      InsertAtEnds(old(list.contents), element);
    }

    method AddLast(element: T)
      requires Valid()
      modifies list.Repr
      ensures Valid() && fresh(list.Repr - old(list.Repr))
      ensures Contents() == old(Contents()) + [element]
    {
      list.Add(element);
    }

    /** Removes index 0, or (zero, an error) when the deque is empty. */
    method RemoveFirst() returns (value: T, err: Option<Error>)
      requires Valid()
      modifies list.Repr
      ensures Valid() && list.Repr == old(list.Repr)
      ensures old(Contents()) == [] ==> value == list.zero && err == Some(DequeIsEmpty) && Contents() == []
      ensures old(Contents()) != [] ==> value == old(Contents())[0] && err.IsNone()
                                        && Contents() == old(Contents())[1..]
    {
      if list.IsEmpty() {
        return list.zero, Some(DequeIsEmpty);
      }
      value, err := list.Remove(0);
      RemoveAtEnds(old(list.contents));
    }

    /** Removes index Size() - 1, or (zero, an error) when the deque is empty. */
    method RemoveLast() returns (value: T, err: Option<Error>)
      requires Valid()
      modifies list.Repr
      ensures Valid() && list.Repr == old(list.Repr)
      ensures old(Contents()) == [] ==> value == list.zero && err == Some(DequeIsEmpty) && Contents() == []
      ensures old(Contents()) != [] ==> value == Last(old(Contents())) && err.IsNone()
                                        && Contents() == DropLast(old(Contents()))
    {
      if list.IsEmpty() {
        return list.zero, Some(DequeIsEmpty);
      }
      value, err := list.Remove(list.Size() - 1);
      RemoveAtEnds(old(list.contents));
    }

    method PeekFirst() returns (value: T, err: Option<Error>)
      requires Valid()
      ensures Contents() == [] ==> value == list.zero && err == Some(DequeIsEmpty)
      ensures Contents() != [] ==> value == Contents()[0] && err.IsNone()
    {
      if list.IsEmpty() {
        return list.zero, Some(DequeIsEmpty);
      }
      value, err := list.Get(0);
    }

    method PeekLast() returns (value: T, err: Option<Error>)
      requires Valid()
      ensures Contents() == [] ==> value == list.zero && err == Some(DequeIsEmpty)
      ensures Contents() != [] ==> value == Last(Contents()) && err.IsNone()
    {
      if list.IsEmpty() {
        return list.zero, Some(DequeIsEmpty);
      }
      value, err := list.Get(list.Size() - 1);
    }
  }
}
