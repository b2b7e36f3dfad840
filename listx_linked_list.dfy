/** listx/linked/list.go: a singly linked list with head, tail and size.
    The ghost sequence `nodes` is the chain from head; `contents` is the
    list's value, the sequence every list backing presents. */
module ListxLinkedList {
  import opened OptionMonad
  import opened ResultMonad
  import opened Errors
  import opened ListSpec

  class Node<T> {
    var value: T
    var next: Node?<T>

    constructor (value: T)
      ensures this.value == value && next == null
    {
      this.value := value;
      next := null;
    }
  }

  /** Inserting a fresh item into a duplicate-free sequence keeps it free of duplicates. */
  lemma InsertKeepsDistinct<X>(s: seq<X>, index: int, x: X)
    requires 0 <= index <= |s|
    requires forall i, j :: 0 <= i < j < |s| ==> s[i] != s[j]
    requires x !in s
    ensures forall i, j :: 0 <= i < j < |InsertAt(s, index, x)| ==> InsertAt(s, index, x)[i] != InsertAt(s, index, x)[j]
  {
    var t := InsertAt(s, index, x);
    forall i, j | 0 <= i < j < |t|
      ensures t[i] != t[j]
    {
      var i', j' := if i <= index then i else i - 1, if j <= index then j else j - 1;
      if i != index && j != index {
        assert t[i] == s[i'] && t[j] == s[j'] && i' < j';
      }
    }
  }

  /** Linking a node between positions index - 1 and index of a chain gives
      the chain of the sequence with that node inserted at index. */
  lemma SpliceChain<T>(was: seq<Node<T>>, index: int, node: Node<T>)
    requires 0 < index < |was|
    requires forall i :: 0 <= i < |was| - 1 && i != index - 1 ==> was[i].next == was[i + 1]
    requires was[index - 1].next == node && node.next == was[index]
    ensures forall i :: 0 <= i < |was| ==> InsertAt(was, index, node)[i].next == InsertAt(was, index, node)[i + 1]
  {
  }

  /** Inserting a node holding x into nodes that hold s holds s with x inserted. */
  lemma SpliceValues<T>(was: seq<Node<T>>, s: seq<T>, index: int, node: Node<T>, x: T)
    requires 0 <= index <= |was| == |s|
    requires forall i :: 0 <= i < |was| ==> was[i].value == s[i]
    requires node.value == x
    ensures forall i :: 0 <= i <= |was| ==> InsertAt(was, index, node)[i].value == InsertAt(s, index, x)[i]
  {
  }

  class LinkedList<T(==)> {
    var head: Node?<T>
    var tail: Node?<T>
    var size: int
    ghost var nodes: seq<Node<T>>
    ghost var contents: seq<T>
    ghost var Repr: set<object>

    /** The chain from head visits `nodes` in order and ends at tail, whose
        next is nil; size counts the nodes; head, tail and size are nil, nil
        and 0 together. */
    ghost predicate Valid()
      reads this, Repr
    {
      this in Repr
      && (forall i :: 0 <= i < |nodes| ==> nodes[i] in Repr)
      && (forall i, j :: 0 <= i < j < |nodes| ==> nodes[i] != nodes[j])
      && size == |nodes| == |contents|
      && (forall i :: 0 <= i < |nodes| ==> nodes[i].value == contents[i])
      && (forall i :: 0 <= i < |nodes| - 1 ==> nodes[i].next == nodes[i + 1])
      && (nodes == [] ==> head == null && tail == null)
      && (nodes != [] ==> head == nodes[0] && tail == nodes[|nodes| - 1] && tail.next == null)
    }

    constructor ()
      ensures Valid() && fresh(Repr) && contents == []
    {
      head, tail, size := null, null, 0;
      nodes, contents := [], [];
      Repr := {this};
    }

    /** Appends a new node after tail (or as the only node). */
    method Add(element: T)
      requires Valid()
      modifies Repr
      ensures Valid() && fresh(Repr - old(Repr))
      ensures contents == old(contents) + [element]
    {
      var newNode := new Node(element);
      if head == null {
        head := newNode;
        tail := newNode;
      } else {
        tail.next := newNode;
        tail := newNode;
      }
      size := size + 1;
      nodes := nodes + [newNode];
      contents := contents + [element];
      Repr := Repr + {newNode};
    }

    /** Inserts so that element lands at index; 0 <= index <= size, otherwise
        an error and no change. index == size is Add. */
    method Insert(index: int, element: T) returns (err: Option<Error>)
      requires Valid()
      modifies Repr
      ensures Valid() && fresh(Repr - old(Repr))
      ensures 0 <= index <= old(size) ==> err.IsNone() && contents == InsertAt(old(contents), index, element)
      ensures !(0 <= index <= old(size)) ==> err == Some(IndexOutOfBounds) && contents == old(contents)
    {
      if index < 0 || index > size {
        return Some(IndexOutOfBounds);
      }
      if index == size {
        Add(element);
        InsertAtEnds(old(contents), element);
        return None;
      }
      if index == 0 {
        LinkFirst(element);
      } else {
        LinkAfter(index, element);
      }
      return None;
    }

    /** The index == 0 branch of Insert on a non-empty list: a new head. */
    method LinkFirst(element: T)
      requires Valid() && size > 0
      modifies Repr
      ensures Valid() && fresh(Repr - old(Repr))
      ensures contents == [element] + old(contents)
    {
      var newNode := new Node(element);
      newNode.next := head;
      head := newNode;
      // The list is not empty here, so tail is never nil.
      tail := if tail == null then newNode else tail;
      size := size + 1;
      nodes := [newNode] + nodes;
      contents := [element] + contents;
      Repr := Repr + {newNode};
    }

    /** The middle branch of Insert: a new node after the one at index - 1. */
    method LinkAfter(index: int, element: T)
      requires Valid() && 0 < index < size
      modifies Repr
      ensures Valid() && fresh(Repr - old(Repr))
      ensures contents == InsertAt(old(contents), index, element)
    {
      var newNode := new Node(element);
      ghost var was, before := nodes, contents;
      var prev := GetNodeAt(index - 1);
      // Only prev and the new node change their links; no other node is prev.
      assert forall i :: 0 <= i < |was| && i != index - 1 ==> was[i] != prev;
      assert tail == was[|was| - 1] != prev;
      newNode.next := prev.next;
      prev.next := newNode;
      size := size + 1;
      nodes := InsertAt(was, index, newNode);
      contents := InsertAt(before, index, element);
      Repr := Repr + {newNode};
      SplicedValid(was, before, index, newNode, element);
    }

    /** After a node holding element is linked between positions index - 1
        and index of the old chain was, the list is valid with that node
        inserted at index. */
    lemma SplicedValid(was: seq<Node<T>>, before: seq<T>, index: int, node: Node<T>, element: T)
      requires 0 < index < |was| == |before|
      requires nodes == InsertAt(was, index, node) && contents == InsertAt(before, index, element)
      requires size == |was| + 1
      requires this in Repr && node in Repr && forall i :: 0 <= i < |was| ==> was[i] in Repr
      requires forall i, j :: 0 <= i < j < |was| ==> was[i] != was[j]
      requires node !in was
      requires forall i :: 0 <= i < |was| ==> was[i].value == before[i]
      requires node.value == element
      requires forall i :: 0 <= i < |was| - 1 && i != index - 1 ==> was[i].next == was[i + 1]
      requires was[index - 1].next == node && node.next == was[index]
      requires head == was[0] && tail == was[|was| - 1] && tail.next == null
      ensures Valid()
    {
      SpliceChain(was, index, node);
      SpliceValues(was, before, index, node, element);
      InsertKeepsDistinct(was, index, node);
    }

    /** Some(contents[index]) when 0 <= index < size, else None. */
    method Get(index: int) returns (r: Option<T>)
      requires Valid()
      ensures 0 <= index < |contents| ==> r == Some(contents[index])
      ensures !(0 <= index < |contents|) ==> r == None
    {
      if index < 0 || index >= size {
        return None;
      }
      var node := GetNodeAt(index);
      return Some(node.value);
    }

    /** Overwrites index only; out of bounds is an error and no change. */
    method Set(index: int, element: T) returns (err: Option<Error>)
      requires Valid()
      modifies Repr
      ensures Valid() && Repr == old(Repr)
      ensures 0 <= index < old(size) ==> err.IsNone() && contents == old(contents)[index := element]
      ensures !(0 <= index < old(size)) ==> err == Some(IndexOutOfBounds) && contents == old(contents)
    {
      if index < 0 || index >= size {
        return Some(IndexOutOfBounds);
      }
      var node := GetNodeAt(index);
      node.value := element;
      contents := contents[index := element];
      return None;
    }

    /** Unlinks the node at index and returns its value, moving tail back
        when the last node goes; out of bounds is an error and no change. */
    method Remove(index: int) returns (r: Result<T, Error>)
      requires Valid()
      modifies Repr
      ensures Valid() && Repr == old(Repr)
      ensures 0 <= index < old(size) ==> r == Ok(old(contents)[index]) && contents == RemoveAt(old(contents), index)
      ensures !(0 <= index < old(size)) ==> r == Err(IndexOutOfBounds) && contents == old(contents)
    {
      if index < 0 || index >= size {
        return Err(IndexOutOfBounds);
      }
      var removedValue: T;
      if index == 0 {
        removedValue := UnlinkHead();
      } else {
        var prev := GetNodeAt(index - 1);
        removedValue := UnlinkNext(prev, index);
      }
      return Ok(removedValue);
    }

    /** Unlinks the first node holding element and reports whether there was one. */
    method RemoveElement(element: T) returns (removed: bool)
      requires Valid()
      modifies Repr
      ensures Valid() && Repr == old(Repr)
      ensures removed <==> element in old(contents)
      ensures removed ==> contents == RemoveAt(old(contents), FirstIndexOf(old(contents), element).value)
      ensures !removed ==> contents == old(contents)
    {
      if head == null {
        return false;
      }
      if head.value == element {
        var _ := UnlinkHead();
        return true;
      }
      var current := head;
      ghost var i := 0;
      assert i < |nodes| - 1 ==> current.next == nodes[i + 1];
      while current.next != null
        invariant Valid() && unchanged(this)
        invariant 0 <= i < |nodes| && current == nodes[i]
        invariant current.next == null <==> i == |nodes| - 1
        invariant forall j :: 0 <= j <= i ==> contents[j] != element
        decreases |nodes| - i
      {
        assert current.next == nodes[i + 1];
        if current.next.value == element {
          FirstIndexOfIs(contents, element, i + 1);
          var _ := UnlinkNext(current, i + 1);
          return true;
        }
        current := current.next;
        i := i + 1;
        assert i < |nodes| - 1 ==> current.next == nodes[i + 1];
      }
      return false;
    }

    /** The first index holding element, or None iff there is none. */
    method IndexOf(element: T) returns (r: Option<int>)
      requires Valid()
      ensures r == FirstIndexOf(contents, element)
    {
      var current := head;
      var i := 0;
      while current != null
        invariant 0 <= i <= |nodes|
        invariant current == if i < |nodes| then nodes[i] else null
        invariant forall j :: 0 <= j < i ==> contents[j] != element
        decreases |nodes| - i
      {
        if current.value == element {
          FirstIndexOfIs(contents, element, i);
          return Some(i);
        }
        current := current.next;
        i := i + 1;
      }
      return None;
    }

    /** The last index holding element, or None iff there is none. */
    method LastIndexOf(element: T) returns (r: Option<int>)
      requires Valid()
      ensures r == ListSpec.LastIndexOf(contents, element)
    {
      var lastIndex := -1;
      var current := head;
      var i := 0;
      while current != null
        invariant 0 <= i <= |nodes|
        invariant current == if i < |nodes| then nodes[i] else null
        invariant -1 <= lastIndex < i
        invariant lastIndex >= 0 ==> contents[lastIndex] == element
        invariant forall j :: lastIndex < j < i ==> contents[j] != element
        decreases |nodes| - i
      {
        if current.value == element {
          lastIndex := i;
        }
        current := current.next;
        i := i + 1;
      }
      if lastIndex == -1 {
        return None;
      }
      LastIndexOfIs(contents, element, lastIndex);
      return Some(lastIndex);
    }

    method Contains(element: T) returns (b: bool)
      requires Valid()
      ensures b <==> element in contents
    {
      var index := IndexOf(element);
      b := index.IsSome();
    }

    function Size(): (n: int)
      reads this, Repr
      requires Valid()
      ensures n == |contents|
    {
      size
    }

    function IsEmpty(): (b: bool)
      reads this, Repr
      requires Valid()
      ensures b <==> contents == []
    {
      size == 0
    }

    /** Drops every node. */
    method Clear()
      requires Valid()
      modifies Repr
      ensures Valid() && Repr == old(Repr)
      ensures contents == []
    {
      head, tail, size := null, null, 0;
      nodes, contents := [], [];
    }

    /** The values from head to tail. */
    method ToSlice() returns (r: seq<T>)
      requires Valid()
      ensures r == contents
    {
      r := [];
      var current := head;
      var i := 0;
      while current != null
        invariant 0 <= i <= |nodes|
        invariant current == if i < |nodes| then nodes[i] else null
        invariant r == contents[..i]
        decreases |nodes| - i
      {
        r := r + [current.value];
        current := current.next;
        i := i + 1;
      }
      assert r == contents;
    }

    /** Drops the head node, clearing tail when it was the only one. */
    method UnlinkHead() returns (value: T)
      requires Valid() && size > 0
      modifies this
      ensures Valid() && Repr == old(Repr)
      ensures value == old(contents)[0] && contents == old(contents)[1..]
    {
      value := head.value;
      head := head.next;
      if head == null {
        tail := null;
      }
      size := size - 1;
      nodes := nodes[1..];
      contents := contents[1..];
    }

    /** Drops the node after prev, the one at index k, moving tail back to
        prev when that was the last node. */
    method UnlinkNext(prev: Node<T>, ghost k: int) returns (value: T)
      requires Valid() && 0 < k < size && prev == nodes[k - 1]
      modifies Repr
      ensures Valid() && Repr == old(Repr)
      ensures value == old(contents)[k] && contents == RemoveAt(old(contents), k)
    {
      ghost var was, before := nodes, contents;
      assert prev.next == was[k];
      assert was[k].next == if k + 1 < |was| then was[k + 1] else null;
      value := prev.next.value;
      prev.next := prev.next.next;
      if prev.next == null {
        tail := prev;
      }
      size := size - 1;
      nodes := was[..k] + was[k + 1..];
      contents := RemoveAt(contents, k);
      forall i | 0 <= i < |nodes| - 1
        ensures nodes[i].next == nodes[i + 1]
      {
        if i < k - 1 {
          assert nodes[i] == was[i] != prev;
        } else if k <= i {
          assert nodes[i] == was[i + 1] != prev;
        }
      }
      if k < |was| - 1 {
        assert tail == was[|was| - 1] != prev;
      }
      forall i | 0 <= i < |nodes|
        ensures nodes[i].value == contents[i]
      {
        if k <= i {
          assert nodes[i] == was[i + 1];
        }
      }
      forall i, j | 0 <= i < j < |nodes|
        ensures nodes[i] != nodes[j]
      {
        var i', j' := if i < k then i else i + 1, if j < k then j else j + 1;
        assert nodes[i] == was[i'] && nodes[j] == was[j'] && i' < j';
      }
    }

    /** Walks index links from head. */
    method GetNodeAt(index: int) returns (node: Node<T>)
      requires Valid()
      requires 0 <= index < size
      ensures node == nodes[index]
    {
      node := head;
      var i := 0;
      while i < index
        invariant 0 <= i <= index
        invariant node == nodes[i]
      {
        assert node.next == nodes[i + 1];
        node := node.next;
        i := i + 1;
      }
    }
  }
}
