/** listx/slices/list.go: a list over a Go slice. The slice is the first
    `len` cells of the backing array `data`, whose length is the slice's
    capacity; `contents` is the list's value as a sequence. */
module ListxSlicesList {
  import opened OptionMonad
  import opened ResultMonad
  import opened Errors
  import opened ListSpec

  /** Go's built-in copy(a[dst:dst+n], a[src:src+n]) within one backing
      array: n cells move from src to dst, correctly when the two ranges
      overlap, and every other cell keeps its value. */
  method Copy<T>(a: array<T>, dst: int, src: int, n: int)
    requires 0 <= dst && 0 <= src && 0 <= n
    requires dst + n <= a.Length && src + n <= a.Length
    modifies a
    ensures forall j :: 0 <= j < a.Length ==>
              a[j] == if dst <= j < dst + n then old(a[src + j - dst]) else old(a[j])
  {
    if dst <= src {
      var i := 0;
      while i < n
        invariant 0 <= i <= n
        invariant forall j :: 0 <= j < a.Length ==>
                    a[j] == if dst <= j < dst + i then old(a[src + j - dst]) else old(a[j])
      {
        a[dst + i] := a[src + i];
        i := i + 1;
      }
    } else {
      var i := n;
      while i > 0
        invariant 0 <= i <= n
        invariant forall j :: 0 <= j < a.Length ==>
                    a[j] == if dst + i <= j < dst + n then old(a[src + j - dst]) else old(a[j])
      {
        i := i - 1;
        a[dst + i] := a[src + i];
      }
    }
  }

  class SliceList<T(==)> {
    var data: array<T>
    var len: nat
    ghost var contents: seq<T>
    ghost var Repr: set<object>

    /** The slice fits its backing array and holds the contents. */
    ghost predicate Valid()
      reads this, Repr
    {
      Repr == {this, data} && len <= data.Length && contents == data[..len]
    }

    /** make([]T, 0): an empty slice of capacity 0. */
    constructor ()
      ensures Valid() && fresh(Repr) && contents == []
    {
      data := new T[0];
      len := 0;
      contents := [];
      Repr := {this, data};
    }

    /** Go's append of one element: when the capacity is used up the cells
        move to a larger fresh array, then the element goes at index len. */
    method Append(element: T)
      requires Valid()
      modifies Repr
      ensures Valid() && fresh(Repr - old(Repr))
      ensures contents == old(contents) + [element]
    {
      if len == data.Length {
        var bigger := new T[2 * len + 1](_ => element);
        var i := 0;
        while i < len
          invariant 0 <= i <= len
          invariant forall j :: 0 <= j < i ==> bigger[j] == data[j]
          modifies bigger
        {
          bigger[i] := data[i];
          i := i + 1;
        }
        data := bigger;
        Repr := {this, data};
      }
      data[len] := element;
      len := len + 1;
      contents := contents + [element];
      assert data[..len] == contents;
    }

    /** Appends at the end. */
    method Add(element: T)
      requires Valid()
      modifies Repr
      ensures Valid() && fresh(Repr - old(Repr))
      ensures contents == old(contents) + [element]
    {
      Append(element);
    }

    /** Inserts so that element lands at index; 0 <= index <= len, otherwise
        an error and no change. Away from the end the slice grows by one cell
        (Go appends the zero value there; any value will do, the shift
        overwrites it), the tail shifts right and element fills the gap. */
    method Insert(index: int, element: T) returns (err: Option<Error>)
      requires Valid()
      modifies Repr
      ensures Valid() && fresh(Repr - old(Repr))
      ensures 0 <= index <= |old(contents)| ==> err.IsNone() && contents == InsertAt(old(contents), index, element)
      ensures !(0 <= index <= |old(contents)|) ==> err == Some(IndexOutOfBounds) && contents == old(contents)
    {
      if index < 0 || index > len {
        return Some(IndexOutOfBounds);
      }
      if index == len {
        Append(element);
        InsertAtEnds(old(contents), element);
        return None;
      }
      Append(element);
      ShiftIn(index, element);
      return None;
    }

    /** After the extra cell is appended: copy(s[index+1:], s[index:]) moves
        the tail right by one, then element fills index. */
    method ShiftIn(index: int, element: T)
      requires Valid() && 0 <= index < len
      modifies Repr
      ensures Valid() && Repr == old(Repr)
      ensures contents == InsertAt(old(contents[..len - 1]), index, element)
    {
      ghost var before := contents[..len - 1];
      Copy(data, index + 1, index, len - index - 1);
      data[index] := element;
      contents := InsertAt(before, index, element);
      forall j | 0 <= j < len
        ensures data[j] == contents[j]
      {
        if j < index {
          assert data[j] == old(data[j]) == before[j];
        } else if index < j {
          assert data[j] == old(data[j - 1]) == before[j - 1];
        }
      }
      assert data[..len] == contents;
    }

    /** Some(contents[index]) when 0 <= index < len, else None. */
    method Get(index: int) returns (r: Option<T>)
      requires Valid()
      ensures 0 <= index < |contents| ==> r == Some(contents[index])
      ensures !(0 <= index < |contents|) ==> r == None
    {
      if index < 0 || index >= len {
        return None;
      }
      return Some(data[index]);
    }

    /** Overwrites index only; out of bounds is an error and no change. */
    method Set(index: int, element: T) returns (err: Option<Error>)
      requires Valid()
      modifies Repr
      ensures Valid() && Repr == old(Repr)
      ensures 0 <= index < |old(contents)| ==> err.IsNone() && contents == old(contents)[index := element]
      ensures !(0 <= index < |old(contents)|) ==> err == Some(IndexOutOfBounds) && contents == old(contents)
    {
      if index < 0 || index >= len {
        return Some(IndexOutOfBounds);
      }
      data[index] := element;
      contents := contents[index := element];
      assert data[..len] == contents;
      return None;
    }

    /** Shifts the cells after index left by one and shortens the slice;
        out of bounds is an error and no change. */
    method Remove(index: int) returns (r: Result<T, Error>)
      requires Valid()
      modifies Repr
      ensures Valid() && Repr == old(Repr)
      ensures 0 <= index < |old(contents)| ==> r == Ok(old(contents)[index]) && contents == RemoveAt(old(contents), index)
      ensures !(0 <= index < |old(contents)|) ==> r == Err(IndexOutOfBounds) && contents == old(contents)
    {
      if index < 0 || index >= len {
        return Err(IndexOutOfBounds);
      }
      var removedElement := data[index];
      Copy(data, index, index + 1, len - index - 1);
      len := len - 1;
      contents := RemoveAt(contents, index);
      assert data[..len] == contents;
      return Ok(removedElement);
    }

    /** Removes the element at IndexOf(element), if there is one. */
    method RemoveElement(element: T) returns (removed: bool)
      requires Valid()
      modifies Repr
      ensures Valid() && Repr == old(Repr)
      ensures removed <==> element in old(contents)
      ensures removed ==> contents == RemoveAt(old(contents), FirstIndexOf(old(contents), element).value)
      ensures !removed ==> contents == old(contents)
    {
      var indexOpt := IndexOf(element);
      if indexOpt.IsNone() {
        return false;
      }
      var result := Remove(indexOpt.Unwrap());
      return result.IsOk();
    }

    /** The first index holding element, or None iff there is none. */
    method IndexOf(element: T) returns (r: Option<int>)
      requires Valid()
      ensures r == FirstIndexOf(contents, element)
    {
      var i := 0;
      while i < len
        invariant 0 <= i <= len
        invariant forall j :: 0 <= j < i ==> contents[j] != element
      {
        if data[i] == element {
          FirstIndexOfIs(contents, element, i);
          return Some(i);
        }
        i := i + 1;
      }
      return None;
    }

    /** The last index holding element, or None iff there is none. */
    method LastIndexOf(element: T) returns (r: Option<int>)
      requires Valid()
      ensures r == ListSpec.LastIndexOf(contents, element)
    {
      var lastIndex := -1;
      var i := 0;
      while i < len
        invariant 0 <= i <= len
        invariant -1 <= lastIndex < i
        invariant lastIndex >= 0 ==> contents[lastIndex] == element
        invariant forall j :: lastIndex < j < i ==> contents[j] != element
      {
        if data[i] == element {
          lastIndex := i;
        }
        i := i + 1;
      }
      if lastIndex == -1 {
        return None;
      }
      LastIndexOfIs(contents, element, lastIndex);
      return Some(lastIndex);
    }

    method Contains(element: T) returns (b: bool)
      requires Valid()
      ensures b <==> element in contents
    {
      var index := IndexOf(element);
      b := index.IsSome();
    }

    function Size(): (n: int)
      reads this, Repr
      requires Valid()
      ensures n == |contents|
    {
      len
    }

    function IsEmpty(): (b: bool)
      reads this, Repr
      requires Valid()
      ensures b <==> contents == []
    {
      len == 0
    }

    /** Reslices to length 0, keeping the backing array. */
    method Clear()
      requires Valid()
      modifies Repr
      ensures Valid() && Repr == old(Repr)
      ensures contents == []
    {
      len := 0;
      contents := [];
    }

    /** A copy of the slice. */
    method ToSlice() returns (r: seq<T>)
      requires Valid()
      ensures r == contents
    {
      r := data[..len];
    }
  }
}
