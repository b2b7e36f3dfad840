/** The sequence every list backing (linked nodes, a slice, a map from
    indices) must present, and the operations on it that the lists, deques,
    stacks and queues are specified by. */
module ListSpec {
  import opened OptionMonad

  /** s with x inserted so that it lands at index i. */
  function InsertAt<T>(s: seq<T>, i: int, x: T): (r: seq<T>)
    requires 0 <= i <= |s|
    ensures |r| == |s| + 1
    ensures r[i] == x
    ensures forall j :: 0 <= j < i ==> r[j] == s[j]
    ensures forall j :: i < j < |r| ==> r[j] == s[j - 1]
  {
    s[..i] + [x] + s[i..]
  }

  /** s without the element at index i. */
  function RemoveAt<T>(s: seq<T>, i: int): (r: seq<T>)
    requires 0 <= i < |s|
    ensures |r| == |s| - 1
    ensures forall j :: 0 <= j < i ==> r[j] == s[j]
    ensures forall j :: i <= j < |r| ==> r[j] == s[j + 1]
  {
    s[..i] + s[i + 1..]
  }

  /** The smallest index holding x, or None iff x does not occur. */
  function FirstIndexOf<T(==)>(s: seq<T>, x: T): (r: Option<int>)
    ensures r.IsSome() ==> 0 <= r.value < |s| && s[r.value] == x
    ensures r.IsSome() ==> forall j :: 0 <= j < r.value ==> s[j] != x
    ensures r.IsNone() <==> x !in s
  {
    if s == [] then None
    else if s[0] == x then Some(0)
    else
      var rest := FirstIndexOf(s[1..], x);
      assert s == [s[0]] + s[1..];
      if rest.IsNone() then None else Some(rest.value + 1)
  }

  /** The largest index holding x, or None iff x does not occur. */
  function LastIndexOf<T(==)>(s: seq<T>, x: T): (r: Option<int>)
    ensures r.IsSome() ==> 0 <= r.value < |s| && s[r.value] == x
    ensures r.IsSome() ==> forall j :: r.value < j < |s| ==> s[j] != x
    ensures r.IsNone() <==> x !in s
  {
    if s == [] then None
    else if s[|s| - 1] == x then Some(|s| - 1)
    else
      assert s == s[..|s| - 1] + [s[|s| - 1]];
      LastIndexOf(s[..|s| - 1], x)
  }

  /** The back element. */
  function Last<T>(s: seq<T>): (x: T)
    requires s != []
    ensures x in s
  {
    s[|s| - 1]
  }

  /** s without its back element. */
  function DropLast<T>(s: seq<T>): (r: seq<T>)
    requires s != []
    ensures r + [Last(s)] == s
  {
    s[..|s| - 1]
  }

  /** s back to front. */
  function Reversed<T>(s: seq<T>): (r: seq<T>)
    ensures |r| == |s|
  {
    if s == [] then [] else Reversed(s[1..]) + [s[0]]
  }

  /** Element k of the reversal is element |s| - 1 - k of the original. */
  lemma {:induction false} ReversedAt<T>(s: seq<T>, k: int)
    requires 0 <= k < |s|
    ensures Reversed(s)[k] == s[|s| - 1 - k]
  {
    if k < |s| - 1 {
      ReversedAt(s[1..], k);
    }
  }

  /** Reversal is an involution. */
  lemma {:induction false} ReversedReversed<T>(s: seq<T>)
    ensures Reversed(Reversed(s)) == s
  {
    forall k | 0 <= k < |s|
      ensures Reversed(Reversed(s))[k] == s[k]
    {
      ReversedAt(Reversed(s), k);
      ReversedAt(s, |s| - 1 - k);
    }
  }

  /** Removing what was just inserted gives back the original. */
  lemma RemoveAtInsertAt<T>(s: seq<T>, i: int, x: T)
    requires 0 <= i <= |s|
    ensures RemoveAt(InsertAt(s, i, x), i) == s
  {
    assert RemoveAt(InsertAt(s, i, x), i) == s[..i] + s[i..];
  }

  /** Inserting at the front or the back is prepending or appending. */
  lemma InsertAtEnds<T>(s: seq<T>, x: T)
    ensures InsertAt(s, 0, x) == [x] + s
    ensures InsertAt(s, |s|, x) == s + [x]
  {
    assert s[..0] == [] && s[0..] == s;
    assert s[..|s|] == s && s[|s|..] == [];
  }

  /** Removing the front or the back is dropping the first or last element. */
  lemma RemoveAtEnds<T>(s: seq<T>)
    requires s != []
    ensures RemoveAt(s, 0) == s[1..]
    ensures RemoveAt(s, |s| - 1) == DropLast(s)
    ensures s[|s| - 1] == Last(s)
  {
  }

  /** The first occurrence never comes after the last. */
  lemma FirstBeforeLast<T>(s: seq<T>, x: T)
    ensures FirstIndexOf(s, x).IsSome() <==> LastIndexOf(s, x).IsSome()
    ensures FirstIndexOf(s, x).IsSome() ==> FirstIndexOf(s, x).value <= LastIndexOf(s, x).value
  {
  }

  /** Removing the first occurrence of x takes exactly one x out of the list. */
  lemma RemoveFirstOccurrence<T>(s: seq<T>, x: T)
    requires x in s
    ensures FirstIndexOf(s, x).IsSome()
    ensures multiset(RemoveAt(s, FirstIndexOf(s, x).value)) == multiset(s) - multiset{x}
  {
    var k := FirstIndexOf(s, x).value;
    var front, back := s[..k], s[k + 1..];
    assert s == front + [x] + back;
    assert RemoveAt(s, k) == front + back;
    calc {
      multiset(s);
      multiset(front + [x] + back);
      multiset(front) + multiset{x} + multiset(back);
    }
    assert multiset(front + back) == multiset(front) + multiset(back);
  }

  /** An index holding x with no earlier x is the first index of x. */
  lemma FirstIndexOfIs<T>(s: seq<T>, x: T, i: int)
    requires 0 <= i < |s| && s[i] == x
    requires forall j :: 0 <= j < i ==> s[j] != x
    ensures FirstIndexOf(s, x) == Some(i)
  {
  }

  /** An index holding x with no later x is the last index of x. */
  lemma LastIndexOfIs<T>(s: seq<T>, x: T, i: int)
    requires 0 <= i < |s| && s[i] == x
    requires forall j :: i < j < |s| ==> s[j] != x
    ensures LastIndexOf(s, x) == Some(i)
  {
  }
}
