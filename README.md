# stdx containers, monads and helpers in Dafny

This project models the core of `gosuda/stdx`, a Go library of generic
building blocks:

- `option` and `result`: the `Option[T]` and `Result[T, E]` types and their combinators.
- `mapx`/`maps`: maps, both a plain `map[K]V` version and a `sync.Map` version.
- `setx`/`sets`: sets, both a `map[T]struct{}` version and a `sync.Map` version.
- `listx`/`lists`: lists, deques, queues and stacks. They are backed by singly
  linked nodes, by a growable slice, or by a `map[int]T` from index to element.
- `cond`: a first-match conditional builder (`Cond`, `SwitchCond`).
- `tuple`: pairs and triples.
- `synx`: once-only values (`Once`, `OnceValue`, `OnceFunc`, `LazyValue`, ...).

The two package families mirror each other. The `x` packages (`mapx`, `setx`,
`listx`) report absence and failure with `Option`/`Result`. The plain packages
(`maps`, `sets`, `lists`) return Go's `(value, ok)` or `(value, error)` pairs.

## How the model is built

Each Go source file becomes one Dafny module, in a file named after its path:
`listx/linked/list.go` becomes `listx_linked_list.dfy` (module `ListxLinkedList`).

Every container whose Go methods update its fields is a `class` with the same
fields, and its methods carry `modifies` clauses:

- The linked list keeps real `Node` objects. A ghost `nodes` sequence and a
  `Repr` footprint describe the chain.
- The slice list keeps an `array` and a length. This is Go's backing array.
  Go's built-in `copy` is the method `ListxSlicesList.Copy`, which handles
  overlap as memmove does.
- The hash lists keep a `map<int, T>` and a `size`.

Every list, deque, queue and stack is specified by a ghost `contents`
sequence. The shared functions of `ListSpec` (`InsertAt`, `RemoveAt`,
`FirstIndexOf`, `LastIndexOf`, `Last`, `DropLast`, `Reversed`) define the
operations on that sequence.

Go's `sync.Map` is modelled by the class `GoSync.SyncMap`, as seen from
one goroutine. Each `Range` callback is the body of a loop over the order
of visit, which is left unconstrained, and a callback that returns `false` is a `break`.

Other conventions:

- A Go `error` is `Errors.Error(message)`, with the library's exact message
  texts, and a `nil` error is `None`.
- The zero value of a type parameter is passed to the constructor as `zero`.
  This applies wherever the Go code returns `var zero T`.
- A tuple component that `String()` formats is the datatype `TuplePair.Dynamic`,
  which records only the component's dynamic type: a string, or anything else.
  Go's `toString` (`tuple/pair.go:77-84`) is a type switch with exactly these two
  cases, so the model loses nothing here.

## Model

| member | source | states |
|---|---|---|
| OptionMonad.Option.IsSome | option/option.go:26-28 | true exactly for a `Some` |
| OptionMonad.Option.IsNone | option/option.go:31-33 | the negation of IsSome |
| OptionMonad.Option.Unwrap | option/option.go:37-42 | defined only on `Some` (Go panics on `None`); returns the wrapped value |
| OptionMonad.Option.UnwrapOr | option/option.go:45-50 | the wrapped value, or the default for `None` |
| OptionMonad.Option.UnwrapOrElse | option/option.go:53-58 | the wrapped value, or the fallback function's result for `None` |
| OptionMonad.Option.Filter | option/option.go:80-85 | keeps the option iff it is `Some` and its value satisfies the predicate |
| OptionMonad.Option.Or | option/option.go:88-93 | the receiver if it is `Some`, otherwise the alternative |
| OptionMonad.Option.OrElse | option/option.go:96-101 | the receiver if it is `Some`, otherwise the function's option |
| OptionMonad.Option.And | option/option.go:104-109 | `None` for `None`, otherwise the second option |
| OptionMonad.Option.ToPtr | option/option.go:172-178 | nil pointer iff `None`; otherwise points at the value |
| OptionMonad.Map | option/option.go:61-66 | `None` stays `None`; `Some(v)` becomes `Some(f(v))` |
| OptionMonad.FlatMap | option/option.go:70-75 | `None` stays `None`; `Some(v)` becomes `f(v)` |
| OptionMonad.AndThen | option/option.go:112-114 | same cases as FlatMap |
| OptionMonad.MatchReturn | option/option.go:126-131 | selects the `some` handler on the value or the `none` handler |
| OptionMonad.FromPtr | option/option.go:164-169 | `None` iff the pointer is nil, else `Some` of the target |
| OptionMonad.AndThenIsFlatMap | option/option.go:112-114 | AndThen and FlatMap agree on every input |
| OptionMonad.MapIdentity | option/option.go:61-66 | mapping the identity leaves an option unchanged |
| OptionMonad.MapComposition | option/option.go:61-66 | mapping f then g equals mapping their composition |
| OptionMonad.MapIsFlatMapOfSome | option/option.go:61-75 | Map is FlatMap with a `Some`-wrapping function |
| OptionMonad.FlatMapLeftIdentity | option/option.go:70-75 | FlatMap of `Some(v)` by f is f(v) |
| OptionMonad.FlatMapRightIdentity | option/option.go:70-75 | FlatMap by `Some` is the identity |
| OptionMonad.FlatMapAssociative | option/option.go:70-75 | chained FlatMaps associate |
| OptionMonad.FilterIdempotent | option/option.go:80-85 | filtering twice by one predicate equals filtering once |
| OptionMonad.UnwrapOrAgreesWithMatchReturn | option/option.go:45-50 | UnwrapOr is MatchReturn with identity and a constant default |
| OptionMonad.PtrRoundTrip | option/option.go:164-178 | FromPtr and ToPtr are mutually inverse |
| ResultMonad.Result.IsOk | result/result.go:30-32 | true exactly for an `Ok` |
| ResultMonad.Result.IsErr | result/result.go:35-37 | the negation of IsOk |
| ResultMonad.Result.Unwrap | result/result.go:41-46 | defined only on `Ok` (Go panics otherwise); returns the value |
| ResultMonad.Result.UnwrapErr | result/result.go:50-55 | defined only on `Err` (Go panics otherwise); returns the error |
| ResultMonad.Result.UnwrapOr | result/result.go:58-63 | the value, or the default for an `Err` |
| ResultMonad.Result.UnwrapOrElse | result/result.go:66-71 | the value, or the handler applied to the error |
| ResultMonad.Result.And | result/result.go:99-104 | an `Err` stays; an `Ok` gives the second result |
| ResultMonad.Result.Or | result/result.go:112-117 | an `Ok` stays; an `Err` gives the alternative |
| ResultMonad.Result.OrElse | result/result.go:120-125 | an `Ok` stays; an `Err` gives the handler's result on the error |
| ResultMonad.Result.OkOption | result/result.go:145-150 | `Some(value)` exactly for `Ok` |
| ResultMonad.Result.ErrOption | result/result.go:153-158 | `Some(error)` exactly for `Err` |
| ResultMonad.Map | result/result.go:74-79 | maps the value of an `Ok`, keeps an `Err` |
| ResultMonad.MapErr | result/result.go:82-87 | maps the error of an `Err`, keeps an `Ok` |
| ResultMonad.FlatMap | result/result.go:91-96 | chains on `Ok`, propagates the error of an `Err` |
| ResultMonad.AndThen | result/result.go:107-109 | same cases as FlatMap |
| ResultMonad.MatchReturn | result/result.go:137-142 | selects the `ok` or the `err` handler |
| ResultMonad.Try | result/result.go:205-210 | a non-nil error gives `Err(error)`; nil gives `Ok(value)` |
| ResultMonad.TryWith | result/result.go:213-216 | `Err` iff the function's error is non-nil, otherwise `Ok` of its value |
| ResultMonad.AndThenIsFlatMap | result/result.go:107-109 | AndThen and FlatMap agree on every input |
| ResultMonad.MapIdentity | result/result.go:74-87 | Map and MapErr by the identity change nothing |
| ResultMonad.MapComposition | result/result.go:74-79 | mapping f then g equals mapping their composition |
| ResultMonad.MapAndMapErrCommute | result/result.go:74-87 | Map and MapErr commute |
| ResultMonad.FlatMapAssociative | result/result.go:91-96 | chained FlatMaps associate |
| ResultMonad.OkErrOptionsPartition | result/result.go:145-158 | exactly one of `Ok()` and `Err()` is `Some` |
| ResultMonad.MapCommutesWithOkOption | result/result.go:74-79 | Map on the result matches Option Map on its `Ok()` |
| ResultMonad.TryRoundTrip | result/result.go:205-210 | splitting a result into (value, error) and re-joining with Try gives it back |
| MapSpec.EnumerationLength | mapx/hashmap/map.go:75-81 | a duplicate-free listing of a set has exactly the set's size |
| MapSpec.ValueListFacts | mapx/hashmap/map.go:108-114 | values listed along an enumeration of the keys: one per entry, exactly the map's values |
| MapSpec.EntryListFacts | mapx/hashmap/map.go:46-52 | entries listed along an enumeration of the keys: one per key, each stored, keys distinct |
| MapxHashMap.HashMap.constructor | mapx/hashmap/map.go:18-22 | a new map is empty |
| MapxHashMap.HashMap.Clear | mapx/hashmap/map.go:25-27 | no entries remain |
| MapxHashMap.HashMap.ContainsKey | mapx/hashmap/map.go:30-33 | true iff Get finds the key |
| MapxHashMap.HashMap.ContainsValue | mapx/hashmap/map.go:36-43 | true iff some entry holds the value |
| MapxHashMap.HashMap.Entries | mapx/hashmap/map.go:46-52 | one entry per key, each as stored |
| MapxHashMap.HashMap.Get | mapx/hashmap/map.go:62-67 | `Some` of the stored value iff the key is present |
| MapxHashMap.HashMap.IsEmpty | mapx/hashmap/map.go:70-72 | true iff size 0 iff no entries |
| MapxHashMap.HashMap.Keys | mapx/hashmap/map.go:75-81 | every key exactly once |
| MapxHashMap.HashMap.Put | mapx/hashmap/map.go:84-91 | returns the previous lookup; afterwards the key maps to the value and nothing else changes |
| MapxHashMap.HashMap.Remove | mapx/hashmap/map.go:94-100 | `Ok(old value)` or `Err("key not found")`; the key is absent afterwards |
| MapxHashMap.HashMap.Size | mapx/hashmap/map.go:103-105 | the number of keys |
| MapxHashMap.HashMap.Values | mapx/hashmap/map.go:108-114 | one value per entry, exactly the map's values |
| MapxHashMap.HashMap.TryGet | mapx/hashmap/map.go:117-122 | the same option as Get |
| MapxHashMap.HashMap.TryRemove | mapx/hashmap/map.go:125-131 | `Ok(old value)` or `Err("key not found in map")`; the key is absent afterwards |
| MapxHashMap.HashMap.FindKey | mapx/hashmap/map.go:134-141 | a key holding the value, or `None` iff no entry holds it |
| MapxHashMap.HashMap.FindEntry | mapx/hashmap/map.go:144-151 | a stored entry satisfying the predicate, or `None` iff none does |
| MapxHashMap.HashMap.Filter | mapx/hashmap/map.go:154-162 | a new map of exactly the entries satisfying the predicate |
| MapxConcurrentMap.ConcurrentMap.constructor | mapx/concurrentmap/map.go:19-21 | a new map is empty |
| MapxConcurrentMap.ConcurrentMap.Clear | mapx/concurrentmap/map.go:24-26 | no entries remain |
| MapxConcurrentMap.ConcurrentMap.ContainsKey | mapx/concurrentmap/map.go:29-32 | true iff the key is stored |
| MapxConcurrentMap.ConcurrentMap.ContainsValue | mapx/concurrentmap/map.go:35-45 | true iff some entry holds the value (the Range stops at the first hit) |
| MapxConcurrentMap.ConcurrentMap.Entries | mapx/concurrentmap/map.go:48-58 | one entry per key, each as stored |
| MapxConcurrentMap.ConcurrentMap.Get | mapx/concurrentmap/map.go:69-74 | `Some` of the stored value iff the key is present |
| MapxConcurrentMap.ConcurrentMap.IsEmpty | mapx/concurrentmap/map.go:77-84 | true iff no entries |
| MapxConcurrentMap.ConcurrentMap.Keys | mapx/concurrentmap/map.go:87-94 | every key exactly once |
| MapxConcurrentMap.ConcurrentMap.Put | mapx/concurrentmap/map.go:97-105 | the previous value if any; afterwards the key maps to the new value |
| MapxConcurrentMap.ConcurrentMap.Remove | mapx/concurrentmap/map.go:108-113 | `Ok(old value)` or `Err("key not found")`; the key is absent afterwards |
| MapxConcurrentMap.ConcurrentMap.Size | mapx/concurrentmap/map.go:116-123 | the count of Range callbacks is the number of entries |
| MapxConcurrentMap.ConcurrentMap.Values | mapx/concurrentmap/map.go:126-133 | one value per entry, exactly the map's values |
| MapxConcurrentMap.ConcurrentMap.FindKey | mapx/concurrentmap/map.go:136-146 | a key holding the value, or `None` iff no entry holds it |
| MapxConcurrentMap.ConcurrentMap.FindEntry | mapx/concurrentmap/map.go:149-161 | a stored entry satisfying the predicate, or `None` iff none does |
| MapxConcurrentMap.ConcurrentMap.Filter | mapx/concurrentmap/map.go:164-175 | a new map of exactly the entries satisfying the predicate |
| MapsHashMap.HashMap.constructor | maps/hashmap/map.go:15-19 | a new map is empty |
| MapsHashMap.HashMap.Clear | maps/hashmap/map.go:22-24 | no entries remain |
| MapsHashMap.HashMap.ContainsKey | maps/hashmap/map.go:27-30 | the `ok` flag of Get |
| MapsHashMap.HashMap.ContainsValue | maps/hashmap/map.go:33-40 | true iff some entry holds the value |
| MapsHashMap.HashMap.Entries | maps/hashmap/map.go:43-49 | one entry per key, each as stored |
| MapsHashMap.HashMap.Get | maps/hashmap/map.go:59-62 | `(stored value, true)` for a present key, `(zero, false)` otherwise |
| MapsHashMap.HashMap.IsEmpty | maps/hashmap/map.go:65-67 | true iff no entries |
| MapsHashMap.HashMap.Keys | maps/hashmap/map.go:70-76 | every key exactly once |
| MapsHashMap.HashMap.Put | maps/hashmap/map.go:79-83 | returns the previous `(value, ok)` lookup; the key then maps to the value |
| MapsHashMap.HashMap.Remove | maps/hashmap/map.go:86-92 | returns the previous `(value, ok)` lookup; the key is then absent |
| MapsHashMap.HashMap.Size | maps/hashmap/map.go:95-97 | the number of keys |
| MapsHashMap.HashMap.Values | maps/hashmap/map.go:100-106 | one value per entry, exactly the map's values |
| MapsConcurrentMap.ConcurrentMap.constructor | maps/concurrentmap/map.go:16-18 | a new map is empty |
| MapsConcurrentMap.ConcurrentMap.Clear | maps/concurrentmap/map.go:21-23 | no entries remain |
| MapsConcurrentMap.ConcurrentMap.ContainsKey | maps/concurrentmap/map.go:26-29 | true iff the key is stored |
| MapsConcurrentMap.ConcurrentMap.ContainsValue | maps/concurrentmap/map.go:32-42 | true iff some entry holds the value |
| MapsConcurrentMap.ConcurrentMap.Entries | maps/concurrentmap/map.go:45-55 | one entry per key, each as stored |
| MapsConcurrentMap.ConcurrentMap.Get | maps/concurrentmap/map.go:66-72 | `(stored value, true)` for a present key, `(zero, false)` otherwise |
| MapsConcurrentMap.ConcurrentMap.IsEmpty | maps/concurrentmap/map.go:75-82 | true iff no entries |
| MapsConcurrentMap.ConcurrentMap.Keys | maps/concurrentmap/map.go:85-92 | every key exactly once |
| MapsConcurrentMap.ConcurrentMap.Put | maps/concurrentmap/map.go:95-103 | `(old value, true)` or `(zero, false)`; the key then maps to the value |
| MapsConcurrentMap.ConcurrentMap.Remove | maps/concurrentmap/map.go:106-113 | `(old value, true)` or `(zero, false)`; the key is then absent |
| MapsConcurrentMap.ConcurrentMap.Size | maps/concurrentmap/map.go:116-123 | the number of entries |
| MapsConcurrentMap.ConcurrentMap.Values | maps/concurrentmap/map.go:126-133 | one value per entry, exactly the map's values |
| SetxHashSet.HashSet.constructor | setx/hashset/set.go:11-15 | a new set is empty |
| SetxHashSet.HashSet.Add | setx/hashset/set.go:18-24 | true iff the element was new; it is a member afterwards |
| SetxHashSet.HashSet.Clear | setx/hashset/set.go:27-29 | no members remain |
| SetxHashSet.HashSet.Contains | setx/hashset/set.go:32-35 | membership |
| SetxHashSet.HashSet.Difference | setx/hashset/set.go:38-46 | a new set: this minus other |
| SetxHashSet.HashSet.Intersection | setx/hashset/set.go:49-57 | a new set: this intersected with other |
| SetxHashSet.HashSet.IsEmpty | setx/hashset/set.go:60-62 | true iff no members |
| SetxHashSet.HashSet.IsSubsetOf | setx/hashset/set.go:65-72 | true iff every member is in other |
| SetxHashSet.HashSet.IsSupersetOf | setx/hashset/set.go:75-77 | true iff every member of other is in this set |
| SetxHashSet.HashSet.Remove | setx/hashset/set.go:80-86 | true iff the element was a member; it is absent afterwards |
| SetxHashSet.HashSet.Size | setx/hashset/set.go:89-91 | the number of members |
| SetxHashSet.HashSet.ToSlice | setx/hashset/set.go:94-100 | every member exactly once |
| SetxHashSet.HashSet.Union | setx/hashset/set.go:110-121 | a new set: this united with other |
| SetsHashSet.HashSet.constructor | sets/hashset/set.go:11-15 | a new set is empty |
| SetsHashSet.HashSet.Add | sets/hashset/set.go:18-24 | true iff the element was new; it is a member afterwards |
| SetsHashSet.HashSet.Clear | sets/hashset/set.go:27-29 | no members remain |
| SetsHashSet.HashSet.Contains | sets/hashset/set.go:32-35 | membership |
| SetsHashSet.HashSet.Difference | sets/hashset/set.go:38-46 | a new set: this minus other |
| SetsHashSet.HashSet.Intersection | sets/hashset/set.go:49-57 | a new set: this intersected with other |
| SetsHashSet.HashSet.IsEmpty | sets/hashset/set.go:60-62 | true iff no members |
| SetsHashSet.HashSet.IsSubsetOf | sets/hashset/set.go:65-72 | true iff every member is in other |
| SetsHashSet.HashSet.IsSupersetOf | sets/hashset/set.go:75-77 | true iff every member of other is in this set |
| SetsHashSet.HashSet.Remove | sets/hashset/set.go:80-86 | true iff the element was a member; it is absent afterwards |
| SetsHashSet.HashSet.Size | sets/hashset/set.go:89-91 | the number of members |
| SetsHashSet.HashSet.ToSlice | sets/hashset/set.go:94-100 | every member exactly once |
| SetsHashSet.HashSet.Union | sets/hashset/set.go:110-121 | a new set: this united with other |
| SetxConcurrentSet.ConcurrentSet.constructor | setx/concurrentset/set.go:18-20 | a new set is empty |
| SetxConcurrentSet.ConcurrentSet.Add | setx/concurrentset/set.go:23-26 | true iff LoadOrStore found nothing, i.e. the element was new |
| SetxConcurrentSet.ConcurrentSet.Clear | setx/concurrentset/set.go:29-31 | no members remain |
| SetxConcurrentSet.ConcurrentSet.Contains | setx/concurrentset/set.go:34-37 | membership |
| SetxConcurrentSet.ConcurrentSet.Difference | setx/concurrentset/set.go:40-50 | a new set: this minus other |
| SetxConcurrentSet.ConcurrentSet.Intersection | setx/concurrentset/set.go:61-71 | a new set: this intersected with other |
| SetxConcurrentSet.ConcurrentSet.IsEmpty | setx/concurrentset/set.go:74-81 | true iff no members |
| SetxConcurrentSet.ConcurrentSet.IsSubsetOf | setx/concurrentset/set.go:84-95 | true iff every member is in other |
| SetxConcurrentSet.ConcurrentSet.IsSupersetOf | setx/concurrentset/set.go:98-100 | true iff every member of other is in this set |
| SetxConcurrentSet.ConcurrentSet.Remove | setx/concurrentset/set.go:103-106 | true iff the element was a member; it is absent afterwards |
| SetxConcurrentSet.ConcurrentSet.Size | setx/concurrentset/set.go:109-116 | the number of members |
| SetxConcurrentSet.ConcurrentSet.ToSlice | setx/concurrentset/set.go:119-126 | every member exactly once |
| SetxConcurrentSet.ConcurrentSet.Union | setx/concurrentset/set.go:129-141 | a new set: this united with other |
| SetxConcurrentSet.ConcurrentSet.Find | setx/concurrentset/set.go:144-155 | a member satisfying the predicate, or `None` iff none does |
| SetxConcurrentSet.ConcurrentSet.GetAny | setx/concurrentset/set.go:158-165 | some member, or `None` iff the set is empty |
| SetxConcurrentSet.ConcurrentSet.TryRemove | setx/concurrentset/set.go:168-173 | `Ok(element)` if it was a member, else `Err("element not found in set")`; absent afterwards |
| SetxConcurrentSet.ConcurrentSet.Filter | setx/concurrentset/set.go:176-186 | a new set of exactly the members satisfying the predicate |
| SetsConcurrentSet.ConcurrentSet.constructor | sets/concurrentset/set.go:15-17 | a new set is empty |
| SetsConcurrentSet.ConcurrentSet.Add | sets/concurrentset/set.go:20-23 | true iff the element was new; it is a member afterwards |
| SetsConcurrentSet.ConcurrentSet.Clear | sets/concurrentset/set.go:26-28 | no members remain |
| SetsConcurrentSet.ConcurrentSet.Contains | sets/concurrentset/set.go:31-34 | membership |
| SetsConcurrentSet.ConcurrentSet.Difference | sets/concurrentset/set.go:37-47 | a new set: this minus other |
| SetsConcurrentSet.ConcurrentSet.Intersection | sets/concurrentset/set.go:58-68 | a new set: this intersected with other |
| SetsConcurrentSet.ConcurrentSet.IsEmpty | sets/concurrentset/set.go:71-78 | true iff no members |
| SetsConcurrentSet.ConcurrentSet.IsSubsetOf | sets/concurrentset/set.go:81-92 | true iff every member is in other |
| SetsConcurrentSet.ConcurrentSet.IsSupersetOf | sets/concurrentset/set.go:95-97 | true iff every member of other is in this set |
| SetsConcurrentSet.ConcurrentSet.Remove | sets/concurrentset/set.go:100-103 | true iff the element was a member; it is absent afterwards |
| SetsConcurrentSet.ConcurrentSet.Size | sets/concurrentset/set.go:106-113 | the number of members |
| SetsConcurrentSet.ConcurrentSet.ToSlice | sets/concurrentset/set.go:116-123 | every member exactly once |
| SetsConcurrentSet.ConcurrentSet.Union | sets/concurrentset/set.go:126-138 | a new set: this united with other |
| ListSpec.InsertAt | listx/list.go:8-9 | the inserted element lands at the index; the elements before it keep their places and the ones after shift up by one |
| ListSpec.RemoveAt | listx/list.go:17-18 | the element at the index is gone; the elements before it keep their places and the ones after shift down by one |
| ListSpec.FirstIndexOf | listx/linked/list.go:155-164 | the smallest index holding the element, `None` iff it does not occur |
| ListSpec.LastIndexOf | listx/linked/list.go:167-180 | the largest index holding the element, `None` iff it does not occur |
| ListSpec.ReversedAt | listx/slices/stack.go:62-70 | element k of the reversal is element length-1-k of the original |
| ListSpec.ReversedReversed | listx/slices/stack.go:62-70 | reversing twice gives back the original |
| ListSpec.RemoveAtInsertAt | listx/linked/list.go:47-121 | removing at the index just inserted at restores the list |
| ListSpec.InsertAtEnds | listx/linked/deque.go:26-33 | insertion at 0 and at the length are prepend and append |
| ListSpec.RemoveAtEnds | listx/linked/deque.go:36-49 | removal at 0 and at the last index drop the front and the back |
| ListSpec.FirstBeforeLast | listx/linked/list.go:155-180 | IndexOf and LastIndexOf agree on presence, and the first index is at most the last |
| ListSpec.RemoveFirstOccurrence | listx/linked/list.go:124-152 | RemoveElement takes exactly one copy of the element out of the multiset |
| ListxLinkedList.LinkedList.constructor | listx/linked/list.go:28-30 | a new list is empty |
| ListxLinkedList.LinkedList.Add | listx/linked/list.go:33-44 | appends the element at the tail |
| ListxLinkedList.LinkedList.Insert | listx/linked/list.go:47-73 | in range 0..size position the element lands at the index; otherwise `"index out of bounds"` and no change |
| ListxLinkedList.LinkedList.LinkFirst | listx/linked/list.go:59-64 | a new head node prepends the element |
| ListxLinkedList.LinkedList.LinkAfter | listx/linked/list.go:66-68 | a node spliced after node index-1 inserts the element at index |
| ListxLinkedList.LinkedList.Get | listx/linked/list.go:76-83 | `Some` of the element at an in-range index, `None` otherwise |
| ListxLinkedList.LinkedList.Set | listx/linked/list.go:86-94 | replaces the element at an in-range index; otherwise `"index out of bounds"` and no change |
| ListxLinkedList.LinkedList.Remove | listx/linked/list.go:97-121 | `Ok(element)` and the element is removed at an in-range index; otherwise `Err("index out of bounds")` and no change |
| ListxLinkedList.LinkedList.UnlinkHead | listx/linked/list.go:104-109 | unlinking the head drops the first element and returns it |
| ListxLinkedList.LinkedList.UnlinkNext | listx/linked/list.go:111-116 | bypassing node k removes element k and returns it |
| ListxLinkedList.LinkedList.RemoveElement | listx/linked/list.go:124-152 | true iff the element occurs; then its first occurrence is removed, otherwise nothing changes |
| ListxLinkedList.LinkedList.IndexOf | listx/linked/list.go:155-164 | the first index of the element, `None` iff absent |
| ListxLinkedList.LinkedList.LastIndexOf | listx/linked/list.go:167-180 | the last index of the element, `None` iff absent |
| ListxLinkedList.LinkedList.Contains | listx/linked/list.go:183-185 | membership |
| ListxLinkedList.LinkedList.Size | listx/linked/list.go:188-190 | the number of elements |
| ListxLinkedList.LinkedList.IsEmpty | listx/linked/list.go:193-195 | true iff no elements |
| ListxLinkedList.LinkedList.Clear | listx/linked/list.go:198-202 | no elements remain |
| ListxLinkedList.LinkedList.ToSlice | listx/linked/list.go:205-213 | the elements in order from the head |
| ListxLinkedList.LinkedList.GetNodeAt | listx/linked/list.go:225-231 | walking index links from the head reaches node index |
| ListxSlicesList.Copy | listx/slices/list.go:46-80 | Go's `copy` within one array: the target range receives the old source range, and everything else keeps its value, even when the ranges overlap |
| ListxSlicesList.SliceList.constructor | listx/slices/list.go:20-24 | a new list is empty |
| ListxSlicesList.SliceList.Append | listx/slices/list.go:27-29 | Go's `append`: the element joins the back of the slice, and the backing array grows when it is full |
| ListxSlicesList.SliceList.Add | listx/slices/list.go:27-29 | appends the element at the back |
| ListxSlicesList.SliceList.Insert | listx/slices/list.go:32-52 | in range 0..length position the element lands at the index; otherwise `"index out of bounds"` and no change |
| ListxSlicesList.SliceList.ShiftIn | listx/slices/list.go:46-47 | the copy one slot right followed by the store puts the element at the index |
| ListxSlicesList.SliceList.Get | listx/slices/list.go:55-60 | `Some` of the element at an in-range index, `None` otherwise |
| ListxSlicesList.SliceList.Set | listx/slices/list.go:63-69 | replaces the element at an in-range index; otherwise `"index out of bounds"` and no change |
| ListxSlicesList.SliceList.Remove | listx/slices/list.go:72-86 | `Ok(element)` and the element is removed at an in-range index; otherwise `Err("index out of bounds")` and no change |
| ListxSlicesList.SliceList.RemoveElement | listx/slices/list.go:89-97 | true iff the element occurs; then its first occurrence is removed |
| ListxSlicesList.SliceList.IndexOf | listx/slices/list.go:100-107 | the first index of the element, `None` iff absent |
| ListxSlicesList.SliceList.LastIndexOf | listx/slices/list.go:110-121 | the last index of the element, `None` iff absent |
| ListxSlicesList.SliceList.Contains | listx/slices/list.go:124-126 | membership |
| ListxSlicesList.SliceList.Size | listx/slices/list.go:129-131 | the number of elements |
| ListxSlicesList.SliceList.IsEmpty | listx/slices/list.go:134-136 | true iff no elements |
| ListxSlicesList.SliceList.Clear | listx/slices/list.go:139-141 | no elements remain |
| ListxSlicesList.SliceList.ToSlice | listx/slices/list.go:144-149 | the elements in order |
| ListxHashList.HashList.constructor | listx/hash/list.go:21-26 | a new list is empty |
| ListxHashList.HashList.Add | listx/hash/list.go:29-32 | stores the element under index size, which appends it |
| ListxHashList.HashList.Insert | listx/hash/list.go:35-53 | in range 0..size position the element lands at the index; otherwise `"index out of bounds"` and no change |
| ListxHashList.HashList.ShiftRight | listx/hash/list.go:46-48 | after the downward loop, keys 0..size are present and every element from the index on sits one key higher |
| ListxHashList.HashList.Get | listx/hash/list.go:56-67 | `Some` of the element at an in-range index, `None` otherwise |
| ListxHashList.HashList.Set | listx/hash/list.go:70-77 | replaces the element at an in-range index; otherwise `"index out of bounds"` and no change |
| ListxHashList.HashList.Remove | listx/hash/list.go:80-97 | `Ok(element)` and the element is removed at an in-range index; otherwise `Err("index out of bounds")` and no change |
| ListxHashList.HashList.ShiftLeft | listx/hash/list.go:88-90 | after the upward loop, every element after the index sits one key lower |
| ListxHashList.HashList.RemoveElement | listx/hash/list.go:100-108 | true iff the element occurs; then its first occurrence is removed |
| ListxHashList.HashList.IndexOf | listx/hash/list.go:111-118 | the first index of the element, `None` iff absent |
| ListxHashList.HashList.LastIndexOf | listx/hash/list.go:121-132 | the last index of the element, `None` iff absent |
| ListxHashList.HashList.Contains | listx/hash/list.go:135-137 | membership |
| ListxHashList.HashList.Size | listx/hash/list.go:140-142 | the number of elements |
| ListxHashList.HashList.IsEmpty | listx/hash/list.go:145-147 | true iff no elements |
| ListxHashList.HashList.Clear | listx/hash/list.go:150-153 | no elements remain |
| ListxHashList.HashList.ToSlice | listx/hash/list.go:156-164 | the elements in index order |
| ListsHashList.HashList.constructor | lists/hash/list.go:19-24 | a new list is empty |
| ListsHashList.HashList.Add | lists/hash/list.go:27-30 | appends the element |
| ListsHashList.HashList.Insert | lists/hash/list.go:33-51 | in range 0..size position the element lands at the index; otherwise `"index out of bounds"` and no change |
| ListsHashList.HashList.ShiftRight | lists/hash/list.go:44-46 | after the downward loop every element from the index on sits one key higher |
| ListsHashList.HashList.Get | lists/hash/list.go:54-66 | `(element, nil)` at an in-range index, otherwise `(zero, "index out of bounds")` |
| ListsHashList.HashList.Set | lists/hash/list.go:69-76 | replaces the element at an in-range index; otherwise `"index out of bounds"` and no change |
| ListsHashList.HashList.Remove | lists/hash/list.go:79-97 | `(element, nil)` and the element is removed at an in-range index; otherwise `(zero, "index out of bounds")` and no change |
| ListsHashList.HashList.ShiftLeft | lists/hash/list.go:88-90 | after the upward loop every element after the index sits one key lower |
| ListsHashList.HashList.RemoveElement | lists/hash/list.go:100-108 | true iff the element occurs; then its first occurrence is removed |
| ListsHashList.HashList.IndexOf | lists/hash/list.go:111-118 | the first index of the element, -1 iff absent |
| ListsHashList.HashList.LastIndexOf | lists/hash/list.go:121-129 | the last index of the element, -1 iff absent |
| ListsHashList.HashList.Contains | lists/hash/list.go:132-134 | membership |
| ListsHashList.HashList.Size | lists/hash/list.go:137-139 | the number of elements |
| ListsHashList.HashList.IsEmpty | lists/hash/list.go:142-144 | true iff no elements |
| ListsHashList.HashList.Clear | lists/hash/list.go:147-150 | no elements remain |
| ListsHashList.HashList.ToSlice | lists/hash/list.go:153-161 | the elements in index order |
| ListxLinkedDeque.LinkedDeque.constructor | listx/linked/deque.go:19-23 | a new deque is empty |
| ListxLinkedDeque.LinkedDeque.AddFirst | listx/linked/deque.go:26-28 | prepends the element |
| ListxLinkedDeque.LinkedDeque.AddLast | listx/linked/deque.go:31-33 | appends the element |
| ListxLinkedDeque.LinkedDeque.RemoveFirst | listx/linked/deque.go:36-41 | `Err("deque is empty")` when empty, else `Ok(front)` and the front is dropped |
| ListxLinkedDeque.LinkedDeque.RemoveLast | listx/linked/deque.go:44-49 | `Err("deque is empty")` when empty, else `Ok(back)` and the back is dropped |
| ListxLinkedDeque.LinkedDeque.PeekFirst | listx/linked/deque.go:52-57 | `Some(front)`, or `None` iff empty |
| ListxLinkedDeque.LinkedDeque.PeekLast | listx/linked/deque.go:60-65 | `Some(back)`, or `None` iff empty |
| ListxSlicesDeque.SliceDeque.constructor | listx/slices/deque.go:19-23 | a new deque is empty |
| ListxSlicesDeque.SliceDeque.AddFirst | listx/slices/deque.go:26-28 | prepends the element |
| ListxSlicesDeque.SliceDeque.AddLast | listx/slices/deque.go:31-33 | appends the element |
| ListxSlicesDeque.SliceDeque.RemoveFirst | listx/slices/deque.go:36-41 | `Err("deque is empty")` when empty, else `Ok(front)` and the front is dropped |
| ListxSlicesDeque.SliceDeque.RemoveLast | listx/slices/deque.go:44-49 | `Err("deque is empty")` when empty, else `Ok(back)` and the back is dropped |
| ListxSlicesDeque.SliceDeque.PeekFirst | listx/slices/deque.go:52-57 | `Some(front)`, or `None` iff empty |
| ListxSlicesDeque.SliceDeque.PeekLast | listx/slices/deque.go:60-65 | `Some(back)`, or `None` iff empty |
| ListxHashDeque.HashDeque.constructor | listx/hash/deque.go:19-23 | a new deque is empty |
| ListxHashDeque.HashDeque.AddFirst | listx/hash/deque.go:26-28 | prepends the element |
| ListxHashDeque.HashDeque.AddLast | listx/hash/deque.go:31-33 | appends the element |
| ListxHashDeque.HashDeque.RemoveFirst | listx/hash/deque.go:36-41 | `Err("deque is empty")` when empty, else `Ok(front)` and the front is dropped |
| ListxHashDeque.HashDeque.RemoveLast | listx/hash/deque.go:44-49 | `Err("deque is empty")` when empty, else `Ok(back)` and the back is dropped |
| ListxHashDeque.HashDeque.PeekFirst | listx/hash/deque.go:52-57 | `Some(front)`, or `None` iff empty |
| ListxHashDeque.HashDeque.PeekLast | listx/hash/deque.go:60-65 | `Some(back)`, or `None` iff empty |
| ListsHashDeque.HashDeque.constructor | lists/hash/deque.go:17-21 | a new deque is empty |
| ListsHashDeque.HashDeque.AddFirst | lists/hash/deque.go:24-26 | prepends the element |
| ListsHashDeque.HashDeque.AddLast | lists/hash/deque.go:29-31 | appends the element |
| ListsHashDeque.HashDeque.RemoveFirst | lists/hash/deque.go:34-40 | `(zero, "deque is empty")` when empty, else `(front, nil)` and the front is dropped |
| ListsHashDeque.HashDeque.RemoveLast | lists/hash/deque.go:43-49 | `(zero, "deque is empty")` when empty, else `(back, nil)` and the back is dropped |
| ListsHashDeque.HashDeque.PeekFirst | lists/hash/deque.go:52-58 | `(front, nil)`, or `(zero, "deque is empty")` |
| ListsHashDeque.HashDeque.PeekLast | lists/hash/deque.go:61-67 | `(back, nil)`, or `(zero, "deque is empty")` |
| ListxLinkedQueue.LinkedQueue.constructor | listx/linked/queue.go:17-21 | a new queue is empty |
| ListxLinkedQueue.LinkedQueue.Enqueue | listx/linked/queue.go:24-26 | appends at the back |
| ListxLinkedQueue.LinkedQueue.Dequeue | listx/linked/queue.go:29-35 | `Err("queue is empty")` when empty, else `Ok(front)` and the front is dropped (FIFO) |
| ListxLinkedQueue.LinkedQueue.Peek | listx/linked/queue.go:38-44 | `Some(front)`, or `None` iff empty |
| ListxLinkedQueue.LinkedQueue.Size | listx/linked/queue.go:47-49 | the number of elements |
| ListxLinkedQueue.LinkedQueue.IsEmpty | listx/linked/queue.go:52-54 | true iff no elements |
| ListxLinkedQueue.LinkedQueue.Clear | listx/linked/queue.go:57-59 | no elements remain |
| ListxLinkedQueue.LinkedQueue.ToSlice | listx/linked/queue.go:62-64 | the elements from front to back |
| ListxSlicesQueue.SliceQueue.constructor | listx/slices/queue.go:17-21 | a new queue is empty |
| ListxSlicesQueue.SliceQueue.Enqueue | listx/slices/queue.go:24-26 | appends at the back |
| ListxSlicesQueue.SliceQueue.Dequeue | listx/slices/queue.go:29-35 | `Err("queue is empty")` when empty, else `Ok(front)` and the front is dropped (FIFO) |
| ListxSlicesQueue.SliceQueue.Peek | listx/slices/queue.go:38-44 | `Some(front)`, or `None` iff empty |
| ListxSlicesQueue.SliceQueue.Size | listx/slices/queue.go:47-49 | the number of elements |
| ListxSlicesQueue.SliceQueue.IsEmpty | listx/slices/queue.go:52-54 | true iff no elements |
| ListxSlicesQueue.SliceQueue.Clear | listx/slices/queue.go:57-59 | no elements remain |
| ListxSlicesQueue.SliceQueue.ToSlice | listx/slices/queue.go:62-64 | the elements from front to back |
| ListxHashQueue.HashQueue.constructor | listx/hash/queue.go:17-21 | a new queue is empty |
| ListxHashQueue.HashQueue.Enqueue | listx/hash/queue.go:24-26 | appends at the back |
| ListxHashQueue.HashQueue.Dequeue | listx/hash/queue.go:29-35 | `Err("queue is empty")` when empty, else `Ok(front)` and the front is dropped (FIFO) |
| ListxHashQueue.HashQueue.Peek | listx/hash/queue.go:38-44 | `Some(front)`, or `None` iff empty |
| ListxHashQueue.HashQueue.Size | listx/hash/queue.go:47-49 | the number of elements |
| ListxHashQueue.HashQueue.IsEmpty | listx/hash/queue.go:52-54 | true iff no elements |
| ListxHashQueue.HashQueue.Clear | listx/hash/queue.go:57-59 | no elements remain |
| ListxHashQueue.HashQueue.ToSlice | listx/hash/queue.go:62-64 | the elements from front to back |
| ListxSlicesStack.SliceStack.constructor | listx/slices/stack.go:17-21 | a new stack is empty |
| ListxSlicesStack.SliceStack.Push | listx/slices/stack.go:24-26 | puts the element on top |
| ListxSlicesStack.SliceStack.Pop | listx/slices/stack.go:29-35 | `Err("stack is empty")` when empty, else `Ok(top)` and the top is dropped (LIFO) |
| ListxSlicesStack.SliceStack.Peek | listx/slices/stack.go:38-44 | `Some(top)`, or `None` iff empty |
| ListxSlicesStack.SliceStack.Size | listx/slices/stack.go:47-49 | the number of elements |
| ListxSlicesStack.SliceStack.IsEmpty | listx/slices/stack.go:52-54 | true iff no elements |
| ListxSlicesStack.SliceStack.Clear | listx/slices/stack.go:57-59 | no elements remain |
| ListxSlicesStack.SliceStack.ToSlice | listx/slices/stack.go:62-70 | the elements from top to bottom, the reversal of the push order |
| ListxHashStack.HashStack.constructor | listx/hash/stack.go:19-23 | a new stack is empty |
| ListxHashStack.HashStack.Push | listx/hash/stack.go:26-28 | puts the element on top |
| ListxHashStack.HashStack.Pop | listx/hash/stack.go:31-36 | `Err("stack is empty")` when empty, else `Ok(top)` and the top is dropped (LIFO) |
| ListxHashStack.HashStack.Peek | listx/hash/stack.go:39-44 | `Some(top)`, or `None` iff empty |
| ListxHashStack.HashStack.Size | listx/hash/stack.go:47-49 | the number of elements |
| ListxHashStack.HashStack.IsEmpty | listx/hash/stack.go:52-54 | true iff no elements |
| ListxHashStack.HashStack.Clear | listx/hash/stack.go:57-59 | no elements remain |
| ListxHashStack.HashStack.ToSlice | listx/hash/stack.go:62-70 | the elements from top to bottom, the reversal of the push order |
| CondClauses.FirstWhere | cond/cond.go:84-92 | the first index whose item satisfies the predicate, `None` iff none does (first-match semantics) |
| CondClauses.FirstMatch | cond/cond.go:84-92 | the first clause whose condition holds, `None` iff none holds |
| CondClauses.FirstWhereAppend | cond/cond.go:48-51 | appending a clause keeps an earlier match, and otherwise the new clause is tried last |
| CondClauses.FirstWhereAgree | cond/cond.go:146-150 | sequences whose items are pointwise equally satisfied have the same first match |
| CondClauses.NewClause | cond/cond.go:10-15 | the clause carries the given condition and result |
| CondClauses.When | cond/cond.go:18-20 | the clause carries the given condition and lazy result |
| CondClauses.WhenValue | cond/cond.go:23-25 | the clause's result yields the given value |
| CondClauses.WhenTrue | cond/cond.go:28-30 | the clause always matches and yields the result |
| CondClauses.WhenTrueValue | cond/cond.go:33-35 | the clause always matches and yields the value |
| CondClauses.Unless | cond/cond.go:192-194 | the clause matches iff the condition is false |
| CondClauses.UnlessValue | cond/cond.go:197-199 | the clause matches iff the condition is false and yields the value |
| CondClauses.Guard | cond/cond.go:184-189 | the clause matches iff the condition holds and yields the unit value |
| CondEval.Cond.constructor | cond/cond.go:43-45 | a new Cond has no clauses |
| CondEval.Cond.Add | cond/cond.go:48-51 | appends the clause and returns the receiver |
| CondEval.Cond.When | cond/cond.go:54-56 | appends a When clause |
| CondEval.Cond.WhenValue | cond/cond.go:59-61 | appends a WhenValue clause |
| CondEval.Cond.Else | cond/cond.go:64-66 | appends an always-true clause; afterwards some clause always matches, and it is the earlier match if there was one |
| CondEval.Cond.ElseValue | cond/cond.go:69-71 | as Else, with an immediate value |
| CondEval.Cond.Unless | cond/cond.go:74-76 | appends an Unless clause |
| CondEval.Cond.UnlessValue | cond/cond.go:79-81 | appends an UnlessValue clause |
| CondEval.Cond.Eval | cond/cond.go:84-92 | `(result of the first matching clause, true)`, or `(zero, false)` iff no clause matches |
| CondEval.Cond.MustEval | cond/cond.go:95-101 | demands a matching clause (Go panics otherwise) and returns the first match's result |
| CondEval.Cond.EvalOr | cond/cond.go:104-110 | the first match's result, or the default iff none matches |
| CondEval.CondFunc | cond/cond.go:113-119 | evaluating a list of clauses equals Eval on a Cond built from them |
| CondEval.MustCondFunc | cond/cond.go:122-128 | demands a matching clause and returns the first match's result |
| CondEval.SwitchCond.constructor | cond/cond.go:131-137 | a new switch over the value has no arms |
| CondEval.SwitchCond.Case | cond/cond.go:147-150 | appends an arm that matches iff `equal(value, caseValue)` |
| CondEval.SwitchCond.CaseValue | cond/cond.go:153-155 | appends a case arm yielding the given value |
| CondEval.SwitchCond.Default | cond/cond.go:158-161 | appends an arm that always matches |
| CondEval.SwitchCond.DefaultValue | cond/cond.go:164-166 | appends a default arm yielding the given value |
| CondEval.SwitchCond.Eval | cond/cond.go:169-171 | the first arm whose case equals the value (or a default) gives the result with true; otherwise `(zero, false)` |
| CondEval.SwitchCond.MustEval | cond/cond.go:174-176 | demands a matching arm and returns the first one's result |
| CondEval.SwitchCond.EvalOr | cond/cond.go:179-181 | the first matching arm's result, or the default |
| TuplePair.Pair.First | tuple/pair.go:15-17 | the first component |
| TuplePair.Pair.Second | tuple/pair.go:20-22 | the second component |
| TuplePair.Pair.Map | tuple/pair.go:25-28 | the components are those produced by f from the old ones |
| TuplePair.Pair.Swap | tuple/pair.go:41-43 | the components exchanged |
| TuplePair.Pair.Equal | tuple/pair.go:67-69 | both components equal under the given equalities |
| TuplePair.NewPair | tuple/pair.go:10-12 | a pair of the two arguments |
| TuplePair.MapFirst | tuple/pair.go:31-33 | f applied to the first component, the second kept |
| TuplePair.MapSecond | tuple/pair.go:36-38 | f applied to the second component, the first kept |
| TuplePair.Apply | tuple/pair.go:46-48 | f applied to both components |
| TuplePair.ToString | tuple/pair.go:77-84 | a string value prints as itself, anything else as the empty string |
| TuplePair.String | tuple/pair.go:72-74 | `(a, b)`: the length, the opening parenthesis, the first component's text, the separator `", "`, the second component's text and the closing parenthesis, each at its offset |
| TuplePair.SwapSwap | tuple/pair.go:41-43 | swapping twice is the identity |
| TuplePair.CurryApplies | tuple/pair.go:51-57 | the curried function applied in turn to t and u is f(t, u) |
| TuplePair.UncurryApplies | tuple/pair.go:60-64 | the uncurried function on a pair applies g to its components in turn |
| TuplePair.UncurryCurry | tuple/pair.go:51-64 | Uncurry after Curry is Apply |
| TuplePair.CurryUncurry | tuple/pair.go:51-64 | Curry after Uncurry gives back the curried function |
| TuplePair.MapIdentity | tuple/pair.go:25-28 | Map by the identity leaves the pair unchanged |
| TuplePair.EqualReflexive | tuple/pair.go:67-69 | Equal is reflexive when the component equalities are |
| TupleTriple.Triple.First | tuple/tripple.go:16-18 | the first component |
| TupleTriple.Triple.Second | tuple/tripple.go:21-23 | the second component |
| TupleTriple.Triple.Third | tuple/tripple.go:26-28 | the third component |
| TupleTriple.Triple.Map | tuple/tripple.go:31-34 | the components are those produced by f from the old ones |
| TupleTriple.Triple.ToPair | tuple/tripple.go:57-59 | the first two components as a pair |
| TupleTriple.Triple.RotateLeft | tuple/tripple.go:67-69 | (a, b, c) becomes (b, c, a) |
| TupleTriple.Triple.RotateRight | tuple/tripple.go:72-74 | (a, b, c) becomes (c, a, b) |
| TupleTriple.Triple.Equal | tuple/tripple.go:95-97 | all three components equal under the given equalities |
| TupleTriple.NewTriple | tuple/tripple.go:11-13 | a triple of the three arguments |
| TupleTriple.MapFirstTriple | tuple/tripple.go:37-39 | f applied to the first component, the rest kept |
| TupleTriple.MapSecondTriple | tuple/tripple.go:42-44 | f applied to the second component, the rest kept |
| TupleTriple.MapThirdTriple | tuple/tripple.go:47-49 | f applied to the third component, the rest kept |
| TupleTriple.ApplyTriple | tuple/tripple.go:52-54 | f applied to all three components |
| TupleTriple.FromPair | tuple/tripple.go:62-64 | the pair's components followed by the third value |
| TupleTriple.String | tuple/tripple.go:100-102 | `(a, b, c)`: the length, the opening parenthesis, the first, second and third components' texts with a `", "` separator between each two, and the closing parenthesis, each at its offset |
| TupleTriple.RotateInverse | tuple/tripple.go:67-74 | RotateLeft and RotateRight undo each other |
| TupleTriple.RotateThrice | tuple/tripple.go:67-74 | three rotations in one direction are the identity |
| TupleTriple.FromPairToPair | tuple/tripple.go:57-64 | a triple rebuilt from its pair and third component is unchanged |
| TupleTriple.ToPairFromPair | tuple/tripple.go:57-64 | the pair of a triple built from a pair is that pair |
| TupleTriple.CurryTripleApplies | tuple/tripple.go:77-85 | the curried function applied in turn to t, u, v is f(t, u, v) |
| TupleTriple.UncurryTripleApplies | tuple/tripple.go:88-92 | the uncurried function on a triple applies g to its components in turn |
| TupleTriple.UncurryCurryTriple | tuple/tripple.go:77-92 | UncurryTriple after CurryTriple is ApplyTriple |
| SynxOnce.Once.constructor | synx/once.go:8-13 | the zero Once has not run and holds the zero value and no error |
| SynxOnce.Once.Do | synx/once.go:17-22 | the first call runs f and caches its value; later calls return the cached value |
| SynxOnce.Once.DoWithError | synx/once.go:26-32 | the first call caches f's value and error and marks the error as set; later calls return the cache |
| SynxOnce.Once.IsDone | synx/once.go:40-47 | as written: reports whether the once had run, and marks it as run |
| SynxOnce.Once.Done | synx/once.go:35-37 | as written: same result and effect as IsDone |
| SynxOnce.Once.DoneIntended | synx/once.go:34-37 | reports whether the once has run, and changes nothing |
| SynxOnce.Once.Value | synx/once.go:50-52 | the cached value, or the zero value before any call |
| SynxOnce.Once.Error | synx/once.go:55-60 | the cached error if DoWithError ran, nil otherwise |
| SynxOnce.Once.Reset | synx/once.go:63-69 | back to the zero state: not run, zero value, no error |
| SynxOnce.DoneThenDo | synx/once.go:35-47 | as-written counterexample: on a fresh Once, Done reports false, and a later Do of a function returning 1 returns 0 |
| SynxOnce.DoneIntendedThenDo | synx/once.go:34-37 | with the intended Done, the same sequence returns 1 |
| SynxOnce.DoTwice | synx/once.go:15-22 | two Do calls with different functions both return the first function's result |
| SynxOnce.OnceValue.constructor | synx/once.go:73-83 | the wrapper has not run |
| SynxOnce.OnceValue.Call | synx/once.go:73-83 | the first call caches f's value; every call returns the cached value |
| SynxOnce.OnceValues.constructor | synx/once.go:87-98 | the wrapper has not run |
| SynxOnce.OnceValues.Call | synx/once.go:87-98 | the first call caches both of f's results; every call returns them |
| SynxOnce.OnceFunc.constructor | synx/once.go:102-107 | the wrapper has not run |
| SynxOnce.OnceFunc.Call | synx/once.go:102-107 | the wrapped function has run exactly once after any number of calls |
| SynxOnce.OnceFuncWithArg.constructor | synx/once.go:110-124 | the wrapper has not run |
| SynxOnce.OnceFuncWithArg.Call | synx/once.go:110-124 | the wrapped function has run exactly once, on the first call's argument |
| SynxOnce.OnceResult.constructor | synx/once.go:127-138 | the wrapper has not run |
| SynxOnce.OnceResult.Call | synx/once.go:127-138 | the first call caches f's value and error; every call returns them |
| SynxOnce.LazyValue.constructor | synx/once.go:150-154 | a new lazy value is uninitialized and holds the zero value |
| SynxOnce.LazyValue.Get | synx/once.go:157-167 | the first call stores the initializer's value (the zero value if there is none); later calls return it |
| SynxOnce.LazyValue.IsInitialized | synx/once.go:170-174 | true iff Get has run; until then the value is zero |
| SynxOnce.LazyValue.Reset | synx/once.go:177-186 | uninitialized again, with the new initializer and the zero value |

## Left out

- Concurrency: `sync.Map`, `sync.Once` and `sync.RWMutex` are modelled as one goroutine sees them. Atomicity, locking and memory ordering are not modelled.
- The order in which Go maps and `sync.Map.Range` visit keys is unspecified. The model leaves it unconstrained, so results that list keys, values or members are specified up to order.
- `ForEach` on maps, sets and lists is not modelled: its callback acts only through side effects.
- `Match` on Option and Result is not modelled for the same reason; `MatchReturn` is.
- JSON marshalling and unmarshalling of Option and Result are not modelled. They go through `encoding/json`, which is not part of this model.
- `String()` of Option and Result is not modelled. It relies on `fmt` formatting of arbitrary values.
- `synx/pool.go` is not modelled. It wraps `sync.Pool`, whose reuse of objects is nondeterministic.
- The interface files (`mapx/map.go`, `maps/map.go`, `setx/set.go`, `listx/list.go`, `lists/list.go`) declare method sets only. Traits are not used, so the `other` operand of the set algebra is the same class as the receiver.
- `lists/slices/deque.go` and `lists/linked/stack.go`: the list types behind them (`lists/slices/list.go`, `lists/linked/list.go`) are not part of this model.
- Go's `int` is unbounded here. Sizes and indices never wrap around.
- ListxSlicesList.SliceList.Append: grows a full backing array to capacity 2*len+1 and fills the new slots with the appended element. Go's growth policy and zero filling are not modelled, because the contents seen through the slice do not depend on them.
- Every `ToSlice`, `Keys`, `Values` and `Entries` returns a `seq` value. Go builds a new slice in each of them, so no aliasing is lost.
- Closures passed to `cond`, `tuple`, `option`, `result` and `synx` are total Dafny functions. A side effect of a closure is not modelled. The call count of `OnceFunc` and the arguments of `OnceFuncWithArg` are ghost fields.
- CondClauses.Guard: drops the `action` parameter. Its only effect is a side effect.
- TuplePair.Curry, TuplePair.Uncurry, TupleTriple.CurryTriple and TupleTriple.UncurryTriple carry no `ensures`. Their meaning, a statement about every argument, is stated by the lemmas CurryApplies, UncurryApplies, CurryTripleApplies and UncurryTripleApplies.
- `listx/{linked,slices,hash}/queue.go` and `listx/slices/stack.go` declare `(T, error)` results for Dequeue/Peek/Pop. They are modelled as `Result`/`Option`, as in the deques and in `listx/hash/stack.go`.
- Go panics (`Unwrap` on `None`, `MustEval` with no match) are preconditions. A call that would panic is excluded by `requires`.

## Findings

| source | as written | input that shows it | evidently intended | confidence | as-written member | corrected member |
|---|---|---|---|---|---|---|
| synx/once.go:35-47 | `Done()` calls `isDone()`, which runs `once.Do` with a dummy function. On a Once that has not run, this consumes the once: Done reports false, but the Once now counts as done. | a fresh `Once[int]`: call `Done()` (false), then `Do(func() int { return 1 })`, which returns 0 and never calls the function | Done reports whether Do has run, without changing the state | not executed | SynxOnce.DoneThenDo | SynxOnce.DoneIntendedThenDo |
