/** The Option[T] value of option/option.go: either Some(value) or None.
    Go's panic in Unwrap becomes the precondition IsSome(). */
module OptionMonad {

  datatype Option<T> = None | Some(value: T) {

    function IsSome(): (b: bool)
      ensures b <==> !None?
    {
      Some?
    }

    function IsNone(): (b: bool)
      ensures b <==> !IsSome()
    {
      None?
    }

    /** Go panics on None; callers must have checked. */
    function Unwrap(): (r: T)
      requires IsSome()
      ensures Some(r) == this
    {
      value
    }

    function UnwrapOr(defaultValue: T): (r: T)
      ensures IsSome() ==> Some(r) == this
      ensures IsNone() ==> r == defaultValue
    {
      if IsNone() then defaultValue else value
    }

    /** f is consulted only for None. */
    function UnwrapOrElse(f: () -> T): (r: T)
      ensures IsSome() ==> Some(r) == this
      ensures IsNone() ==> r == f()
    {
      if IsNone() then f() else value
    }

    function Filter(pred: T -> bool): (r: Option<T>)
      ensures r.IsSome() <==> IsSome() && pred(value)
      ensures r.IsSome() ==> r == this
    {
      if IsNone() || !pred(value) then None else this
    }

    function Or(optb: Option<T>): (r: Option<T>)
      ensures IsSome() ==> r == this
      ensures IsNone() ==> r == optb
    {
      if IsSome() then this else optb
    }

    function OrElse(f: () -> Option<T>): (r: Option<T>)
      ensures IsSome() ==> r == this
      ensures IsNone() ==> r == f()
    {
      if IsSome() then this else f()
    }

    /** Presence test only: the value of this is never returned. */
    function And(optb: Option<T>): (r: Option<T>)
      ensures IsNone() ==> r.IsNone()
      ensures IsSome() ==> r == optb
    {
      if IsNone() then None else optb
    }

    /** A pointer to a copy of the value, or nil. */
    function ToPtr(): (p: Pointer<T>)
      ensures p.Nil? <==> IsNone()
      ensures IsSome() ==> p.target == value
    {
      if IsNone() then Nil else Addr(value)
    }
  }

  /** A Go pointer *T: nil or the address of a value. Addresses themselves
      are not modelled, only what they point to. */
  datatype Pointer<T> = Nil | Addr(target: T)

  function Map<T, U>(o: Option<T>, f: T -> U): (r: Option<U>)
    ensures o.IsNone() ==> r.IsNone()
    ensures o.IsSome() ==> r == Some(f(o.value))
  {
    if o.IsNone() then None else Some(f(o.value))
  }

  function FlatMap<T, U>(o: Option<T>, f: T -> Option<U>): (r: Option<U>)
    ensures o.IsNone() ==> r.IsNone()
    ensures o.IsSome() ==> r == f(o.value)
  {
    if o.IsNone() then None else f(o.value)
  }

  function AndThen<T, U>(o: Option<T>, f: T -> Option<U>): (r: Option<U>)
    ensures o.IsNone() ==> r.IsNone()
    ensures o.IsSome() ==> r == f(o.value)
  {
    FlatMap(o, f)
  }

  /** Exactly one of the two continuations decides the result. */
  function MatchReturn<T, R>(o: Option<T>, some: T -> R, none: () -> R): (r: R)
    ensures o.IsSome() ==> r == some(o.value)
    ensures o.IsNone() ==> r == none()
  {
    if o.IsSome() then some(o.value) else none()
  }

  function FromPtr<T>(ptr: Pointer<T>): (r: Option<T>)
    ensures r.IsNone() <==> ptr.Nil?
    ensures ptr.Addr? ==> r == Some(ptr.target)
  {
    if ptr.Nil? then None else Some(ptr.target)
  }

  // Laws relating the operations to one another.

  lemma AndThenIsFlatMap<T, U>(o: Option<T>, f: T -> Option<U>)
    ensures AndThen(o, f) == FlatMap(o, f)
  {
  }

  lemma MapIdentity<T>(o: Option<T>)
    ensures Map(o, x => x) == o
  {
  }

  lemma MapComposition<T, U, W>(o: Option<T>, f: T -> U, g: U -> W)
    ensures Map(Map(o, f), g) == Map(o, x => g(f(x)))
  {
  }

  lemma MapIsFlatMapOfSome<T, U>(o: Option<T>, f: T -> U)
    ensures Map(o, f) == FlatMap(o, x => Some(f(x)))
  {
  }

  lemma FlatMapLeftIdentity<T, U>(v: T, f: T -> Option<U>)
    ensures FlatMap(Some(v), f) == f(v)
  {
  }

  lemma FlatMapRightIdentity<T>(o: Option<T>)
    ensures FlatMap(o, x => Some(x)) == o
  {
  }

  lemma FlatMapAssociative<T, U, W>(o: Option<T>, f: T -> Option<U>, g: U -> Option<W>)
    ensures FlatMap(FlatMap(o, f), g) == FlatMap(o, x => FlatMap(f(x), g))
  {
  }

  lemma FilterIdempotent<T>(o: Option<T>, p: T -> bool)
    ensures o.Filter(p).Filter(p) == o.Filter(p)
  {
  }

  lemma UnwrapOrAgreesWithMatchReturn<T>(o: Option<T>, d: T)
    ensures o.UnwrapOr(d) == MatchReturn(o, x => x, () => d)
  {
  }

  lemma PtrRoundTrip<T>(o: Option<T>, p: Pointer<T>)
    ensures FromPtr(o.ToPtr()) == o
    ensures FromPtr(p).ToPtr() == p
  {
  }
}
