/** The Result[T, E] value of result/result.go: exactly one of Ok(value) and
    Err(error). Go's panics in Unwrap and UnwrapErr become preconditions. */
module ResultMonad {
  import opened OptionMonad
  import opened Errors

  datatype Result<T, E> = Ok(value: T) | Err(error: E) {

    function IsOk(): (b: bool)
      ensures b <==> !Err?
    {
      Ok?
    }

    function IsErr(): (b: bool)
      ensures b <==> !IsOk()
    {
      Err?
    }

    /** Go panics on Err, with the error in the message. */
    function Unwrap(): (r: T)
      requires IsOk()
      ensures Ok(r) == this
    {
      value
    }

    /** Go panics on Ok. */
    function UnwrapErr(): (e: E)
      requires IsErr()
      ensures Err(e) == this
    {
      error
    }

    function UnwrapOr(defaultValue: T): (r: T)
      ensures IsOk() ==> Ok(r) == this
      ensures IsErr() ==> r == defaultValue
    {
      if IsErr() then defaultValue else value
    }

    /** The fallback is computed from the error, and only for Err. */
    function UnwrapOrElse(f: E -> T): (r: T)
      ensures IsOk() ==> Ok(r) == this
      ensures IsErr() ==> r == f(error)
    {
      if IsErr() then f(error) else value
    }

    function And(res: Result<T, E>): (r: Result<T, E>)
      ensures IsErr() ==> r == this
      ensures IsOk() ==> r == res
    {
      if IsErr() then this else res
    }

    function Or(res: Result<T, E>): (r: Result<T, E>)
      ensures IsOk() ==> r == this
      ensures IsErr() ==> r == res
    {
      if IsOk() then this else res
    }

    function OrElse(f: E -> Result<T, E>): (r: Result<T, E>)
      ensures IsOk() ==> r == this
      ensures IsErr() ==> r == f(error)
    {
      if IsErr() then f(error) else this
    }

    /** Go's `r.Ok()`: the success branch as an Option, the error discarded. */
    function OkOption(): (o: Option<T>)
      ensures o.IsSome() <==> IsOk()
      ensures IsOk() ==> o.value == value
    {
      if IsErr() then None else Some(value)
    }

    /** Go's `r.Err()`: the error branch as an Option, the value discarded. */
    function ErrOption(): (o: Option<E>)
      ensures o.IsSome() <==> IsErr()
      ensures IsErr() ==> o.value == error
    {
      if IsOk() then None else Some(error)
    }
  }

  function Map<T, U, E>(r: Result<T, E>, f: T -> U): (r': Result<U, E>)
    ensures r.IsOk() ==> r' == Ok(f(r.value))
    ensures r.IsErr() ==> r' == Err(r.error)
  {
    if r.IsErr() then Err(r.error) else Ok(f(r.value))
  }

  function MapErr<T, E, F>(r: Result<T, E>, f: E -> F): (r': Result<T, F>)
    ensures r.IsOk() ==> r' == Ok(r.value)
    ensures r.IsErr() ==> r' == Err(f(r.error))
  {
    if r.IsOk() then Ok(r.value) else Err(f(r.error))
  }

  /** Short-circuits on Err, keeping the original error. */
  function FlatMap<T, U, E>(r: Result<T, E>, f: T -> Result<U, E>): (r': Result<U, E>)
    ensures r.IsErr() ==> r' == Err(r.error)
    ensures r.IsOk() ==> r' == f(r.value)
  {
    if r.IsErr() then Err(r.error) else f(r.value)
  }

  function AndThen<T, U, E>(r: Result<T, E>, f: T -> Result<U, E>): (r': Result<U, E>)
    ensures r.IsErr() ==> r' == Err(r.error)
    ensures r.IsOk() ==> r' == f(r.value)
  {
    FlatMap(r, f)
  }

  function MatchReturn<T, E, R>(r: Result<T, E>, ok: T -> R, err: E -> R): (x: R)
    ensures r.IsOk() ==> x == ok(r.value)
    ensures r.IsErr() ==> x == err(r.error)
  {
    if r.IsOk() then ok(r.value) else err(r.error)
  }

  /** Go's `Try(value, err)`: a (value, error) pair, with a nil error as None. */
  function Try<T>(value: T, err: Option<Error>): (r: Result<T, Error>)
    ensures r.IsErr() <==> err.IsSome()
    ensures err.IsSome() ==> r.error == err.value
    ensures err.IsNone() ==> r == Ok(value)
  {
    if err.IsSome() then Err(err.value) else Ok(value)
  }

  /** Go's `TryWith(f)`: call f and convert its pair. */
  function TryWith<T>(f: () -> (T, Option<Error>)): (r: Result<T, Error>)
    ensures r.IsErr() <==> f().1.IsSome()
    ensures r.IsOk() ==> r.value == f().0
  {
    Try(f().0, f().1)
  }

  // Laws relating the operations to one another.

  lemma AndThenIsFlatMap<T, U, E>(r: Result<T, E>, f: T -> Result<U, E>)
    ensures AndThen(r, f) == FlatMap(r, f)
  {
  }

  lemma MapIdentity<T, E>(r: Result<T, E>)
    ensures Map(r, x => x) == r
    ensures MapErr(r, e => e) == r
  {
  }

  lemma MapComposition<T, U, W, E>(r: Result<T, E>, f: T -> U, g: U -> W)
    ensures Map(Map(r, f), g) == Map(r, x => g(f(x)))
  {
  }

  lemma MapAndMapErrCommute<T, U, E, F>(r: Result<T, E>, f: T -> U, g: E -> F)
    ensures MapErr(Map(r, f), g) == Map(MapErr(r, g), f)
  {
  }

  lemma FlatMapAssociative<T, U, W, E>(r: Result<T, E>, f: T -> Result<U, E>, g: U -> Result<W, E>)
    ensures FlatMap(FlatMap(r, f), g) == FlatMap(r, x => FlatMap(f(x), g))
  {
  }

  /** Exactly one of the two Option views is Some. */
  lemma OkErrOptionsPartition<T, E>(r: Result<T, E>)
    ensures r.OkOption().IsSome() != r.ErrOption().IsSome()
  {
  }

  lemma MapCommutesWithOkOption<T, U, E>(r: Result<T, E>, f: T -> U)
    ensures Map(r, f).OkOption() == OptionMonad.Map(r.OkOption(), f)
  {
  }

  /** Splitting a Result into Go's (value, error) pair and back with Try
      gives the same Result, whatever placeholder stands for the value of an Err. */
  lemma TryRoundTrip<T>(r: Result<T, Error>, placeholder: T)
    ensures Try(r.UnwrapOr(placeholder), r.ErrOption()) == r
  {
  }
}
