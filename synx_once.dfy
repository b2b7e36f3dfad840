/** synx/once.go: run-once caches built on `sync.Once`, in their
    single-goroutine behaviour. A `sync.Once` is its `done` flag: its Do runs
    the given function iff the flag is clear, and sets it. Go closures that
    update captured variables become small classes whose fields are those
    variables. `zero` is Go's zero value of T, and a Go error is an
    `Option<Error>` (None for nil). */
module SynxOnce {
  import opened OptionMonad
  import opened Errors

  class Once<T> {
    var done: bool
    var value: T
    var err: Option<Error>
    var hasErr: bool
    const zero: T

    /** Before the once-function runs, the fields hold their zero values;
        only DoWithError sets hasErr. */
    ghost predicate Valid()
      reads this
    {
      (!done ==> value == zero && err.IsNone() && !hasErr)
      && (hasErr ==> done)
    }

    /** The zero Once: `var once Once[T]`. */
    constructor (zero: T)
      ensures Valid() && !done && value == zero && err.IsNone() && !hasErr && this.zero == zero
    {
      this.zero := zero;
      done, value, err, hasErr := false, zero, None, false;
    }

    /** The first run stores f() and returns it; once the flag is set the
        cached value is returned and f is not called. */
    method Do(f: () -> T) returns (r: T)
      requires Valid()
      modifies this
      ensures Valid() && done && r == value
      ensures !old(done) ==> value == f()
      ensures old(done) ==> value == old(value)
      ensures err == old(err) && hasErr == old(hasErr)
    {
      if !done {
        done := true;
        value := f();
      }
      return value;
    }

    /** Like Do, caching both results of f; an error is cached like a value,
        so a failed first run is never retried. Shares the flag with Do. */
    method DoWithError(f: () -> (T, Option<Error>)) returns (r: T, e: Option<Error>)
      requires Valid()
      modifies this
      ensures Valid() && done && r == value && e == err
      ensures !old(done) ==> (value, err) == f() && hasErr
      ensures old(done) ==> value == old(value) && err == old(err) && hasErr == old(hasErr)
    {
      if !done {
        done := true;
        var result := f();
        value, err := result.0, result.1;
        hasErr := true;
      }
      return value, err;
    }

    /** Reports whether the flag was set, by passing sync.Once a dummy
        function and seeing whether it ran; on a fresh Once it runs, and so
        the flag is set from then on. */
    method IsDone() returns (b: bool)
      requires Valid()
      modifies this
      ensures Valid() && done
      ensures b == old(done)
      ensures value == old(value) && err == old(err) && hasErr == old(hasErr)
    {
      var called := false;
      if !done {
        done := true;
        called := true;
      }
      return !called;
    }

    /** isDone, with its side effect on the flag. */
    method Done() returns (b: bool)
      requires Valid()
      modifies this
      ensures Valid() && done
      ensures b == old(done)
      ensures value == old(value) && err == old(err) && hasErr == old(hasErr)
    {
      b := IsDone();
    }

    /** What Done is evidently meant to do: report the flag and change
        nothing, so a later Do still runs its function. */
    method DoneIntended() returns (b: bool)
      requires Valid()
      ensures b <==> done
    {
      return done;
    }

    /** The cached value; the zero value while the flag is clear. */
    function Value(): (r: T)
      reads this
      requires Valid()
      ensures !done ==> r == zero
      ensures r == value
    {
      value
    }

    /** The cached error if DoWithError ran, else nil. */
    function Error(): (r: Option<Error>)
      reads this
      requires Valid()
      ensures hasErr ==> r == err
      ensures !hasErr ==> r.IsNone()
    {
      if hasErr then err else None
    }

    /** A fresh sync.Once and zero fields: the next Do runs its function. */
    method Reset()
      modifies this
      ensures Valid() && !done && value == zero && err.IsNone() && !hasErr
    {
      done := false;
      value := zero;
      err := None;
      hasErr := false;
    }
  }

  /** On a fresh Once, Done() reports false but sets the flag, so the Do
      that follows returns the zero value 0 instead of f() = 1. */
  method DoneThenDo() returns (reported: bool, got: int)
    ensures !reported && got == 0
  {
    var o := new Once(0);
    reported := o.Done();
    got := o.Do(() => 1);
  }

  /** With the intended Done, the same client gets f() = 1. */
  method DoneIntendedThenDo() returns (reported: bool, got: int)
    ensures !reported && got == 1
  {
    var o := new Once(0);
    reported := o.DoneIntended();
    got := o.Do(() => 1);
  }

  /** Two Do calls on one Once: the second returns what the first computed,
      and the second function is never run. */
  method DoTwice<T>(o: Once<T>, f: () -> T, g: () -> T) returns (r1: T, r2: T)
    requires o.Valid() && !o.done
    modifies o
    ensures r1 == f() && r2 == f()
  {
    r1 := o.Do(f);
    r2 := o.Do(g);
  }

  /** The closure returned by OnceValue(f): its captured sync.Once and value. */
  class OnceValue<T> {
    const f: () -> T
    var done: bool
    var value: T

    constructor (f: () -> T, zero: T)
      ensures this.f == f && !done && value == zero
    {
      this.f := f;
      done, value := false, zero;
    }

    /** Every call returns f(); f runs on the first call only. */
    method Call() returns (r: T)
      modifies this
      ensures done && r == value
      ensures !old(done) ==> value == f()
      ensures old(done) ==> value == old(value)
    {
      if !done {
        done := true;
        value := f();
      }
      return value;
    }
  }

  /** The closure returned by OnceValues(f), caching both results of f. */
  class OnceValues<T, U> {
    const f: () -> (T, U)
    var done: bool
    var value1: T
    var value2: U

    constructor (f: () -> (T, U), zero1: T, zero2: U)
      ensures this.f == f && !done && value1 == zero1 && value2 == zero2
    {
      this.f := f;
      done, value1, value2 := false, zero1, zero2;
    }

    method Call() returns (r1: T, r2: U)
      modifies this
      ensures done && r1 == value1 && r2 == value2
      ensures !old(done) ==> (value1, value2) == f()
      ensures old(done) ==> value1 == old(value1) && value2 == old(value2)
    {
      if !done {
        done := true;
        var result := f();
        value1, value2 := result.0, result.1;
      }
      return value1, value2;
    }
  }

  /** The closure returned by OnceFunc(f). The effect of f is not modelled;
      the ghost `calls` counts the times it ran. */
  class OnceFunc {
    var done: bool
    ghost var calls: nat

    ghost predicate Valid()
      reads this
    {
      calls == if done then 1 else 0
    }

    constructor ()
      ensures Valid() && !done && calls == 0
    {
      done := false;
      calls := 0;
    }

    /** f runs on the first call and never again. */
    method Call()
      requires Valid()
      modifies this
      ensures Valid() && done && calls == 1
      ensures calls == if old(done) then old(calls) else old(calls) + 1
    {
      if !done {
        done := true;
        calls := calls + 1;
      }
    }
  }

  /** The closure returned by OnceFuncWithArg(f): it remembers the first
      argument ever passed and runs f once, with that argument. The ghost
      `passed` lists every argument given and `invoked` every argument f ran
      with. */
  class OnceFuncWithArg<T> {
    var done: bool
    var firstArg: T
    var called: bool
    ghost var passed: seq<T>
    ghost var invoked: seq<T>

    ghost predicate Valid()
      reads this
    {
      (called <==> passed != [])
      && (called ==> firstArg == passed[0])
      && (done ==> called)
      && invoked == if done then [firstArg] else []
    }

    constructor (zero: T)
      ensures Valid() && passed == [] && invoked == []
    {
      done, firstArg, called := false, zero, false;
      passed, invoked := [], [];
    }

    /** f has run exactly once afterwards, with the first argument ever passed. */
    method Call(arg: T)
      requires Valid()
      modifies this
      ensures Valid() && passed == old(passed) + [arg]
      ensures invoked == [passed[0]]
    {
      if !called {
        firstArg := arg;
        called := true;
      }
      passed := passed + [arg];
      if !done {
        done := true;
        invoked := invoked + [firstArg];
      }
    }
  }

  /** The closure returned by OnceResult(f), caching f's value and error. */
  class OnceResult<T> {
    const f: () -> (T, Option<Error>)
    var done: bool
    var value: T
    var err: Option<Error>

    constructor (f: () -> (T, Option<Error>), zero: T)
      ensures this.f == f && !done && value == zero && err.IsNone()
    {
      this.f := f;
      done, value, err := false, zero, None;
    }

    /** Every call returns f()'s value and error; a failure is not retried. */
    method Call() returns (r: T, e: Option<Error>)
      modifies this
      ensures done && r == value && e == err
      ensures !old(done) ==> (value, err) == f()
      ensures old(done) ==> value == old(value) && err == old(err)
    {
      if !done {
        done := true;
        var result := f();
        value, err := result.0, result.1;
      }
      return value, err;
    }
  }

  /** A value computed by `init` on the first Get. A nil init is None and
      leaves the zero value. `initialized` is set inside the once-function,
      so it agrees with the flag; the RWMutex is not modelled. */
  class LazyValue<T> {
    var done: bool
    var value: T
    var init: Option<() -> T>
    var initialized: bool
    const zero: T

    ghost predicate Valid()
      reads this
    {
      initialized == done && (!done ==> value == zero)
    }

    /** NewLazyValue(init). */
    constructor (init: Option<() -> T>, zero: T)
      ensures Valid() && !initialized && this.init == init && this.zero == zero
    {
      this.zero := zero;
      this.init := init;
      done, value, initialized := false, zero, false;
    }

    /** The first Get stores init() (or keeps zero for a nil init) and marks
        the value initialized; later Gets return it without calling init. */
    method Get() returns (r: T)
      requires Valid()
      modifies this
      ensures Valid() && initialized && r == value && init == old(init)
      ensures !old(initialized) ==> value == if init.IsSome() then init.value() else zero
      ensures old(initialized) ==> value == old(value)
    {
      if !done {
        done := true;
        if init.IsSome() {
          value := init.value();
        }
        initialized := true;
      }
      return value;
    }

    function IsInitialized(): (b: bool)
      reads this
      requires Valid()
      ensures b <==> initialized
      ensures !b ==> value == zero
    {
      initialized
    }

    /** Back to the uninitialized state with a new initializer. */
    method Reset(init: Option<() -> T>)
      modifies this
      ensures Valid() && !initialized && value == zero && this.init == init
    {
      done := false;
      value := zero;
      this.init := init;
      initialized := false;
    }
  }
}
