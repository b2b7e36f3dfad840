/** tuple/pair.go: an immutable pair of two values of possibly different
    types, with accessors, mapping, swapping and currying. */
module TuplePair {

  datatype Pair<T, U> = Pair(first: T, second: U) {

    function First(): (x: T)
      ensures x == first
    {
      first
    }

    function Second(): (y: U)
      ensures y == second
    {
      second
    }

    /** Both components replaced by what f makes of them together. */
    function Map(f: (T, U) -> (T, U)): (r: Pair<T, U>)
      ensures (r.First(), r.Second()) == f(First(), Second())
    {
      var (a, b) := f(first, second);
      NewPair(a, b)
    }

    /** The components exchanged. */
    function Swap(): (r: Pair<U, T>)
      ensures r.First() == Second() && r.Second() == First()
    {
      NewPair(second, first)
    }

    /** Component-wise comparison with the given equalities. */
    function Equal(other: Pair<T, U>, eqT: (T, T) -> bool, eqU: (U, U) -> bool): (b: bool)
      ensures b <==> eqT(First(), other.First()) && eqU(Second(), other.Second())
    {
      eqT(first, other.first) && eqU(second, other.second)
    }
  }

  function NewPair<T, U>(first: T, second: U): (p: Pair<T, U>)
    ensures p.First() == first && p.Second() == second
  {
    Pair(first, second)
  }

  /** Only the first component changes. */
  function MapFirst<T, U, V>(p: Pair<T, U>, f: T -> V): (r: Pair<V, U>)
    ensures r.First() == f(p.First()) && r.Second() == p.Second()
  {
    NewPair(f(p.first), p.second)
  }

  /** Only the second component changes. */
  function MapSecond<T, U, V>(p: Pair<T, U>, f: U -> V): (r: Pair<T, V>)
    ensures r.First() == p.First() && r.Second() == f(p.Second())
  {
    NewPair(p.first, f(p.second))
  }

  /** f applied to both components. */
  function Apply<T, U, R>(p: Pair<T, U>, f: (T, U) -> R): (r: R)
    ensures r == f(p.First(), p.Second())
  {
    f(p.first, p.second)
  }

  /** The two-argument f taking its arguments one at a time. */
  function Curry<T, U, R>(f: (T, U) -> R): T -> U -> R
  {
    t => u => f(t, u)
  }

  /** A curried g taking both arguments from a pair. */
  function Uncurry<T, U, R>(g: T -> U -> R): Pair<T, U> -> R
  {
    (p: Pair<T, U>) => g(p.first)(p.second)
  }

  /** Values the formatting can meet: Go's `toString` renders a string
      verbatim and any value of any other dynamic type as "". */
  datatype Dynamic = StringValue(s: string) | NonString

  function ToString(v: Dynamic): (r: string)
    ensures v.StringValue? ==> r == v.s
    ensures v.NonString? ==> r == ""
  {
    match v
    case StringValue(s) => s
    case NonString => ""
  }

  /** "(" + first + ", " + second + ")". */
  function String(p: Pair<Dynamic, Dynamic>): (r: string)
    ensures |r| == |ToString(p.First())| + |ToString(p.Second())| + 4
    ensures r[0] == '(' && r[|r| - 1] == ')'
    ensures r[1..1 + |ToString(p.First())|] == ToString(p.First())
    ensures r[1 + |ToString(p.First())|..3 + |ToString(p.First())|] == ", "
    ensures r[3 + |ToString(p.First())|..|r| - 1] == ToString(p.Second())
  {
    "(" + ToString(p.first) + ", " + ToString(p.second) + ")"
  }

  /** Swapping twice gives back the pair. */
  lemma SwapSwap<T, U>(p: Pair<T, U>)
    ensures p.Swap().Swap() == p
  {
  }

  /** The curried function applied to t and then u is f(t, u). */
  lemma CurryApplies<T, U, R>(f: (T, U) -> R, t: T, u: U)
    ensures Curry(f)(t)(u) == f(t, u)
  {
  }

  /** The uncurried function applied to a pair feeds g its components in order. */
  lemma UncurryApplies<T, U, R>(g: T -> U -> R, p: Pair<T, U>)
    ensures Uncurry(g)(p) == g(p.First())(p.Second())
  {
  }

  /** Uncurrying a curried function gives the original, on pairs. */
  lemma UncurryCurry<T, U, R>(f: (T, U) -> R, p: Pair<T, U>)
    ensures Uncurry(Curry(f))(p) == Apply(p, f)
  {
  }

  /** Currying an uncurried function gives the original. */
  lemma CurryUncurry<T, U, R>(g: T -> U -> R, t: T, u: U)
    ensures Curry((a: T, b: U) => Uncurry(g)(NewPair(a, b)))(t)(u) == g(t)(u)
  {
    var f := (a: T, b: U) => Uncurry(g)(NewPair(a, b));
    CurryApplies(f, t, u);
    UncurryApplies(g, NewPair(t, u));
  }

  /** Map with the identity leaves a pair as it was. */
  lemma MapIdentity<T, U>(p: Pair<T, U>)
    ensures p.Map((a: T, b: U) => (a, b)) == p
  {
  }

  /** Equal with reflexive equalities holds between a pair and itself. */
  lemma EqualReflexive<T, U>(p: Pair<T, U>, eqT: (T, T) -> bool, eqU: (U, U) -> bool)
    requires forall a :: eqT(a, a)
    requires forall b :: eqU(b, b)
    ensures p.Equal(p, eqT, eqU)
  {
  }
}
