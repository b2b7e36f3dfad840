/** tuple/tripple.go: an immutable triple of three values, with accessors,
    mapping, rotation, conversion to and from a Pair, and currying. */
module TupleTriple {
  import opened TuplePair

  datatype Triple<T, U, V> = Triple(first: T, second: U, third: V) {

    function First(): (x: T)
      ensures x == first
    {
      first
    }

    function Second(): (y: U)
      ensures y == second
    {
      second
    }

    function Third(): (z: V)
      ensures z == third
    {
      third
    }

    /** All three components replaced by what f makes of them together. */
    function Map(f: (T, U, V) -> (T, U, V)): (r: Triple<T, U, V>)
      ensures (r.First(), r.Second(), r.Third()) == f(First(), Second(), Third())
    {
      var (a, b, c) := f(first, second, third);
      NewTriple(a, b, c)
    }

    /** The pair of the first two components; the third is dropped. */
    function ToPair(): (p: Pair<T, U>)
      ensures p.First() == First() && p.Second() == Second()
    {
      NewPair(first, second)
    }

    /** (first, second, third) becomes (second, third, first). */
    function RotateLeft(): (r: Triple<U, V, T>)
      ensures r.First() == Second() && r.Second() == Third() && r.Third() == First()
    {
      NewTriple(second, third, first)
    }

    /** (first, second, third) becomes (third, first, second). */
    function RotateRight(): (r: Triple<V, T, U>)
      ensures r.First() == Third() && r.Second() == First() && r.Third() == Second()
    {
      NewTriple(third, first, second)
    }

    /** Component-wise comparison with the given equalities. */
    function Equal(other: Triple<T, U, V>, eqT: (T, T) -> bool, eqU: (U, U) -> bool, eqV: (V, V) -> bool): (b: bool)
      ensures b <==> eqT(First(), other.First()) && eqU(Second(), other.Second()) && eqV(Third(), other.Third())
    {
      eqT(first, other.first) && eqU(second, other.second) && eqV(third, other.third)
    }
  }

  function NewTriple<T, U, V>(first: T, second: U, third: V): (t: Triple<T, U, V>)
    ensures t.First() == first && t.Second() == second && t.Third() == third
  {
    Triple(first, second, third)
  }

  /** Only the first component changes. */
  function MapFirstTriple<T, U, V, W>(t: Triple<T, U, V>, f: T -> W): (r: Triple<W, U, V>)
    ensures r.First() == f(t.First()) && r.Second() == t.Second() && r.Third() == t.Third()
  {
    NewTriple(f(t.first), t.second, t.third)
  }

  /** Only the second component changes. */
  function MapSecondTriple<T, U, V, W>(t: Triple<T, U, V>, f: U -> W): (r: Triple<T, W, V>)
    ensures r.First() == t.First() && r.Second() == f(t.Second()) && r.Third() == t.Third()
  {
    NewTriple(t.first, f(t.second), t.third)
  }

  /** Only the third component changes. */
  function MapThirdTriple<T, U, V, W>(t: Triple<T, U, V>, f: V -> W): (r: Triple<T, U, W>)
    ensures r.First() == t.First() && r.Second() == t.Second() && r.Third() == f(t.Third())
  {
    NewTriple(t.first, t.second, f(t.third))
  }

  /** f applied to the three components. */
  function ApplyTriple<T, U, V, R>(t: Triple<T, U, V>, f: (T, U, V) -> R): (r: R)
    ensures r == f(t.First(), t.Second(), t.Third())
  {
    f(t.first, t.second, t.third)
  }

  /** A triple from a pair's two components and a third value. */
  function FromPair<T, U, V>(p: Pair<T, U>, third: V): (t: Triple<T, U, V>)
    ensures t.First() == p.First() && t.Second() == p.Second() && t.Third() == third
  {
    NewTriple(p.First(), p.Second(), third)
  }

  /** The three-argument f taking its arguments one at a time. */
  function CurryTriple<T, U, V, R>(f: (T, U, V) -> R): T -> U -> V -> R
  {
    t => u => v => f(t, u, v)
  }

  /** A curried g taking all three arguments from a triple. */
  function UncurryTriple<T, U, V, R>(g: T -> U -> V -> R): Triple<T, U, V> -> R
  {
    (t: Triple<T, U, V>) => g(t.first)(t.second)(t.third)
  }

  /** "(" + first + ", " + second + ", " + third + ")", with Go's toString. */
  function String(t: Triple<Dynamic, Dynamic, Dynamic>): (r: string)
    ensures |r| == |ToString(t.First())| + |ToString(t.Second())| + |ToString(t.Third())| + 6
    ensures r[0] == '(' && r[|r| - 1] == ')'
    ensures r[1..1 + |ToString(t.First())|] == ToString(t.First())
    ensures r[1 + |ToString(t.First())|..3 + |ToString(t.First())|] == ", "
    ensures r[3 + |ToString(t.First())|..3 + |ToString(t.First())| + |ToString(t.Second())|]
         == ToString(t.Second())
    ensures r[3 + |ToString(t.First())| + |ToString(t.Second())|..5 + |ToString(t.First())| + |ToString(t.Second())|]
         == ", "
    ensures r[5 + |ToString(t.First())| + |ToString(t.Second())|..|r| - 1] == ToString(t.Third())
  {
    "(" + ToString(t.first) + ", " + ToString(t.second) + ", " + ToString(t.third) + ")"
  }

  /** Rotating left then right, or right then left, gives back the triple. */
  lemma RotateInverse<T, U, V>(t: Triple<T, U, V>)
    ensures t.RotateLeft().RotateRight() == t
    ensures t.RotateRight().RotateLeft() == t
  {
  }

  /** Three left rotations, or three right rotations, are the identity. */
  lemma RotateThrice<T, U, V>(t: Triple<T, U, V>)
    ensures t.RotateLeft().RotateLeft().RotateLeft() == t
    ensures t.RotateRight().RotateRight().RotateRight() == t
  {
  }

  /** Splitting a triple into its pair and third and joining them again is the identity. */
  lemma FromPairToPair<T, U, V>(t: Triple<T, U, V>)
    ensures FromPair(t.ToPair(), t.Third()) == t
  {
  }

  /** Dropping the third component of FromPair(p, z) gives back p. */
  lemma ToPairFromPair<T, U, V>(p: Pair<T, U>, z: V)
    ensures FromPair(p, z).ToPair() == p
  {
  }

  /** The curried function applied to t, u and v is f(t, u, v). */
  lemma CurryTripleApplies<T, U, V, R>(f: (T, U, V) -> R, t: T, u: U, v: V)
    ensures CurryTriple(f)(t)(u)(v) == f(t, u, v)
  {
  }

  /** The uncurried function feeds g the triple's components in order. */
  lemma UncurryTripleApplies<T, U, V, R>(g: T -> U -> V -> R, t: Triple<T, U, V>)
    ensures UncurryTriple(g)(t) == g(t.First())(t.Second())(t.Third())
  {
  }

  /** Uncurrying a curried function gives the original, on triples. */
  lemma UncurryCurryTriple<T, U, V, R>(f: (T, U, V) -> R, t: Triple<T, U, V>)
    ensures UncurryTriple(CurryTriple(f))(t) == ApplyTriple(t, f)
  {
    UncurryTripleApplies(CurryTriple(f), t);
    CurryTripleApplies(f, t.First(), t.Second(), t.Third());
  }
}
