/** cond/cond.go: a Lisp-style `cond`, an ordered list of clauses, each a
    condition and a lazily computed result; the first clause whose condition
    holds supplies the result. Go closures are Dafny total functions, so
    they have no side effects here. `zero` is Go's zero value of the result
    type. */
module CondClauses {
  import opened OptionMonad

  datatype Clause<T> = Clause(condition: () -> bool, result: () -> T)

  /** The index of the first element satisfying p, None iff there is none. */
  function FirstWhere<X>(xs: seq<X>, p: X -> bool): (r: Option<nat>)
    ensures r.IsSome() ==> r.value < |xs| && p(xs[r.value])
    ensures r.IsSome() ==> forall j :: 0 <= j < r.value ==> !p(xs[j])
    ensures r.IsNone() <==> forall j :: 0 <= j < |xs| ==> !p(xs[j])
  {
    if xs == [] then None
    else if p(xs[0]) then Some(0)
    else
      var rest := FirstWhere(xs[1..], p);
      assert forall j :: 1 <= j < |xs| ==> xs[j] == xs[1..][j - 1];
      if rest.IsNone() then None else Some(rest.value + 1)
  }

  /** The index of the clause Eval picks, the first whose condition holds. */
  function FirstMatch<T>(clauses: seq<Clause<T>>): (r: Option<nat>)
    ensures r.IsSome() ==> r.value < |clauses| && clauses[r.value].condition()
    ensures r.IsSome() ==> forall j :: 0 <= j < r.value ==> !clauses[j].condition()
    ensures r.IsNone() <==> forall j :: 0 <= j < |clauses| ==> !clauses[j].condition()
  {
    FirstWhere(clauses, (c: Clause<T>) => c.condition())
  }

  /** Appending a clause never changes an existing match; without one, the
      new clause matches iff its condition holds. */
  lemma {:induction false} FirstWhereAppend<X>(xs: seq<X>, x: X, p: X -> bool)
    ensures FirstWhere(xs + [x], p) ==
            if FirstWhere(xs, p).IsSome() then FirstWhere(xs, p)
            else if p(x) then Some(|xs|) else None
  {
    if xs != [] {
      assert (xs + [x])[1..] == xs[1..] + [x];
      FirstWhereAppend(xs[1..], x, p);
    }
  }

  /** Two sequences that satisfy their predicates at the same indices have
      the same first match. */
  lemma {:induction false} FirstWhereAgree<X, Y>(xs: seq<X>, p: X -> bool, ys: seq<Y>, q: Y -> bool)
    requires |xs| == |ys|
    requires forall i :: 0 <= i < |xs| ==> p(xs[i]) == q(ys[i])
    ensures FirstWhere(xs, p) == FirstWhere(ys, q)
  {
    if xs != [] {
      FirstWhereAgree(xs[1..], p, ys[1..], q);
    }
  }

  function NewClause<T>(condition: () -> bool, result: () -> T): (c: Clause<T>)
    ensures c.condition() == condition() && c.result() == result()
  {
    Clause(condition, result)
  }

  /** A clause with a lazily computed result. */
  function When<T>(condition: () -> bool, result: () -> T): (c: Clause<T>)
    ensures c.condition() == condition() && c.result() == result()
  {
    NewClause(condition, result)
  }

  /** A clause whose result is a value fixed when the clause is built. */
  function WhenValue<T>(condition: () -> bool, value: T): (c: Clause<T>)
    ensures c.condition() == condition() && c.result() == value
  {
    NewClause(condition, () => value)
  }

  /** A clause that always matches, the `else` of a cond. */
  function WhenTrue<T>(result: () -> T): (c: Clause<T>)
    ensures c.condition() && c.result() == result()
  {
    NewClause(() => true, result)
  }

  function WhenTrueValue<T>(value: T): (c: Clause<T>)
    ensures c.condition() && c.result() == value
  {
    NewClause(() => true, () => value)
  }

  /** A clause that matches iff its condition does not hold. */
  function Unless<T>(condition: () -> bool, result: () -> T): (c: Clause<T>)
    ensures c.condition() <==> !condition()
    ensures c.result() == result()
  {
    NewClause(() => !condition(), result)
  }

  function UnlessValue<T>(condition: () -> bool, value: T): (c: Clause<T>)
    ensures c.condition() <==> !condition()
    ensures c.result() == value
  {
    Unless(condition, () => value)
  }

  /** A clause that matches when its condition does, whose result is the
      unit value; the guarded action is a side effect and not modelled. */
  function Guard(condition: () -> bool): (c: Clause<()>)
    ensures c.condition() == condition() && c.result() == ()
  {
    NewClause(condition, () => ())
  }
}

/** The Cond and SwitchCond builders of cond/cond.go, which append clauses
    in place and evaluate them in order. */
module CondEval {
  import opened OptionMonad
  import opened CondClauses
  import opened ListSpec

  class Cond<T> {
    var clauses: seq<Clause<T>>
    const zero: T

    constructor (zero: T)
      ensures clauses == [] && this.zero == zero
    {
      clauses := [];
      this.zero := zero;
    }

    /** Appends one clause at the end and returns the receiver for chaining. */
    method Add(clause: Clause<T>) returns (c: Cond<T>)
      modifies this
      ensures c == this && clauses == old(clauses) + [clause]
    {
      clauses := clauses + [clause];
      return this;
    }

    method When(condition: () -> bool, result: () -> T) returns (c: Cond<T>)
      modifies this
      ensures c == this && clauses == old(clauses) + [CondClauses.When(condition, result)]
    {
      c := Add(CondClauses.When(condition, result));
    }

    method WhenValue(condition: () -> bool, value: T) returns (c: Cond<T>)
      modifies this
      ensures c == this && clauses == old(clauses) + [CondClauses.WhenValue(condition, value)]
    {
      c := Add(CondClauses.WhenValue(condition, value));
    }

    /** Appends an always-true clause: afterwards Eval always succeeds, with
        the earlier match if there was one and with result() otherwise. */
    method Else(result: () -> T) returns (c: Cond<T>)
      modifies this
      ensures c == this && clauses == old(clauses) + [WhenTrue(result)]
      ensures FirstMatch(clauses).IsSome()
      ensures FirstMatch(old(clauses)).IsNone() ==> FirstMatch(clauses) == Some(|old(clauses)|)
      ensures FirstMatch(old(clauses)).IsSome() ==> FirstMatch(clauses) == FirstMatch(old(clauses))
    {
      c := Add(WhenTrue(result));
      FirstWhereAppend(old(clauses), WhenTrue(result), (c: Clause<T>) => c.condition());
    }

    method ElseValue(value: T) returns (c: Cond<T>)
      modifies this
      ensures c == this && clauses == old(clauses) + [WhenTrueValue(value)]
      ensures FirstMatch(clauses).IsSome()
      ensures FirstMatch(old(clauses)).IsNone() ==> FirstMatch(clauses) == Some(|old(clauses)|)
      ensures FirstMatch(old(clauses)).IsSome() ==> FirstMatch(clauses) == FirstMatch(old(clauses))
    {
      c := Add(WhenTrueValue(value));
      FirstWhereAppend(old(clauses), WhenTrueValue(value), (c: Clause<T>) => c.condition());
    }

    method Unless(condition: () -> bool, result: () -> T) returns (c: Cond<T>)
      modifies this
      ensures c == this && clauses == old(clauses) + [CondClauses.Unless(condition, result)]
    {
      c := Add(CondClauses.Unless(condition, result));
    }

    method UnlessValue(condition: () -> bool, value: T) returns (c: Cond<T>)
      modifies this
      ensures c == this && clauses == old(clauses) + [CondClauses.UnlessValue(condition, value)]
    {
      c := Add(CondClauses.UnlessValue(condition, value));
    }

    /** Tries the clauses in order: the first whose condition holds gives
        (its result, true); conditions after it are not consulted and only
        its result is computed. No match gives (zero, false). */
    method Eval() returns (result: T, ok: bool)
      ensures ok <==> FirstMatch(clauses).IsSome()
      ensures ok ==> result == clauses[FirstMatch(clauses).value].result()
      ensures !ok ==> result == zero
    {
      var i := 0;
      while i < |clauses|
        invariant 0 <= i <= |clauses|
        invariant forall j :: 0 <= j < i ==> !clauses[j].condition()
      {
        var clause := clauses[i];
        if clause.condition() {
          return clause.result(), true;
        }
        i := i + 1;
      }
      return zero, false;
    }

    /** Eval's result; Go panics when no clause matches. */
    method MustEval() returns (result: T)
      requires exists i :: 0 <= i < |clauses| && clauses[i].condition()
      ensures FirstMatch(clauses).IsSome()
      ensures result == clauses[FirstMatch(clauses).value].result()
    {
      var ok;
      result, ok := Eval();
    }

    /** Eval's result, or defaultValue iff no clause matches. */
    method EvalOr(defaultValue: T) returns (result: T)
      ensures FirstMatch(clauses).IsSome() ==> result == clauses[FirstMatch(clauses).value].result()
      ensures FirstMatch(clauses).IsNone() ==> result == defaultValue
    {
      var r, ok := Eval();
      if !ok {
        return defaultValue;
      }
      return r;
    }
  }

  /** Builds a Cond from the clauses in order and evaluates it. */
  method CondFunc<T>(clauses: seq<Clause<T>>, zero: T) returns (result: T, ok: bool)
    ensures ok <==> FirstMatch(clauses).IsSome()
    ensures ok ==> result == clauses[FirstMatch(clauses).value].result()
    ensures !ok ==> result == zero
  {
    var cond := new Cond(zero);
    var i := 0;
    while i < |clauses|
      invariant 0 <= i <= |clauses|
      invariant cond.clauses == clauses[..i] && cond.zero == zero
    {
      var _ := cond.Add(clauses[i]);
      i := i + 1;
    }
    assert cond.clauses == clauses;
    result, ok := cond.Eval();
  }

  /** CondFunc's result; Go panics when no clause matches. */
  method MustCondFunc<T>(clauses: seq<Clause<T>>, zero: T) returns (result: T)
    requires exists i :: 0 <= i < |clauses| && clauses[i].condition()
    ensures FirstMatch(clauses).IsSome()
    ensures result == clauses[FirstMatch(clauses).value].result()
  {
    var ok;
    result, ok := CondFunc(clauses, zero);
  }

  /** What was added to a switch: a case value with its result, or a default. */
  datatype Arm<T, U> = CaseArm(caseValue: T, result: () -> U) | DefaultArm(result: () -> U)

  /** A switch on `value`: each Case adds a clause that holds iff
      equal(value, caseValue), each Default an always-true clause. The ghost
      `arms` records what was added, in order. */
  class SwitchCond<T, U> {
    const value: T
    const equal: (T, T) -> bool
    const cond: Cond<U>
    ghost var arms: seq<Arm<T, U>>

    /** Whether an arm is selected by the switch value. */
    function Holds(arm: Arm<T, U>): bool
    {
      arm.CaseArm? ==> equal(value, arm.caseValue)
    }

    /** Clause i of the underlying Cond is arm i. */
    ghost predicate Valid()
      reads this, cond
    {
      |cond.clauses| == |arms|
      && forall i :: 0 <= i < |arms| ==>
           (cond.clauses[i].condition() <==> Holds(arms[i]))
           && cond.clauses[i].result() == arms[i].result()
    }

    /** Switch(value, equal) over a fresh Cond. */
    constructor (value: T, equal: (T, T) -> bool, zero: U)
      ensures Valid() && fresh(cond) && arms == [] && cond.zero == zero
      ensures this.value == value && this.equal == equal
    {
      this.value := value;
      this.equal := equal;
      cond := new Cond(zero);
      arms := [];
    }

    method Case(caseValue: T, result: () -> U) returns (s: SwitchCond<T, U>)
      requires Valid()
      modifies this, cond
      ensures s == this && Valid() && arms == old(arms) + [CaseArm(caseValue, result)]
    {
      var v, eq := value, equal;
      var _ := cond.When(() => eq(v, caseValue), result);
      arms := arms + [CaseArm(caseValue, result)];
      return this;
    }

    method CaseValue(caseValue: T, result: U) returns (s: SwitchCond<T, U>)
      requires Valid()
      modifies this, cond
      ensures s == this && Valid() && |arms| == |old(arms)| + 1 && arms[..|old(arms)|] == old(arms)
      ensures Last(arms).CaseArm? && Last(arms).caseValue == caseValue && Last(arms).result() == result
    {
      s := Case(caseValue, () => result);
    }

    method Default(result: () -> U) returns (s: SwitchCond<T, U>)
      requires Valid()
      modifies this, cond
      ensures s == this && Valid() && arms == old(arms) + [DefaultArm(result)]
    {
      var _ := cond.Else(result);
      arms := arms + [DefaultArm(result)];
      return this;
    }

    method DefaultValue(result: U) returns (s: SwitchCond<T, U>)
      requires Valid()
      modifies this, cond
      ensures s == this && Valid() && |arms| == |old(arms)| + 1 && arms[..|old(arms)|] == old(arms)
      ensures Last(arms).DefaultArm? && Last(arms).result() == result
    {
      s := Default(() => result);
    }

    /** The first arm that holds supplies the result: a case whose value
        equals the switch value, or a default that no earlier case beat. */
    method Eval() returns (result: U, ok: bool)
      requires Valid()
      ensures ok <==> FirstWhere(arms, Holds).IsSome()
      ensures ok ==> result == arms[FirstWhere(arms, Holds).value].result()
      ensures !ok ==> result == cond.zero
    {
      result, ok := cond.Eval();
      FirstWhereAgree(cond.clauses, (c: Clause<U>) => c.condition(), arms, Holds);
    }

    method MustEval() returns (result: U)
      requires Valid()
      requires exists i :: 0 <= i < |arms| && Holds(arms[i])
      ensures FirstWhere(arms, Holds).IsSome()
      ensures result == arms[FirstWhere(arms, Holds).value].result()
    {
      FirstWhereAgree(cond.clauses, (c: Clause<U>) => c.condition(), arms, Holds);
      result := cond.MustEval();
    }

    method EvalOr(defaultValue: U) returns (result: U)
      requires Valid()
      ensures FirstWhere(arms, Holds).IsSome() ==> result == arms[FirstWhere(arms, Holds).value].result()
      ensures FirstWhere(arms, Holds).IsNone() ==> result == defaultValue
    {
      FirstWhereAgree(cond.clauses, (c: Clause<U>) => c.condition(), arms, Holds);
      result := cond.EvalOr(defaultValue);
    }
  }
}
