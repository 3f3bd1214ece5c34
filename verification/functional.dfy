/** `lib/functional.js`: the default number comparer and strict equality. */
module Functional {

  /** `numberCompareFunction(lhs, rhs)`: `lhs - rhs`, whose sign orders the
      two numbers. The `console.assert`s on the argument types only log. */
  function NumberCompare(lhs: real, rhs: real): (r: real)
    ensures r < 0.0 <==> lhs < rhs
    ensures r == 0.0 <==> lhs == rhs
    ensures r > 0.0 <==> lhs > rhs
  {
    lhs - rhs
  }

  /** Swapping the arguments of `numberCompareFunction` negates its answer. */
  lemma NumberCompareAntisymmetric(a: real, b: real)
    ensures NumberCompare(a, b) == -NumberCompare(b, a)
    ensures NumberCompare(a, a) == 0.0
  {
  }

  /** `referencialEquality(lhs, rhs)`: `lhs === rhs`. */
  function ReferentialEquality<T(==)>(lhs: T, rhs: T): (r: bool)
    ensures r <==> lhs == rhs
  {
    lhs == rhs
  }

  /** `referencialEquality` is reflexive, symmetric and transitive. */
  lemma ReferentialEqualityIsEquivalence<T>(a: T, b: T, c: T)
    ensures ReferentialEquality(a, a)
    ensures ReferentialEquality(a, b) == ReferentialEquality(b, a)
    ensures ReferentialEquality(a, b) && ReferentialEquality(b, c) ==> ReferentialEquality(a, c)
  {
  }
}
