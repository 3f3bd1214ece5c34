/** `lib/array.js`: searching an array, with an optional equality. */
module ArrayOps {

  import opened Wrappers

  /** `array.findIndex(p)`: the first index whose element satisfies `p`,
      or -1 when there is none. */
  function FindIndex<T>(p: T -> bool, a: seq<T>): (r: int)
    ensures -1 <= r < |a|
    ensures r >= 0 ==> p(a[r]) && forall j :: 0 <= j < r ==> !p(a[j])
    ensures r == -1 <==> forall j :: 0 <= j < |a| ==> !p(a[j])
  {
    if |a| == 0 then -1
    else if p(a[0]) then 0
    else
      var k := FindIndex(p, a[1..]);
      if k < 0 then -1 else k + 1
  }

  /** The element test `v => equal(v, value)` of `indexOf`. */
  function EqualTo<E, T>(equal: (E, T) -> bool, value: T): E -> bool
  {
    v => equal(v, value)
  }

  /** `v === value`, the test `Array.prototype.indexOf` applies. */
  function StrictlyEqualTo<T(==)>(value: T): T -> bool
  {
    v => v == value
  }

  /** What `indexOf` counts as a match: `equal(v, value)` when `equal` is a
      function, strict equality otherwise. */
  function Matches<T(==)>(equal: Option<(T, T) -> bool>, v: T, value: T): bool
  {
    match equal
    case Some(f) => f(v, value)
    case None => v == value
  }

  /** `indexOf(array, value, equal)`: with a function `equal`, the first
      index `i` with `equal(array[i], value)`; without one, the first index
      holding `value` itself; -1 when there is no match. */
  function IndexOf<T(==)>(a: seq<T>, value: T, equal: Option<(T, T) -> bool>): (r: int)
    ensures -1 <= r < |a|
    ensures r >= 0 ==> Matches(equal, a[r], value) && forall j :: 0 <= j < r ==> !Matches(equal, a[j], value)
    ensures r == -1 <==> forall j :: 0 <= j < |a| ==> !Matches(equal, a[j], value)
  {
    match equal
    case Some(f) => FindIndex(EqualTo(f, value), a)
    case None => FindIndex(StrictlyEqualTo(value), a)
  }

  /** `contains(array, value, equal)`: `indexOf(...) >= 0`. */
  function Contains<T(==)>(a: seq<T>, value: T, equal: Option<(T, T) -> bool>): (r: bool)
    ensures r <==> exists j :: 0 <= j < |a| && Matches(equal, a[j], value)
  {
    IndexOf(a, value, equal) >= 0
  }

  /** `omits(array, value, equal)`: `indexOf(...) < 0`. */
  function Omits<T(==)>(a: seq<T>, value: T, equal: Option<(T, T) -> bool>): (r: bool)
    ensures r <==> forall j :: 0 <= j < |a| ==> !Matches(equal, a[j], value)
  {
    IndexOf(a, value, equal) < 0
  }

  /** `omits` is exactly the negation of `contains`; without an equality
      function, `contains` is sequence membership. */
  lemma OmitsIsNotContains<T>(a: seq<T>, value: T, equal: Option<(T, T) -> bool>)
    ensures Omits(a, value, equal) == !Contains(a, value, equal)
    ensures equal.None? ==> (Contains(a, value, equal) <==> value in a)
  {
  }
}
