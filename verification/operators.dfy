/** The eager operators of `lib/ix/operators.js`: `first`, `fold`,
    `isEmpty`, `reduce`, `max` and `min`. The copies of `first`, `fold` and
    `reduce` in `lib/interactive.js` and `lazy.js` behave the same and are
    modelled by these functions too. */
module Operators {

  import opened Wrappers

  /** `first(iterable)`: the first element, or `undefined`. */
  function First<T>(s: seq<T>): (r: Option<T>)
    ensures r.None? <==> |s| == 0
    ensures r.Some? ==> r.value == s[0]
  {
    if |s| == 0 then None else Some(s[0])
  }

  /** `isEmpty(iterable)`: whether the first step of the iteration already
      finds nothing. */
  function IsEmpty<T>(s: seq<T>): (r: bool)
    ensures r <==> |s| == 0
  {
    First(s).None?
  }

  /** Appending never changes a first element that already exists. */
  lemma FirstOfAppend<T>(s: seq<T>, t: seq<T>)
    ensures !IsEmpty(s) ==> First(s + t) == First(s)
    ensures IsEmpty(s) ==> First(s + t) == First(t)
  {
    if |s| == 0 {
      assert s + t == t;
    }
  }

  /** `fold(initial)(selector)(iterable)`: a left fold that passes every
      element's index. */
  function Fold<A, T>(init: A, f: (A, T, nat) -> A, s: seq<T>): A
  {
    if |s| == 0 then init else f(Fold(init, f, s[..|s| - 1]), s[|s| - 1], |s| - 1)
  }

  /** The selector seen by the elements of `t` when `t` follows `n` other
      elements: the index is shifted by `n`. */
  function ShiftSelector<A, T>(f: (A, T, nat) -> A, n: nat): (A, T, nat) -> A
  {
    (acc: A, x: T, i: nat) => f(acc, x, i + n)
  }

  /** Folding a concatenation folds the second part from the result of the
      first, with the second part's indices counted from `|s|`. */
  lemma {:induction false} FoldAppend<A, T>(init: A, f: (A, T, nat) -> A, s: seq<T>, t: seq<T>)
    ensures Fold(init, f, s + t) == Fold(Fold(init, f, s), ShiftSelector(f, |s|), t)
    decreases |t|
  {
    if |t| == 0 {
      assert s + t == s;
    } else {
      var n := |t| - 1;
      assert (s + t)[..|s| + n] == s + t[..n];
      FoldAppend(init, f, s, t[..n]);
    }
  }

  /** Folding with a selector from the front: the first element is
      combined first. */
  lemma FoldCons<A, T>(init: A, f: (A, T, nat) -> A, s: seq<T>)
    requires |s| > 0
    ensures Fold(init, f, s) == Fold(f(init, s[0], 0), ShiftSelector(f, 1), s[1..])
  {
    FoldAppend(init, f, [s[0]], s[1..]);
    assert [s[0]] + s[1..] == s;
    assert [s[0]][..0] == [];
  }

  /** `reduce(selector)(iterable)`: `undefined` for no input; otherwise the
      first element, combined with each later one by `selector(result, val, i)`. */
  function Reduce<T>(f: (T, T, nat) -> T, s: seq<T>): (r: Option<T>)
    ensures r.None? <==> |s| == 0
    ensures |s| == 1 ==> r == Some(s[0])
  {
    if |s| == 0 then None
    else if |s| == 1 then Some(s[0])
    else Some(f(Reduce(f, s[..|s| - 1]).value, s[|s| - 1], |s| - 1))
  }

  /** A non-empty `reduce` is the `fold` of the tail seeded with the head,
      the tail's indices counted from 1. */
  lemma {:induction false} ReduceIsFoldOfTail<T>(f: (T, T, nat) -> T, s: seq<T>)
    requires |s| > 0
    ensures Reduce(f, s) == Some(Fold(s[0], ShiftSelector(f, 1), s[1..]))
  {
    if |s| > 1 {
      var n := |s| - 1;
      ReduceIsFoldOfTail(f, s[..n]);
      assert s[..n][1..] == s[1..][..n - 1];
      assert s[..n][0] == s[0];
    } else {
      assert s[1..] == [];
    }
  }

  /** `max`'s selector: the new element replaces the result when the
      result compares below it. */
  function MaxSelector<T>(cmp: (T, T) -> real): (T, T, nat) -> T
  {
    (res: T, val: T, _: nat) => if cmp(res, val) < 0.0 then val else res
  }

  /** `min`'s selector: the new element replaces the result when the
      result compares above it. */
  function MinSelector<T>(cmp: (T, T) -> real): (T, T, nat) -> T
  {
    (res: T, val: T, _: nat) => if cmp(res, val) > 0.0 then val else res
  }

  /** `max(compareFunction)`. */
  function Max<T>(cmp: (T, T) -> real, s: seq<T>): (r: Option<T>)
    ensures r.None? <==> |s| == 0
  {
    Reduce(MaxSelector(cmp), s)
  }

  /** `min(compareFunction)`. */
  function Min<T>(cmp: (T, T) -> real, s: seq<T>): (r: Option<T>)
    ensures r.None? <==> |s| == 0
  {
    Reduce(MinSelector(cmp), s)
  }

  /** `cmp` orders its arguments the way `key` does: negative when the
      first key is smaller, positive when it is larger. */
  ghost predicate ComparesBy<T(!new)>(cmp: (T, T) -> real, key: T -> real)
  {
    forall a, b :: (cmp(a, b) < 0.0 <==> key(a) < key(b)) && (cmp(a, b) > 0.0 <==> key(a) > key(b))
  }

  /** `i` is the first position of a largest key. */
  ghost predicate IsEarliestMaximum<T>(key: T -> real, s: seq<T>, i: int)
  {
    0 <= i < |s| &&
    (forall j :: 0 <= j < |s| ==> key(s[j]) <= key(s[i])) &&
    (forall j :: 0 <= j < i ==> key(s[j]) < key(s[i]))
  }

  /** `i` is the first position of a smallest key. */
  ghost predicate IsEarliestMinimum<T>(key: T -> real, s: seq<T>, i: int)
  {
    0 <= i < |s| &&
    (forall j :: 0 <= j < |s| ==> key(s[i]) <= key(s[j])) &&
    (forall j :: 0 <= j < i ==> key(s[i]) < key(s[j]))
  }

  /** With a comparer that orders by a key, `max` returns the element of
      largest key, and of those the earliest. */
  lemma {:induction false} MaxIsEarliestMaximum<T(!new)>(cmp: (T, T) -> real, key: T -> real, s: seq<T>)
    requires ComparesBy(cmp, key)
    requires |s| > 0
    ensures exists i :: IsEarliestMaximum(key, s, i) && Max(cmp, s) == Some(s[i])
  {
    var n := |s| - 1;
    if n == 0 {
      assert IsEarliestMaximum(key, s, 0);
    } else {
      MaxIsEarliestMaximum(cmp, key, s[..n]);
      var i :| IsEarliestMaximum(key, s[..n], i) && Max(cmp, s[..n]) == Some(s[..n][i]);
      var j := MaxStep(cmp, key, s, i);
    }
  }

  /** One step of `MaxIsEarliestMaximum`: the earliest maximum of `s`
      without its last element stays the result unless the last element
      has a larger key. */
  lemma MaxStep<T(!new)>(cmp: (T, T) -> real, key: T -> real, s: seq<T>, i: nat) returns (j: nat)
    requires ComparesBy(cmp, key)
    requires |s| > 1
    requires IsEarliestMaximum(key, s[..|s| - 1], i) && Max(cmp, s[..|s| - 1]) == Some(s[..|s| - 1][i])
    ensures IsEarliestMaximum(key, s, j) && Max(cmp, s) == Some(s[j])
  {
    var n := |s| - 1;
    assert s[..n][i] == s[i];
    assert Max(cmp, s) == Some(MaxSelector(cmp)(s[i], s[n], n));
    if key(s[i]) < key(s[n]) {
      j := n;
    } else {
      j := i;
    }
  }

  /** With a comparer that orders by a key, `min` returns the element of
      smallest key, and of those the earliest. */
  lemma {:induction false} MinIsEarliestMinimum<T(!new)>(cmp: (T, T) -> real, key: T -> real, s: seq<T>)
    requires ComparesBy(cmp, key)
    requires |s| > 0
    ensures exists i :: IsEarliestMinimum(key, s, i) && Min(cmp, s) == Some(s[i])
  {
    var n := |s| - 1;
    if n == 0 {
      assert IsEarliestMinimum(key, s, 0);
    } else {
      MinIsEarliestMinimum(cmp, key, s[..n]);
      var i :| IsEarliestMinimum(key, s[..n], i) && Min(cmp, s[..n]) == Some(s[..n][i]);
      var j := MinStep(cmp, key, s, i);
    }
  }

  /** One step of `MinIsEarliestMinimum`: the earliest minimum of `s`
      without its last element stays the result unless the last element
      has a smaller key. */
  lemma MinStep<T(!new)>(cmp: (T, T) -> real, key: T -> real, s: seq<T>, i: nat) returns (j: nat)
    requires ComparesBy(cmp, key)
    requires |s| > 1
    requires IsEarliestMinimum(key, s[..|s| - 1], i) && Min(cmp, s[..|s| - 1]) == Some(s[..|s| - 1][i])
    ensures IsEarliestMinimum(key, s, j) && Min(cmp, s) == Some(s[j])
  {
    var n := |s| - 1;
    assert s[..n][i] == s[i];
    assert Min(cmp, s) == Some(MinSelector(cmp)(s[i], s[n], n));
    if key(s[n]) < key(s[i]) {
      j := n;
    } else {
      j := i;
    }
  }
}
