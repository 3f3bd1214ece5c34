/** `lib/vector.js`: component-wise arithmetic on arrays of numbers.
    JavaScript numbers are modelled as reals. `lengthOf` and `distanceOf`
    take a square root; the model keeps the squared quantities, and the
    `Root*` lemmas show that every comparison the source makes on a root
    can be made on the square instead. */
module Vector {

  import Operators
  import LazyOps

  /** An array of numbers. */
  type Vec = seq<real>

  /** `differenceOf(lhs, rhs)`: `lhs[i] - rhs[i]` for every index of `lhs`.
      A shorter `rhs` would make a component `NaN`, so it is excluded. */
  function DifferenceOf(lhs: Vec, rhs: Vec): (r: Vec)
    requires |lhs| <= |rhs|
    ensures |r| == |lhs|
    ensures forall i :: 0 <= i < |r| ==> r[i] == lhs[i] - rhs[i]
  {
    seq(|lhs|, i requires 0 <= i < |lhs| => lhs[i] - rhs[i])
  }

  /** `sumOf(lhs, rhs)`: `lhs[i] + rhs[i]` for every index of `lhs`. */
  function SumOf(lhs: Vec, rhs: Vec): (r: Vec)
    requires |lhs| <= |rhs|
    ensures |r| == |lhs|
    ensures forall i :: 0 <= i < |r| ==> r[i] == lhs[i] + rhs[i]
  {
    seq(|lhs|, i requires 0 <= i < |lhs| => lhs[i] + rhs[i])
  }

  /** `uniformScale(vec, scale)`: every component multiplied by `scale`. */
  function UniformScale(vec: Vec, scale: real): (r: Vec)
    ensures |r| == |vec|
    ensures forall i :: 0 <= i < |r| ==> r[i] == vec[i] * scale
  {
    seq(|vec|, i requires 0 <= i < |vec| => vec[i] * scale)
  }

  /** The selector of `_sum = fold(0)((sum, val) => sum + val)`. */
  function AddTo(sum: real, v: real, i: nat): real
  {
    sum + v
  }

  /** The selector `(v, i) => v * rhs[i]` that `dot` maps over `lhs`. */
  function TimesComponentOf(rhs: Vec): (real, nat) -> real
  {
    (v: real, i: nat) => if i < |rhs| then v * rhs[i] else 0.0
  }

  /** `dot(lhs, rhs)`: the sum of the component products, as the source
      computes it — a `map` followed by a `fold` from 0. */
  function Dot(lhs: Vec, rhs: Vec): real
    requires |lhs| <= |rhs|
  {
    Operators.Fold(0.0, AddTo, LazyOps.Map(TimesComponentOf(rhs), lhs))
  }

  /** `dot` adds the product of the last components to the dot product of
      the rest. */
  lemma DotSnoc(lhs: Vec, rhs: Vec)
    requires 0 < |lhs| <= |rhs|
    ensures Dot(lhs, rhs) == Dot(lhs[..|lhs| - 1], rhs) + lhs[|lhs| - 1] * rhs[|lhs| - 1]
  {
    var n := |lhs| - 1;
    var products := LazyOps.Map(TimesComponentOf(rhs), lhs);
    assert products[..n] == LazyOps.Map(TimesComponentOf(rhs), lhs[..n]);
  }

  /** Two dot products with the same component products are equal. */
  lemma {:induction false} DotCongruence(a: Vec, b: Vec, c: Vec, d: Vec)
    requires |a| <= |b| && |c| <= |d| && |a| == |c|
    requires forall i :: 0 <= i < |a| ==> a[i] * b[i] == c[i] * d[i]
    ensures Dot(a, b) == Dot(c, d)
  {
    if |a| > 0 {
      var n := |a| - 1;
      DotSnoc(a, b);
      DotSnoc(c, d);
      DotCongruence(a[..n], b, c[..n], d);
    }
  }

  /** `dot` is symmetric. */
  lemma DotSymmetric(a: Vec, b: Vec)
    requires |a| == |b|
    ensures Dot(a, b) == Dot(b, a)
  {
    DotCongruence(a, b, b, a);
  }

  /** `squaredLengthOf(vec)`: the dot product of `vec` with itself. */
  function SquaredLengthOf(vec: Vec): real
  {
    Dot(vec, vec)
  }

  /** The squared length grows by the square of each added component. */
  lemma SquaredLengthSnoc(vec: Vec)
    requires |vec| > 0
    ensures SquaredLengthOf(vec) == SquaredLengthOf(vec[..|vec| - 1]) + vec[|vec| - 1] * vec[|vec| - 1]
  {
    var n := |vec| - 1;
    DotSnoc(vec, vec);
    DotCongruence(vec[..n], vec, vec[..n], vec[..n]);
  }

  /** The squared length is never negative, and it is zero exactly for the
      zero vector. */
  lemma {:induction false} SquaredLengthNonNegative(vec: Vec)
    ensures SquaredLengthOf(vec) >= 0.0
    ensures SquaredLengthOf(vec) == 0.0 <==> forall i :: 0 <= i < |vec| ==> vec[i] == 0.0
  {
    if |vec| > 0 {
      var n := |vec| - 1;
      var prefix, last := vec[..n], vec[n];
      var rest, square := SquaredLengthOf(prefix), last * last;
      assert SquaredLengthOf(vec) == rest + square by {
        SquaredLengthSnoc(vec);
      }
      SquaredLengthNonNegative(prefix);
      SquareNonNegative(last, square);
      assert forall i :: 0 <= i < n ==> prefix[i] == vec[i];
      if SquaredLengthOf(vec) == 0.0 {
        forall i | 0 <= i < |vec| ensures vec[i] == 0.0 {
          if i < n {
            assert prefix[i] == 0.0;
          }
        }
      }
    }
  }

  /** A square is never negative, and it is zero only for zero. */
  lemma SquareNonNegative(x: real, square: real)
    requires square == x * x
    ensures square >= 0.0
    ensures square == 0.0 <==> x == 0.0
  {
    if x > 0.0 {
      ProductPositive(x, x, square);
    } else if x < 0.0 {
      assert (-x) * (-x) == square;
      ProductPositive(-x, -x, square);
    }
  }

  /** `MulPositive` with the product named, which keeps the solver from
      rewriting squares. */
  lemma ProductPositive(x: real, y: real, product: real)
    requires x > 0.0 && y > 0.0 && product == x * y
    ensures product > 0.0
  {
  }

  /** Components whose squares stay below `m` give a squared length of at
      most `|vec| * m`. */
  lemma {:induction false} SquaredLengthBound(vec: Vec, m: real)
    requires forall i :: 0 <= i < |vec| ==> vec[i] * vec[i] <= m
    ensures SquaredLengthOf(vec) <= |vec| as real * m
  {
    if |vec| > 0 {
      var n := |vec| - 1;
      var prefix := vec[..n];
      assert SquaredLengthOf(vec) == SquaredLengthOf(prefix) + vec[n] * vec[n] by {
        SquaredLengthSnoc(vec);
      }
      assert forall i :: 0 <= i < n ==> prefix[i] == vec[i];
      SquaredLengthBound(prefix, m);
      assert n as real * m + m == |vec| as real * m;
    }
  }

  /** The squared distance that `distanceOf(lhs, rhs)` takes the root of. */
  function SquaredDistanceOf(lhs: Vec, rhs: Vec): real
    requires |lhs| <= |rhs|
  {
    SquaredLengthOf(DifferenceOf(lhs, rhs))
  }

  /** The distance is symmetric, and it is zero exactly between equal
      vectors. */
  lemma SquaredDistanceMetric(lhs: Vec, rhs: Vec)
    requires |lhs| == |rhs|
    ensures SquaredDistanceOf(lhs, rhs) == SquaredDistanceOf(rhs, lhs)
    ensures SquaredDistanceOf(lhs, rhs) >= 0.0
    ensures SquaredDistanceOf(lhs, rhs) == 0.0 <==> lhs == rhs
  {
    var d, e := DifferenceOf(lhs, rhs), DifferenceOf(rhs, lhs);
    DotCongruence(d, d, e, e);
    SquaredLengthNonNegative(d);
    if SquaredDistanceOf(lhs, rhs) == 0.0 {
      assert forall i :: 0 <= i < |lhs| ==> lhs[i] == rhs[i] by {
        forall i | 0 <= i < |lhs| ensures lhs[i] == rhs[i] {
          assert d[i] == 0.0;
        }
      }
    }
  }

  /** Adding the difference `b - a` to `a` gives `b` back. */
  lemma SumOfDifference(a: Vec, b: Vec)
    requires |a| == |b|
    ensures SumOf(a, DifferenceOf(b, a)) == b
  {
  }

  /** The difference of a vector with itself is zero everywhere, and `sumOf`
      is commutative. */
  lemma DifferenceSelfAndSumCommutes(a: Vec, b: Vec)
    requires |a| == |b|
    ensures forall i :: 0 <= i < |a| ==> DifferenceOf(a, a)[i] == 0.0
    ensures SumOf(a, b) == SumOf(b, a)
  {
  }

  /** Scaling by 1 changes nothing; scaling by 0 gives the zero vector. */
  lemma UniformScaleIdentity(vec: Vec)
    ensures UniformScale(vec, 1.0) == vec
    ensures SquaredLengthOf(UniformScale(vec, 0.0)) == 0.0
  {
    SquaredLengthNonNegative(UniformScale(vec, 0.0));
  }

  /** For a root `d` of `n` and a root `e` of `m` (non-negative numbers whose
      squares are `n` and `m`), `d` lies at or below a bound `t` exactly when
      `t` is non-negative and `n` lies at or below `t * t`; likewise for the
      strict comparison; and `d < e` exactly when `n < m`. So every test the
      source performs on `Math.sqrt` of a squared length can be performed on
      the squared length itself. */
  lemma RootCompare(d: real, n: real, e: real, m: real, t: real)
    requires d >= 0.0 && d * d == n
    requires e >= 0.0 && e * e == m
    ensures d <= t <==> 0.0 <= t && n <= t * t
    ensures d < t <==> 0.0 < t && n < t * t
    ensures d < e <==> n < m
  {
    if 0.0 <= t {
      SquareMonotone(d, t);
      SquareMonotone(t, d);
    }
    SquareMonotone(d, e);
    SquareMonotone(e, d);
  }

  /** Squaring is strictly increasing on the non-negative numbers. */
  lemma SquareMonotone(x: real, y: real)
    requires 0.0 <= x && 0.0 <= y
    ensures x < y ==> x * x < y * y
  {
    if x < y {
      assert y * y - x * x == (y - x) * (y + x);
      MulPositive(y - x, y + x);
    }
  }

  lemma MulPositive(x: real, y: real)
    requires x > 0.0 && y > 0.0
    ensures x * y > 0.0
  {
  }

  /** Dividing by a positive number keeps the comparison with a bound. */
  lemma DivBelow(a: real, b: real, t: real)
    requires b > 0.0
    ensures a / b < t <==> a < t * b
  {
    var r := a / b;
    assert r * b == a;
    assert t * b - r * b == (t - r) * b;
    if r < t {
      MulPositive(t - r, b);
    } else if r > t {
      MulPositive(r - t, b);
    }
  }
}
