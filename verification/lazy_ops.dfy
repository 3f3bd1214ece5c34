/** The lazy combinators of `lib/ix/operators/lazy.js`.

    Every generator is modelled as a function on a finite sequence that
    yields what the generator yields, in the same order. A generator that
    walks its input with `for (const [val, i] of enumerate(iterable))` is
    modelled by recursion on the input's prefix: the result for `s` is the
    result for `s` without its last element, followed by what the loop body
    yields for that last element. Selectors and predicates receive the
    element and its index, as in the source; the third argument (the
    iterable itself) is not modelled. */
module LazyOps {

  import Arith

  /** `enumerate`: every element paired with its position. */
  function Enumerate<T>(s: seq<T>): (r: seq<(T, nat)>)
    ensures |r| == |s|
    ensures forall i :: 0 <= i < |s| ==> r[i] == (s[i], i)
  {
    if |s| == 0 then [] else Enumerate(s[..|s| - 1]) + [(s[|s| - 1], |s| - 1)]
  }

  /** `filter`: the elements whose predicate holds, in their original order. */
  function Filter<T>(p: (T, nat) -> bool, s: seq<T>): (r: seq<T>)
    ensures |r| <= |s|
  {
    if |s| == 0 then [] else Filter(p, s[..|s| - 1]) + (if p(s[|s| - 1], |s| - 1) then [s[|s| - 1]] else [])
  }

  /** `filter` yields exactly the elements whose predicate holds: each one
      of them, and nothing else. */
  lemma {:induction false} FilterMembers<T>(p: (T, nat) -> bool, s: seq<T>)
    ensures forall i :: 0 <= i < |s| && p(s[i], i) ==> s[i] in Filter(p, s)
    ensures forall x :: x in Filter(p, s) ==> exists i :: 0 <= i < |s| && s[i] == x && p(s[i], i)
  {
    if |s| > 0 {
      var n := |s| - 1;
      FilterMembers(p, s[..n]);
      forall x | x in Filter(p, s[..n])
        ensures exists i :: 0 <= i < |s| && s[i] == x && p(s[i], i)
      {
        var i :| 0 <= i < n && s[..n][i] == x && p(s[..n][i], i);
        assert s[i] == s[..n][i];
      }
      forall i | 0 <= i < n && p(s[i], i) ensures s[i] in Filter(p, s) {
        assert s[..n][i] == s[i];
      }
    }
  }

  /** `filter` looks at each predicate only on the elements it is given. */
  lemma {:induction false} FilterCongruence<T>(p: (T, nat) -> bool, q: (T, nat) -> bool, s: seq<T>)
    requires forall i :: 0 <= i < |s| ==> p(s[i], i) == q(s[i], i)
    ensures Filter(p, s) == Filter(q, s)
  {
    if |s| > 0 {
      FilterCongruence(p, q, s[..|s| - 1]);
    }
  }

  /** The predicate seen by the elements of `t` when `t` follows `n` other
      elements: the index is shifted by `n`. */
  function ShiftIndex<T>(p: (T, nat) -> bool, n: nat): (T, nat) -> bool
  {
    (x, i: nat) => p(x, i + n)
  }

  /** Filtering keeps relative order: filtering a concatenation filters each
      part (the second one with its indices shifted) and concatenates. */
  lemma {:induction false} FilterConcat<T>(p: (T, nat) -> bool, s: seq<T>, t: seq<T>)
    ensures Filter(p, s + t) == Filter(p, s) + Filter(ShiftIndex(p, |s|), t)
    decreases |t|
  {
    if |t| == 0 {
      assert s + t == s;
    } else {
      var n := |t| - 1;
      var q := ShiftIndex(p, |s|);
      assert (s + t)[..|s| + n] == s + t[..n];
      FilterConcat(p, s, t[..n]);
      assert q(t[n], n) == p((s + t)[|s| + n], |s| + n);
    }
  }

  /** `map`: one result per element, `selector(s[i], i)` at position `i`. */
  function Map<T, U>(f: (T, nat) -> U, s: seq<T>): (r: seq<U>)
    ensures |r| == |s|
    ensures forall i :: 0 <= i < |s| ==> r[i] == f(s[i], i)
  {
    if |s| == 0 then [] else Map(f, s[..|s| - 1]) + [f(s[|s| - 1], |s| - 1)]
  }

  /** `flatten`: the inner sequences one after the other. */
  function Flatten<T>(ss: seq<seq<T>>): (r: seq<T>)
  {
    if |ss| == 0 then [] else Flatten(ss[..|ss| - 1]) + ss[|ss| - 1]
  }

  /** Flattening `n` inner sequences of length `m` gives `n * m` elements. */
  lemma {:induction false} FlattenUniformLength<T>(ss: seq<seq<T>>, m: nat)
    requires forall i :: 0 <= i < |ss| ==> |ss[i]| == m
    ensures |Flatten(ss)| == |ss| * m
  {
    if |ss| > 0 {
      var n := |ss| - 1;
      FlattenUniformLength(ss[..n], m);
      assert Flatten(ss) == Flatten(ss[..n]) + ss[n];
      assert |ss| * m == n * m + m;
    }
  }

  /** Flattening inner sequences that all have length `m` puts element `j`
      of inner sequence `i` at position `i * m + j`. */
  lemma {:induction false} FlattenUniformAt<T>(ss: seq<seq<T>>, m: nat, i: nat, j: nat)
    requires forall k :: 0 <= k < |ss| ==> |ss[k]| == m
    requires i < |ss| && j < m
    ensures i * m + j < |Flatten(ss)| && Flatten(ss)[i * m + j] == ss[i][j]
  {
    var n := |ss| - 1;
    var front := ss[..n];
    FlattenUniformLength(front, m);
    var k := i * m + j;
    assert Flatten(ss) == Flatten(front) + ss[n];
    if i < n {
      Arith.MulStrictBound(i, j, m, n);
      FlattenUniformAt(front, m, i, j);
      assert Flatten(ss)[k] == Flatten(front)[k];
    } else {
      assert k == n * m + j;
    }
  }

  /** `flatMap`: `flatten` after `map`. */
  function FlatMap<T, U>(f: (T, nat) -> seq<U>, s: seq<T>): (r: seq<U>)
  {
    Flatten(Map(f, s))
  }

  /** `flatMap` over one more element appends that element's results. */
  lemma FlatMapSnoc<T, U>(f: (T, nat) -> seq<U>, s: seq<T>)
    requires |s| > 0
    ensures FlatMap(f, s) == FlatMap(f, s[..|s| - 1]) + f(s[|s| - 1], |s| - 1)
  {
    assert Map(f, s)[..|s| - 1] == Map(f, s[..|s| - 1]);
  }

  /** When every selector result has length `m` there are `|s| * m` results. */
  lemma FlatMapUniformLength<T, U>(f: (T, nat) -> seq<U>, s: seq<T>, m: nat)
    requires forall i :: 0 <= i < |s| ==> |f(s[i], i)| == m
    ensures |FlatMap(f, s)| == |s| * m
  {
    FlattenUniformLength(Map(f, s), m);
  }

  /** When every selector result has length `m`, element `j` of the result
      for `s[i]` sits at position `i * m + j`: the results are concatenated
      in input order. */
  lemma FlatMapUniformAt<T, U>(f: (T, nat) -> seq<U>, s: seq<T>, m: nat, i: nat, j: nat)
    requires forall k :: 0 <= k < |s| ==> |f(s[k], k)| == m
    requires i < |s| && j < m
    ensures i * m + j < |FlatMap(f, s)| && FlatMap(f, s)[i * m + j] == f(s[i], i)[j]
  {
    FlattenUniformAt(Map(f, s), m, i, j);
  }

  /** Filtering with a predicate and with its negation splits the input:
      the two results together hold every element exactly as often. */
  lemma {:induction false} FilterComplement<T>(p: (T, nat) -> bool, s: seq<T>)
    ensures multiset(Filter(p, s)) + multiset(Filter(Negate(p), s)) == multiset(s)
  {
    if |s| > 0 {
      var n := |s| - 1;
      var prefix, last := s[..n], s[n];
      var keptBefore, droppedBefore := Filter(p, prefix), Filter(Negate(p), prefix);
      FilterComplement(p, prefix);
      SplitSnoc(keptBefore, droppedBefore, prefix, last);
      FilterStep(p, s);
    }
  }

  /** `filter` with a predicate and with its negation each take the last
      element or leave it, and exactly one of them takes it. */
  lemma FilterStep<T>(p: (T, nat) -> bool, s: seq<T>)
    requires |s| > 0
    ensures var n := |s| - 1;
      s == s[..n] + [s[n]] &&
      (p(s[n], n) ==> Filter(p, s) == Filter(p, s[..n]) + [s[n]] && Filter(Negate(p), s) == Filter(Negate(p), s[..n])) &&
      (!p(s[n], n) ==> Filter(p, s) == Filter(p, s[..n]) && Filter(Negate(p), s) == Filter(Negate(p), s[..n]) + [s[n]])
  {
    var n := |s| - 1;
    assert Negate(p)(s[n], n) == !p(s[n], n);
  }

  /** Appending one element to a sequence split in two puts it into one of
      the two parts. */
  lemma SplitSnoc<T>(a: seq<T>, b: seq<T>, whole: seq<T>, x: T)
    requires multiset(a) + multiset(b) == multiset(whole)
    ensures multiset(a + [x]) + multiset(b) == multiset(whole + [x])
    ensures multiset(a) + multiset(b + [x]) == multiset(whole + [x])
  {
  }

  /** `partition(predicate)` with `_not` as intended: the elements the
      predicate accepts, then those it rejects. Each element lands in the
      half its predicate value selects, and the halves hold the input's
      elements exactly as often as the input does. (The order within each
      half is `StrictOps.LazyPartitionIsStrict`.) */
  function Partition<T>(p: (T, nat) -> bool, s: seq<T>): (r: (seq<T>, seq<T>))
    ensures multiset(r.0) + multiset(r.1) == multiset(s)
    ensures forall i :: 0 <= i < |s| && p(s[i], i) ==> s[i] in r.0
    ensures forall i :: 0 <= i < |s| && !p(s[i], i) ==> s[i] in r.1
    ensures forall x :: x in r.0 ==> exists i :: 0 <= i < |s| && s[i] == x && p(s[i], i)
    ensures forall x :: x in r.1 ==> exists i :: 0 <= i < |s| && s[i] == x && !p(s[i], i)
  {
    FilterComplement(p, s);
    FilterMembers(p, s);
    FilterMembers(Negate(p), s);
    (Filter(p, s), Filter(Negate(p), s))
  }

  /** `_not(predicate)` as written: the arrow function it returns has no
      `arguments` of its own, so it negates `predicate` applied to the
      arguments of `_not`, that is `predicate(predicate)`, whatever element
      it is given. That value cannot be formed on `T`, so its truthiness is
      the parameter `selfApplied`. */
  function NotAsWritten<T>(selfApplied: bool): (T, nat) -> bool
  {
    (_, _) => !selfApplied
  }

  /** `partition(predicate)` as written: its second half filters with the
      constant predicate of `NotAsWritten`, so it is all of the input or
      nothing. */
  function PartitionAsWritten<T>(p: (T, nat) -> bool, selfApplied: bool, s: seq<T>): (r: (seq<T>, seq<T>))
    ensures r.1 == if selfApplied then [] else s
  {
    FilterConstant(NotAsWritten(selfApplied), !selfApplied, s);
    (Filter(p, s), Filter(NotAsWritten(selfApplied), s))
  }

  lemma {:induction false} FilterConstant<T>(p: (T, nat) -> bool, c: bool, s: seq<T>)
    requires forall x, i :: p(x, i) == c
    ensures Filter(p, s) == if c then s else []
  {
    if |s| > 0 {
      FilterConstant(p, c, s[..|s| - 1]);
      assert s == s[..|s| - 1] + [s[|s| - 1]];
    }
  }

  function IsPositive(x: int, i: nat): bool
  {
    x > 0
  }

  /** For `x => x > 0` applied to itself (`NaN > 0`, false), the second half
      of `partition` on `[1, -1]` is `[1, -1]` instead of `[-1]`. */
  lemma PartitionAsWrittenKeepsAccepted()
    ensures PartitionAsWritten(IsPositive, false, [1, -1]).1 == [1, -1]
    ensures Partition(IsPositive, [1, -1]).1 == [-1]
  {
    var s := [1, -1];
    assert s[..1] == [1];
    assert [1][..0] == [];
    assert Negate(IsPositive)(1, 0) == false;
    assert Negate(IsPositive)(-1, 1) == true;
  }

  /** `range(from, to, step)`: `from, from + step, ...` while below `to`.
      A non-positive step with `from < to` never terminates in the source. */
  function Range(from: int, to: int, step: int): (r: seq<int>)
    requires step > 0 || from >= to
    ensures from >= to <==> r == []
    ensures forall x :: x in r ==> from <= x < to
    decreases if from < to then to - from else 0
  {
    if from >= to then [] else [from] + Range(from + step, to, step)
  }

  /** Element `i` of `range(from, to, step)` is `from + i * step`, and the
      range stops at the first value that reaches `to`. */
  lemma {:induction false} RangeAt(from: int, to: int, step: int)
    requires step > 0
    ensures forall i :: 0 <= i < |Range(from, to, step)| ==> Range(from, to, step)[i] == from + i * step
    ensures |Range(from, to, step)| > 0 ==> Range(from, to, step)[|Range(from, to, step)| - 1] + step >= to
    decreases if from < to then to - from else 0
  {
    if from < to {
      var r := Range(from, to, step);
      var rest := Range(from + step, to, step);
      RangeAt(from + step, to, step);
      forall i | 0 < i < |r| ensures r[i] == from + i * step {
        assert r[i] == rest[i - 1] == from + step + (i - 1) * step;
      }
    }
  }

  /** With the default step 1, `range(from, to)` is `from .. to - 1`. */
  lemma UnitRange(from: int, to: int)
    ensures |Range(from, to, 1)| == if from < to then to - from else 0
    ensures forall i :: 0 <= i < |Range(from, to, 1)| ==> Range(from, to, 1)[i] == from + i
  {
    RangeAt(from, to, 1);
    var r := Range(from, to, 1);
    if from < to {
      assert r[|r| - 1] in r;
    }
  }

  /** `scan`: `selector(previous, current, i - 1)` for each adjacent pair. */
  function Scan<T, U>(f: (T, T, nat) -> U, s: seq<T>): (r: seq<U>)
    ensures |r| == if |s| == 0 then 0 else |s| - 1
    ensures forall i :: 0 <= i < |r| ==> r[i] == f(s[i], s[i + 1], i)
  {
    if |s| <= 1 then [] else Scan(f, s[..|s| - 1]) + [f(s[|s| - 2], s[|s| - 1], |s| - 2)]
  }

  /** `skipWhile`: drops EVERY element whose predicate holds (the loop
      `continue`s instead of stopping), so it keeps exactly the elements
      `filter` would keep for the negated predicate. */
  function SkipWhile<T>(p: (T, nat) -> bool, s: seq<T>): (r: seq<T>)
    ensures |r| <= |s|
    ensures forall i :: 0 <= i < |s| && !p(s[i], i) ==> s[i] in r
  {
    if |s| == 0 then []
    else
      var n := |s| - 1;
      SkipWhile(p, s[..n]) + (if p(s[n], n) then [] else [s[n]])
  }

  lemma {:induction false} SkipWhileIsFilter<T>(p: (T, nat) -> bool, s: seq<T>)
    ensures SkipWhile(p, s) == Filter(Negate(p), s)
  {
    if |s| > 0 {
      SkipWhileIsFilter(p, s[..|s| - 1]);
    }
  }

  /** The negation of an element predicate. */
  function Negate<T>(p: (T, nat) -> bool): (T, nat) -> bool
  {
    (x, i: nat) => !p(x, i)
  }

  /** `takeWhile`: the longest prefix whose elements all satisfy the predicate. */
  function TakeWhile<T>(p: (T, nat) -> bool, s: seq<T>): (r: seq<T>)
    ensures |r| <= |s| && r == s[..|r|]
    ensures forall i :: 0 <= i < |r| ==> p(s[i], i)
    ensures |r| < |s| ==> !p(s[|r|], |r|)
  {
    if |s| == 0 then []
    else
      var n := |s| - 1;
      var r := TakeWhile(p, s[..n]);
      if |r| == n && p(s[n], n) then r + [s[n]] else r
  }

  /** The predicate `(_, i) => i < count` of `take` and `skip`. */
  function IndexBelow<T>(count: int): (T, nat) -> bool
  {
    (_, i: nat) => i < count
  }

  /** `count` clamped to the length of `s`. */
  function Clamp<T>(count: int, s: seq<T>): (k: nat)
  {
    if count <= 0 then 0 else if count < |s| then count else |s|
  }

  /** `take(count)`: the first `min(count, |s|)` elements. */
  function Take<T>(count: int, s: seq<T>): (r: seq<T>)
    ensures r == s[..Clamp(count, s)]
  {
    TakeBelow(count, s);
    TakeWhile(IndexBelow(count), s)
  }

  lemma TakeBelow<T>(count: int, s: seq<T>)
    ensures TakeWhile(IndexBelow(count), s) == s[..Clamp(count, s)]
  {
  }

  /** `skip(count)`: everything after the first `min(count, |s|)` elements. */
  function Skip<T>(count: int, s: seq<T>): (r: seq<T>)
    ensures r == s[Clamp(count, s)..]
  {
    SkipBelow(count, s);
    SkipWhile(IndexBelow(count), s)
  }

  lemma {:induction false} SkipBelow<T>(count: int, s: seq<T>)
    ensures SkipWhile(IndexBelow(count), s) == s[Clamp(count, s)..]
  {
    if |s| > 0 {
      var n := |s| - 1;
      var q := IndexBelow<T>(count);
      SkipBelow(count, s[..n]);
      assert SkipWhile(q, s) == SkipWhile(q, s[..n]) + (if q(s[n], n) then [] else [s[n]]);
      ClampedSuffixStep(count, s);
    }
  }

  /** The clamped suffix of `s` is that of `s` without its last element,
      plus the last element when its index is not below `count`. */
  lemma ClampedSuffixStep<T>(count: int, s: seq<T>)
    requires |s| > 0
    ensures s[Clamp(count, s)..] ==
      s[..|s| - 1][Clamp(count, s[..|s| - 1])..] + (if |s| - 1 < count then [] else [s[|s| - 1]])
  {
    var n := |s| - 1;
    if n >= count {
      var c := Clamp(count, s);
      assert c == Clamp(count, s[..n]) && c <= n;
      assert s[c..] == s[c..n] + [s[n]];
    }
  }

  /** `take(n)` followed by `skip(n)` gives back the input. */
  lemma TakeSkip<T>(count: int, s: seq<T>)
    ensures Take(count, s) + Skip(count, s) == s
  {
  }

  /** Length of the shortest input. */
  function MinLength<T>(ss: seq<seq<T>>): (m: nat)
    requires |ss| > 0
    ensures forall j :: 0 <= j < |ss| ==> m <= |ss[j]|
    ensures exists j :: 0 <= j < |ss| && m == |ss[j]|
  {
    if |ss| == 1 then |ss[0]|
    else
      var m' := MinLength(ss[1..]);
      var j :| 0 <= j < |ss[1..]| && m' == |ss[1..][j]|;
      assert ss[1..][j] == ss[j + 1];
      if |ss[0]| <= m' then |ss[0]| else m'
  }

  /** The `k`-th element of every input, as one tuple. */
  function Column<T>(ss: seq<seq<T>>, k: nat): (t: seq<T>)
    requires forall j :: 0 <= j < |ss| ==> k < |ss[j]|
  {
    seq(|ss|, j requires 0 <= j < |ss| => ss[j][k])
  }

  /** `zip` from position `k` on: stops as soon as one input is exhausted. */
  function ZipFrom<T>(ss: seq<seq<T>>, k: nat): (r: seq<seq<T>>)
    requires |ss| > 0
    ensures |r| == if k < MinLength(ss) then MinLength(ss) - k else 0
    ensures forall i :: 0 <= i < |r| ==> r[i] == Column(ss, k + i)
    decreases MinLength(ss) - k
  {
    if k >= MinLength(ss) then [] else [Column(ss, k)] + ZipFrom(ss, k + 1)
  }

  /** `zip(...iterables)`: tuple `k` holds the `k`-th element of each input,
      and there are as many tuples as the shortest input has elements. With
      no input at all the source generator never stops, so at least one
      input is required. */
  function Zip<T>(ss: seq<seq<T>>): (r: seq<seq<T>>)
    requires |ss| > 0
    ensures |r| == MinLength(ss)
    ensures forall j :: 0 <= j < |ss| ==> |r| <= |ss[j]|
    ensures forall k, j :: 0 <= k < |r| && 0 <= j < |ss| ==> |r[k]| == |ss| && r[k][j] == ss[j][k]
  {
    ZipFrom(ss, 0)
  }

  /** `zipWith(selector)`: `selector` applied to every tuple of `zip`, with its index. */
  function ZipWith<T, U>(f: (seq<T>, nat) -> U, ss: seq<seq<T>>): (r: seq<U>)
    requires |ss| > 0
    ensures |r| == MinLength(ss)
    ensures forall k :: 0 <= k < |r| ==> r[k] == f(Column(ss, k), k)
  {
    Map(f, Zip(ss))
  }

  /** `v => [v]`, the wrapping `product` applies to every input first. */
  function Singleton<T>(v: T, i: nat): seq<T>
  {
    [v]
  }

  /** Product of the input lengths. */
  function LengthProduct<T>(ss: seq<seq<T>>): nat
  {
    if |ss| == 0 then 1 else |ss[0]| * LengthProduct(ss[1..])
  }

  /** The selector `product` flat-maps over the outer input: every tuple of
      the inner product, prefixed with the outer value. */
  function Prefixing<T>(inner: seq<seq<T>>): (seq<T>, nat) -> seq<seq<T>>
  {
    (outer: seq<T>, _) => Map((t: seq<T>, _) => outer + t, inner)
  }

  /** What `Prefixing(inner)` yields for one outer value. */
  lemma PrefixingAt<T>(inner: seq<seq<T>>, outer: seq<T>, i: nat)
    ensures |Prefixing(inner)(outer, i)| == |inner|
    ensures forall j :: 0 <= j < |inner| ==> Prefixing(inner)(outer, i)[j] == outer + inner[j]
  {
  }

  /** `product(...iterables)`: the Cartesian product, folded from the right,
      so the first input varies slowest. `reduceRight` without a seed
      throws on no input, so at least one input is required. */
  function Product<T>(ss: seq<seq<T>>): (r: seq<seq<T>>)
    requires |ss| > 0
    ensures |r| == LengthProduct(ss)
    ensures forall p :: 0 <= p < |r| ==> |r[p]| == |ss|
    decreases |ss|
  {
    var wrapped := Map(Singleton, ss[0]);
    if |ss| == 1 then wrapped
    else
      var inner := Product(ss[1..]);
      ProductStep(wrapped, inner, |ss|);
      FlatMap(Prefixing(inner), wrapped)
  }

  /** Every outer value yields one tuple per inner tuple. */
  lemma PrefixingUniform<T>(inner: seq<seq<T>>, wrapped: seq<seq<T>>)
    ensures forall k :: 0 <= k < |wrapped| ==> |Prefixing(inner)(wrapped[k], k)| == |inner|
  {
    forall k | 0 <= k < |wrapped| ensures |Prefixing(inner)(wrapped[k], k)| == |inner| {
      PrefixingAt(inner, wrapped[k], k);
    }
  }

  /** Tuple `i * |inner| + j` of one `product` step is outer value `i`
      followed by inner tuple `j`. */
  lemma PrefixingFlatAt<T>(inner: seq<seq<T>>, wrapped: seq<seq<T>>, i: nat, j: nat)
    requires i < |wrapped| && j < |inner|
    ensures i * |inner| + j < |FlatMap(Prefixing(inner), wrapped)|
    ensures FlatMap(Prefixing(inner), wrapped)[i * |inner| + j] == wrapped[i] + inner[j]
  {
    PrefixingUniform(inner, wrapped);
    FlatMapUniformAt(Prefixing(inner), wrapped, |inner|, i, j);
    PrefixingAt(inner, wrapped[i], i);
  }

  /** One step of `product`: prefixing every inner tuple (of length `n - 1`)
      with every wrapped outer value gives `|wrapped| * |inner|` tuples of
      length `n`. */
  lemma ProductStep<T>(wrapped: seq<seq<T>>, inner: seq<seq<T>>, n: nat)
    requires forall i :: 0 <= i < |wrapped| ==> |wrapped[i]| == 1
    requires forall p :: 0 <= p < |inner| ==> |inner[p]| == n - 1
    ensures |FlatMap(Prefixing(inner), wrapped)| == |wrapped| * |inner|
    ensures forall p :: 0 <= p < |FlatMap(Prefixing(inner), wrapped)| ==> |FlatMap(Prefixing(inner), wrapped)[p]| == n
  {
    var m := |inner|;
    PrefixingUniform(inner, wrapped);
    FlatMapUniformLength(Prefixing(inner), wrapped, m);
    var r := FlatMap(Prefixing(inner), wrapped);
    forall p | 0 <= p < |r| ensures |r[p]| == n {
      Arith.DivBound(p, m, |wrapped|);
      PrefixingFlatAt(inner, wrapped, p / m, p % m);
    }
  }

  /** Row-major order: the first input varies slowest. Tuple
      `i * |inner| + j` of the product is the `i`-th element of the first
      input followed by tuple `j` of the product of the remaining inputs. */
  lemma ProductRowMajor<T>(ss: seq<seq<T>>, i: nat, j: nat)
    requires |ss| > 1
    requires i < |ss[0]| && j < |Product(ss[1..])|
    ensures i * |Product(ss[1..])| + j < |Product(ss)|
    ensures Product(ss)[i * |Product(ss[1..])| + j] == [ss[0][i]] + Product(ss[1..])[j]
  {
    PrefixingFlatAt(Product(ss[1..]), Map(Singleton, ss[0]), i, j);
  }

  /** The two-input product used to walk an image: `|a| * |b|` pairs, and
      pair `k` is `[a[k / |b|], b[k % |b|]]`. */
  lemma Product2<T>(a: seq<T>, b: seq<T>)
    ensures |Product([a, b])| == |a| * |b|
    ensures forall k :: 0 <= k < |Product([a, b])| ==>
      0 <= k / |b| < |a| && 0 <= k % |b| < |b| && Product([a, b])[k] == [a[k / |b|], b[k % |b|]]
  {
    Product2Length(a, b);
    forall k | 0 <= k < |Product([a, b])|
      ensures 0 <= k / |b| < |a| && 0 <= k % |b| < |b| && Product([a, b])[k] == [a[k / |b|], b[k % |b|]]
    {
      Product2At(a, b, k);
    }
  }

  lemma Product2Length<T>(a: seq<T>, b: seq<T>)
    ensures [a, b][1..] == [b] && |Product([b])| == |b|
    ensures |Product([a, b])| == |a| * |b|
  {
    var ss := [a, b];
    assert ss[1..] == [b];
    assert LengthProduct(ss) == |a| * LengthProduct([b]);
  }

  /** Pair `k` of the two-input product, on its own. */
  lemma Product2At<T>(a: seq<T>, b: seq<T>, k: nat)
    requires k < |a| * |b|
    ensures 0 <= k / |b| < |a| && 0 <= k % |b| < |b|
    ensures |Product([a, b])| == |a| * |b| && Product([a, b])[k] == [a[k / |b|], b[k % |b|]]
  {
    Product2Length(a, b);
    var i, j := k / |b|, k % |b|;
    Arith.DivBound(k, |b|, |a|);
    ProductRowMajor([a, b], i, j);
    assert Product([b])[j] == [b[j]];
  }
}
