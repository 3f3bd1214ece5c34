/** The eager combinators of `lib/ix/operators/strict.js`: `partition`,
    `binarySearchIndex` and the bounded insertion sort `partialSort`.

    Comparers return a number whose sign orders their two arguments; they
    are modelled as functions into `real`. */
module StrictOps {

  import LazyOps

  /** `partition(predicate)`: one pass that pushes every element onto
      `ts` when the predicate holds and onto `fs` otherwise. */
  function Partition<T>(p: (T, nat) -> bool, s: seq<T>): (r: (seq<T>, seq<T>))
    ensures |r.0| + |r.1| == |s|
  {
    if |s| == 0 then ([], [])
    else
      var n := |s| - 1;
      var halves := Partition(p, s[..n]);
      assert s == s[..n] + [s[n]];
      if p(s[n], n) then (halves.0 + [s[n]], halves.1) else (halves.0, halves.1 + [s[n]])
  }

  /** The halves of `partition` are what `filter` keeps for the predicate
      and for its negation, so each keeps its elements in input order. */
  lemma {:induction false} PartitionIsFilter<T>(p: (T, nat) -> bool, s: seq<T>)
    ensures Partition(p, s).0 == LazyOps.Filter(p, s)
    ensures Partition(p, s).1 == LazyOps.Filter(LazyOps.Negate(p), s)
  {
    if |s| > 0 {
      var n := |s| - 1;
      var prefix, last := s[..n], s[n];
      var halves := Partition(p, prefix);
      PartitionIsFilter(p, prefix);
      var kept := if p(last, n) then [last] else [];
      var dropped := if p(last, n) then [] else [last];
      assert LazyOps.Filter(p, s) == LazyOps.Filter(p, prefix) + kept;
      assert LazyOps.Negate(p)(last, n) == !p(last, n);
      assert LazyOps.Filter(LazyOps.Negate(p), s) == LazyOps.Filter(LazyOps.Negate(p), prefix) + dropped;
      if p(last, n) {
        assert Partition(p, s) == (halves.0 + [last], halves.1);
        assert halves.1 + dropped == halves.1;
      } else {
        assert Partition(p, s) == (halves.0, halves.1 + [last]);
        assert halves.0 + kept == halves.0;
      }
    }
  }

  /** The lazy `partition` of `lib/ix/operators/lazy.js`, with `_not` as
      intended, and the strict one of `lib/ix/operators/strict.js` build the
      same two halves, in the same order. */
  lemma LazyPartitionIsStrict<T>(p: (T, nat) -> bool, s: seq<T>)
    ensures LazyOps.Partition(p, s) == Partition(p, s)
  {
    PartitionIsFilter(p, s);
  }

  /** Together the two halves of `partition` hold every input element
      exactly as often as the input does. */
  lemma PartitionPermutes<T>(p: (T, nat) -> bool, s: seq<T>)
    ensures multiset(Partition(p, s).0) + multiset(Partition(p, s).1) == multiset(s)
  {
    PartitionIsFilter(p, s);
    LazyOps.FilterComplement(p, s);
  }

  /** The element seen by `binarySearchIndex` at the middle of
      `[start, end)`: `Math.floor((start + end) / 2)`. */
  function Middle(start: nat, end: nat): (m: nat)
    requires start < end
    ensures start <= m < end
  {
    (start + end) / 2
  }

  /** The `while` loop of `binarySearchIndex` on the interval
      `[start, end)`: returns the middle index as soon as the comparer
      answers 0, otherwise halves the interval, and returns `start` once
      the interval is empty. */
  function SearchBetween<T>(cmp: (T, T) -> real, a: seq<T>, v: T, start: nat, end: nat): (r: nat)
    requires start <= end <= |a|
    ensures start <= r <= end
    decreases end - start
  {
    if start >= end then start
    else
      var middle := Middle(start, end);
      var ordering := cmp(v, a[middle]);
      if ordering == 0.0 then middle
      else if ordering < 0.0 then SearchBetween(cmp, a, v, start, middle)
      else SearchBetween(cmp, a, v, middle + 1, end)
  }

  /** `binarySearchIndex(comparer)(array)(value)`: always an index in
      `[0, |array|]`. */
  function BinarySearchIndex<T>(cmp: (T, T) -> real, a: seq<T>, v: T): (r: nat)
    ensures r <= |a|
  {
    SearchBetween(cmp, a, v, 0, |a|)
  }

  /** `a` is sorted as far as `v` can tell: along the array, the elements
      `v` compares greater than come first and those `v` compares less than
      come last. */
  ghost predicate SortedAround<T>(cmp: (T, T) -> real, a: seq<T>, v: T)
  {
    forall i, j :: 0 <= i < j < |a| ==>
      (cmp(v, a[i]) < 0.0 ==> cmp(v, a[j]) < 0.0) && (cmp(v, a[j]) > 0.0 ==> cmp(v, a[i]) > 0.0)
  }

  lemma {:induction false} SearchBetweenSplits<T>(cmp: (T, T) -> real, a: seq<T>, v: T, start: nat, end: nat)
    requires start <= end <= |a|
    requires SortedAround(cmp, a, v)
    ensures forall i :: start <= i < SearchBetween(cmp, a, v, start, end) ==> cmp(v, a[i]) >= 0.0
    ensures forall i :: SearchBetween(cmp, a, v, start, end) <= i < end ==> cmp(v, a[i]) <= 0.0
    decreases end - start
  {
    if start < end {
      var middle := Middle(start, end);
      var ordering := cmp(v, a[middle]);
      if ordering < 0.0 {
        SearchBetweenSplits(cmp, a, v, start, middle);
      } else if ordering > 0.0 {
        SearchBetweenSplits(cmp, a, v, middle + 1, end);
      }
    }
  }

  /** On an array sorted as far as `value` can tell, the index returned is
      an insertion point: `value` compares at least equal to everything
      before it and at most equal to everything from it on. */
  lemma InsertionPoint<T>(cmp: (T, T) -> real, a: seq<T>, v: T)
    requires SortedAround(cmp, a, v)
    ensures forall i :: 0 <= i < BinarySearchIndex(cmp, a, v) ==> cmp(v, a[i]) >= 0.0
    ensures forall i :: BinarySearchIndex(cmp, a, v) <= i < |a| ==> cmp(v, a[i]) <= 0.0
  {
    SearchBetweenSplits(cmp, a, v, 0, |a|);
  }

  /** The comparer `partialSort` searches with: the difference of the two
      keys (the default `numberComparer` applied to the selected keys). */
  function KeyOrder<T>(key: T -> real): (T, T) -> real
  {
    (lhs: T, rhs: T) => key(lhs) - key(rhs)
  }

  /** Keys never decrease along `s`. */
  ghost predicate SortedBy<T>(key: T -> real, s: seq<T>)
  {
    forall i, j :: 0 <= i < j < |s| ==> key(s[i]) <= key(s[j])
  }

  /** The buffer after `sorted.splice(indexOf(sorted)(value), 0, value)`. */
  function Splice<T>(key: T -> real, sorted: seq<T>, x: T): (r: seq<T>)
    ensures |r| == |sorted| + 1
  {
    var i := BinarySearchIndex(KeyOrder(key), sorted, x);
    sorted[..i] + [x] + sorted[i..]
  }

  /** One iteration of `partialSort`: `splice` the value in at its binary
      search index, then `pop` the last element if the buffer grew past
      `sortLength`. */
  function PartialSortStep<T>(key: T -> real, k: int, sorted: seq<T>, x: T): (r: seq<T>)
    ensures |r| == if |sorted| + 1 > k then |sorted| else |sorted| + 1
  {
    var spliced := Splice(key, sorted, x);
    if |spliced| > k then spliced[..|spliced| - 1] else spliced
  }

  /** `partialSort(keySelector)(sortLength)(array)`: the buffer after every
      element has been processed. It holds `min(sortLength, |array|)`
      elements (none for a non-positive length). */
  function PartialSort<T>(key: T -> real, k: int, s: seq<T>): (r: seq<T>)
    ensures |r| == if k <= 0 then 0 else if k < |s| then k else |s|
  {
    if |s| == 0 then []
    else PartialSortStep(key, k, PartialSort(key, k, s[..|s| - 1]), s[|s| - 1])
  }

  /** A buffer sorted by key is sorted around any value for `KeyOrder`. */
  lemma SortedByAround<T>(key: T -> real, a: seq<T>, v: T)
    requires SortedBy(key, a)
    ensures SortedAround(KeyOrder(key), a, v)
  {
  }

  /** Where `splice` puts things: the buffer before the insertion point,
      then the value, then the rest of the buffer, with the value's key
      between the keys on either side. */
  lemma SpliceLayout<T>(key: T -> real, sorted: seq<T>, x: T) returns (i: nat)
    requires SortedBy(key, sorted)
    ensures i <= |sorted| && Splice(key, sorted, x)[i] == x
    ensures forall p :: 0 <= p < i ==> Splice(key, sorted, x)[p] == sorted[p] && key(sorted[p]) <= key(x)
    ensures forall p :: i < p <= |sorted| ==> Splice(key, sorted, x)[p] == sorted[p - 1] && key(x) <= key(sorted[p - 1])
  {
    var cmp := KeyOrder(key);
    i := BinarySearchIndex(cmp, sorted, x);
    SortedByAround(key, sorted, x);
    InsertionPoint(cmp, sorted, x);
  }

  /** Splicing a value in at its binary search index keeps a sorted buffer
      sorted. */
  lemma SpliceSorted<T>(key: T -> real, sorted: seq<T>, x: T)
    requires SortedBy(key, sorted)
    ensures SortedBy(key, Splice(key, sorted, x))
  {
    var i := SpliceLayout(key, sorted, x);
    var spliced := Splice(key, sorted, x);
    forall p, q | 0 <= p < q < |spliced| ensures key(spliced[p]) <= key(spliced[q]) {
      if q < i || p > i {
        assert key(sorted[if p < i then p else p - 1]) <= key(sorted[if q < i then q else q - 1]);
      }
    }
  }

  /** The spliced buffer holds the old one plus the value. */
  lemma SpliceMultiset<T>(key: T -> real, sorted: seq<T>, x: T)
    ensures multiset(Splice(key, sorted, x)) == multiset(sorted) + multiset{x}
  {
    var i := BinarySearchIndex(KeyOrder(key), sorted, x);
    assert sorted == sorted[..i] + sorted[i..];
  }

  /** The last element of the spliced buffer is the old last element,
      unless the value went to the end. */
  lemma SpliceLast<T>(key: T -> real, sorted: seq<T>, x: T)
    ensures Splice(key, sorted, x)[..|sorted|] == sorted ||
      Splice(key, sorted, x)[|sorted|] == sorted[|sorted| - 1]
  {
    var i := BinarySearchIndex(KeyOrder(key), sorted, x);
    if i == |sorted| {
      assert Splice(key, sorted, x)[..|sorted|] == sorted;
    }
  }

  /** In a buffer sorted by key, the last element has the largest key. */
  lemma LastIsLargest<T>(key: T -> real, r: seq<T>, y: T)
    requires SortedBy(key, r) && y in r
    ensures key(y) <= key(r[|r| - 1])
  {
    var p :| 0 <= p < |r| && r[p] == y;
    assert p == |r| - 1 || key(r[p]) <= key(r[|r| - 1]);
  }

  /** What the `pop` of one `partialSort` iteration removes: the last
      element of the spliced buffer, or nothing. */
  ghost function Evicted<T>(key: T -> real, k: int, sorted: seq<T>, x: T): multiset<T>
  {
    var spliced := Splice(key, sorted, x);
    if |spliced| > k then multiset{spliced[|spliced| - 1]} else multiset{}
  }

  /** One iteration of `partialSort` keeps the buffer sorted. */
  lemma StepSorted<T>(key: T -> real, k: int, sorted: seq<T>, x: T)
    requires SortedBy(key, sorted)
    ensures SortedBy(key, PartialSortStep(key, k, sorted, x))
  {
    SpliceSorted(key, sorted, x);
  }

  /** One iteration of `partialSort` loses only what it evicts. */
  lemma StepContents<T>(key: T -> real, k: int, sorted: seq<T>, x: T)
    ensures multiset(PartialSortStep(key, k, sorted, x)) + Evicted(key, k, sorted, x) == multiset(sorted) + multiset{x}
  {
    SpliceMultiset(key, sorted, x);
    MultisetSnoc(Splice(key, sorted, x));
  }

  /** One iteration of `partialSort` evicts only when the buffer was full,
      evicts an element whose key is at least every kept key, and never
      raises the largest kept key. */
  lemma StepEvictsLargest<T>(key: T -> real, k: int, sorted: seq<T>, x: T)
    requires SortedBy(key, sorted)
    ensures |Evicted(key, k, sorted, x)| > 0 ==> |sorted| + 1 > k
    ensures forall y, w :: y in PartialSortStep(key, k, sorted, x) && w in Evicted(key, k, sorted, x) ==> key(y) <= key(w)
    ensures var r := PartialSortStep(key, k, sorted, x);
      |r| > 0 && |sorted| > 0 && |Evicted(key, k, sorted, x)| > 0 ==> key(r[|r| - 1]) <= key(sorted[|sorted| - 1])
  {
    SpliceSorted(key, sorted, x);
    SpliceLast(key, sorted, x);
    var spliced := Splice(key, sorted, x);
    var r := PartialSortStep(key, k, sorted, x);
    if |spliced| > k {
      var last := spliced[|spliced| - 1];
      forall y, w | y in r && w in Evicted(key, k, sorted, x) ensures key(y) <= key(w) {
        assert y in spliced;
        LastIsLargest(key, spliced, y);
      }
      if |r| > 0 && |sorted| > 0 {
        assert r[|r| - 1] == spliced[|sorted| - 1];
        assert key(spliced[|sorted| - 1]) <= key(spliced[|sorted|]);
      }
    }
  }

  lemma MultisetSnoc<T>(s: seq<T>)
    requires |s| > 0
    ensures multiset(s) == multiset(s[..|s| - 1]) + multiset{s[|s| - 1]}
  {
    assert s == s[..|s| - 1] + [s[|s| - 1]];
  }

  lemma Rebalance<T>(kept: multiset<T>, evicted: multiset<T>, sorted: multiset<T>, before: multiset<T>, added: multiset<T>)
    requires kept + evicted == sorted + added
    ensures kept + (before + evicted) == (sorted + before) + added
  {
    forall z ensures (kept + (before + evicted))[z] == ((sorted + before) + added)[z] {
      assert (kept + evicted)[z] == (sorted + added)[z];
    }
  }

  /** Everything the `pop`s of `partialSort` have evicted so far. */
  ghost function Dropped<T>(key: T -> real, k: int, s: seq<T>): multiset<T>
  {
    if |s| == 0 then multiset{}
    else
      var n := |s| - 1;
      Dropped(key, k, s[..n]) + Evicted(key, k, PartialSort(key, k, s[..n]), s[n])
  }

  /** The buffer stays sorted. */
  lemma {:induction false} PartialSortSorted<T>(key: T -> real, k: int, s: seq<T>)
    ensures SortedBy(key, PartialSort(key, k, s))
  {
    if |s| > 0 {
      var n := |s| - 1;
      PartialSortSorted(key, k, s[..n]);
      StepSorted(key, k, PartialSort(key, k, s[..n]), s[n]);
    }
  }

  /** Buffer plus evicted elements are exactly the input processed so far. */
  lemma {:induction false} PartialSortContents<T>(key: T -> real, k: int, s: seq<T>)
    ensures multiset(PartialSort(key, k, s)) + Dropped(key, k, s) == multiset(s)
  {
    if |s| > 0 {
      var n := |s| - 1;
      var sorted := PartialSort(key, k, s[..n]);
      PartialSortContents(key, k, s[..n]);
      StepContents(key, k, sorted, s[n]);
      var evicted := Evicted(key, k, sorted, s[n]);
      var before := Dropped(key, k, s[..n]);
      MultisetSnoc(s);
      Rebalance(multiset(PartialSortStep(key, k, sorted, s[n])), evicted, multiset(sorted), before, multiset{s[n]});
    }
  }

  /** Nothing is evicted before the buffer is full. */
  lemma {:induction false} DroppedOnlyWhenFull<T>(key: T -> real, k: int, s: seq<T>)
    ensures |Dropped(key, k, s)| > 0 ==> |PartialSort(key, k, s)| >= k
  {
    if |s| > 0 {
      var n := |s| - 1;
      DroppedOnlyWhenFull(key, k, s[..n]);
      PartialSortSorted(key, k, s[..n]);
      StepEvictsLargest(key, k, PartialSort(key, k, s[..n]), s[n]);
    }
  }

  /** Every evicted element has a key at least as large as every kept one. */
  lemma {:induction false} DroppedAboveKept<T>(key: T -> real, k: int, s: seq<T>)
    ensures forall y, w :: y in PartialSort(key, k, s) && w in Dropped(key, k, s) ==> key(y) <= key(w)
  {
    if |s| > 0 {
      var n := |s| - 1;
      var sorted := PartialSort(key, k, s[..n]);
      var r := PartialSort(key, k, s);
      var before := Dropped(key, k, s[..n]);
      DroppedAboveKept(key, k, s[..n]);
      DroppedOnlyWhenFull(key, k, s[..n]);
      PartialSortSorted(key, k, s[..n]);
      assert r == PartialSortStep(key, k, sorted, s[n]);
      assert Dropped(key, k, s) == before + Evicted(key, k, sorted, s[n]);
      StepKeepsDroppedAbove(key, k, sorted, before, s[n]);
    }
  }

  /** One iteration keeps every evicted key at least as large as every kept
      one: the buffer was full if anything was evicted before, so the step
      evicts its largest element and keeps nothing larger. */
  lemma StepKeepsDroppedAbove<T>(key: T -> real, k: int, sorted: seq<T>, before: multiset<T>, x: T)
    requires SortedBy(key, sorted)
    requires forall y, w :: y in sorted && w in before ==> key(y) <= key(w)
    requires |before| > 0 ==> |sorted| >= k
    ensures forall y, w :: y in PartialSortStep(key, k, sorted, x) && w in before + Evicted(key, k, sorted, x) ==> key(y) <= key(w)
  {
    var r := PartialSortStep(key, k, sorted, x);
    var evicted := Evicted(key, k, sorted, x);
    StepSorted(key, k, sorted, x);
    StepEvictsLargest(key, k, sorted, x);
    forall y, w | y in r && w in before ensures key(y) <= key(w) {
      assert |sorted| + 1 > k;
      assert |evicted| > 0;
      LastIsLargest(key, r, y);
      assert sorted[|sorted| - 1] in sorted;
    }
  }

  /** The invariant of the `partialSort` loop, stated of the result: it is
      sorted by key, it is a sub-multiset of the input, and every element
      evicted by `pop` has a key at least as large as every element kept;
      so the result is `min(sortLength, |array|)` elements of smallest key,
      in key order. */
  lemma PartialSortKeepsSmallest<T>(key: T -> real, k: int, s: seq<T>)
    ensures SortedBy(key, PartialSort(key, k, s))
    ensures multiset(PartialSort(key, k, s)) <= multiset(s)
    ensures forall y, w :: y in PartialSort(key, k, s) && w in multiset(s) - multiset(PartialSort(key, k, s)) ==>
      key(y) <= key(w)
  {
    PartialSortSorted(key, k, s);
    PartialSortContents(key, k, s);
    DroppedAboveKept(key, k, s);
    var r := PartialSort(key, k, s);
    assert multiset(s) - multiset(r) == Dropped(key, k, s);
  }

  /** The binary search only looks at the sign of the key difference, so two
      keys that order every pair of values alike search alike. */
  lemma {:induction false} SearchOrderInvariant<T>(d: T -> real, e: T -> real, a: seq<T>, v: T, start: nat, end: nat)
    requires start <= end <= |a|
    requires forall x, y :: d(x) < d(y) <==> e(x) < e(y)
    ensures SearchBetween(KeyOrder(d), a, v, start, end) == SearchBetween(KeyOrder(e), a, v, start, end)
    decreases end - start
  {
    if start < end {
      var middle := Middle(start, end);
      assert d(v) < d(a[middle]) <==> e(v) < e(a[middle]);
      assert d(a[middle]) < d(v) <==> e(a[middle]) < e(v);
      SearchOrderInvariant(d, e, a, v, start, middle);
      SearchOrderInvariant(d, e, a, v, middle + 1, end);
    }
  }

  /** Two keys that order every pair of values alike make `partialSort`
      produce the same buffer; in particular a distance and its square do. */
  lemma {:induction false} PartialSortOrderInvariant<T>(d: T -> real, e: T -> real, k: int, s: seq<T>)
    requires forall x, y :: d(x) < d(y) <==> e(x) < e(y)
    ensures PartialSort(d, k, s) == PartialSort(e, k, s)
  {
    if |s| > 0 {
      var n := |s| - 1;
      PartialSortOrderInvariant(d, e, k, s[..n]);
      var sorted := PartialSort(d, k, s[..n]);
      SearchOrderInvariant(d, e, sorted, s[n], 0, |sorted|);
    }
  }
}
