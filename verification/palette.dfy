/** Palette extraction in `main.js`: `makePalette` counts the pixel colours,
    sorts the counts in descending order and greedily groups them around
    the most frequent remaining colour; `closest` finds the nearest colour
    of a palette. The closeness test, the weighted average and the colour
    key are parameters: `lib/color.js` does not define them. */
module Palette {

  import opened Wrappers
  import LazyOps
  import StrictOps
  import Operators
  import Interactive
  import Image
  import Color

  /** A frequency entry `{value, count}`. */
  type Entry<T> = Interactive.Entry<T>

  // ---------------------------------------------------------------------
  // `.sort(({count: lhs}, {count: rhs}) => rhs - lhs)`
  // ---------------------------------------------------------------------

  /** Counts never increase along `s`. */
  predicate ByCountDescending<T>(s: seq<Entry<T>>)
  {
    forall i, j :: 0 <= i < j < |s| ==> s[i].1 >= s[j].1
  }

  /** Inserting into a count-descending buffer: after every entry whose count
      is at least as large, so entries of equal count keep their order. */
  function InsertByCount<T>(sorted: seq<Entry<T>>, e: Entry<T>): (r: seq<Entry<T>>)
    ensures |r| == |sorted| + 1
    ensures multiset(r) == multiset(sorted) + multiset{e}
  {
    if |sorted| == 0 then [e]
    else if sorted[0].1 < e.1 then [e] + sorted
    else
      assert sorted == [sorted[0]] + sorted[1..];
      [sorted[0]] + InsertByCount(sorted[1..], e)
  }

  /** `Array.prototype.sort` with the comparer `rhs.count - lhs.count`. The
      sort is stable (ECMAScript 2019 onwards), so it is the stable
      insertion sort by descending count. */
  function SortByCount<T>(s: seq<Entry<T>>): (r: seq<Entry<T>>)
    ensures |r| == |s|
    ensures multiset(r) == multiset(s)
  {
    if |s| == 0 then []
    else
      var n := |s| - 1;
      assert s == s[..n] + [s[n]];
      InsertByCount(SortByCount(s[..n]), s[n])
  }

  lemma {:induction false} InsertSorted<T>(sorted: seq<Entry<T>>, e: Entry<T>)
    requires ByCountDescending(sorted)
    ensures ByCountDescending(InsertByCount(sorted, e))
  {
    if |sorted| > 0 && sorted[0].1 >= e.1 {
      var tail := sorted[1..];
      InsertSorted(tail, e);
      var inserted := InsertByCount(tail, e);
      forall k | 0 <= k < |inserted| ensures inserted[k].1 <= sorted[0].1 {
        assert inserted[k] in multiset(tail) + multiset{e};
      }
    }
  }

  /** The sorted entries have non-increasing counts and are a permutation of
      the input. */
  lemma {:induction false} SortByCountSorted<T>(s: seq<Entry<T>>)
    ensures ByCountDescending(SortByCount(s))
    ensures multiset(SortByCount(s)) == multiset(s)
  {
    if |s| > 0 {
      SortByCountSorted(s[..|s| - 1]);
      InsertSorted(SortByCount(s[..|s| - 1]), s[|s| - 1]);
    }
  }

  /** The entries of count `c`, in order. */
  function OfCount<T>(c: nat, s: seq<Entry<T>>): (r: seq<Entry<T>>)
  {
    if |s| == 0 then [] else (if s[0].1 == c then [s[0]] else []) + OfCount(c, s[1..])
  }

  lemma {:induction false} OfCountSnoc<T>(c: nat, s: seq<Entry<T>>, x: Entry<T>)
    ensures OfCount(c, s + [x]) == OfCount(c, s) + (if x.1 == c then [x] else [])
  {
    if |s| > 0 {
      assert (s + [x])[1..] == s[1..] + [x];
      OfCountSnoc(c, s[1..], x);
    }
  }

  lemma {:induction false} OfCountNone<T>(c: nat, s: seq<Entry<T>>)
    requires forall k :: 0 <= k < |s| ==> s[k].1 < c
    ensures OfCount(c, s) == []
  {
    if |s| > 0 {
      OfCountNone(c, s[1..]);
    }
  }

  lemma {:induction false} InsertStable<T>(c: nat, sorted: seq<Entry<T>>, e: Entry<T>)
    requires ByCountDescending(sorted)
    ensures OfCount(c, InsertByCount(sorted, e)) == OfCount(c, sorted) + (if e.1 == c then [e] else [])
  {
    if |sorted| == 0 {
    } else if sorted[0].1 < e.1 {
      assert ([e] + sorted)[1..] == sorted;
      if e.1 == c {
        OfCountNone(c, sorted);
      }
    } else {
      InsertStable(c, sorted[1..], e);
      assert ([sorted[0]] + InsertByCount(sorted[1..], e))[1..] == InsertByCount(sorted[1..], e);
    }
  }

  /** The sort is stable: for every count, the entries of that count appear
      in the same order as in the input. With the two facts above this
      determines the result completely. */
  lemma {:induction false} SortByCountStable<T>(c: nat, s: seq<Entry<T>>)
    ensures OfCount(c, SortByCount(s)) == OfCount(c, s)
  {
    if |s| > 0 {
      var n := |s| - 1;
      SortByCountStable(c, s[..n]);
      SortByCountSorted(s[..n]);
      InsertStable(c, SortByCount(s[..n]), s[n]);
      OfCountSnoc(c, s[..n], s[n]);
      assert s[..n] + [s[n]] == s;
    }
  }

  // ---------------------------------------------------------------------
  // The grouping loop of `makePalette`
  // ---------------------------------------------------------------------

  /** The partition predicate `({value}, i, weightedColors) =>
      areClose(value, weightedColors[0].value)`, for the anchor value
      `weightedColors[0].value`. */
  function CloseTo<T>(areClose: (T, T) -> bool, anchor: T): (Entry<T>, nat) -> bool
  {
    (e: Entry<T>, _) => areClose(e.0, anchor)
  }

  /** Every value is close to itself. Without this the loop does not end:
      an anchor that is not close to itself stays in `rest` for ever. */
  ghost predicate Reflexive<T(!new)>(areClose: (T, T) -> bool)
  {
    forall v :: areClose(v, v)
  }

  /** When the first element passes the filter, it is the first element kept. */
  lemma {:induction false} FilterHead<T>(p: (T, nat) -> bool, s: seq<T>)
    requires |s| > 0 && p(s[0], 0)
    ensures |LazyOps.Filter(p, s)| > 0 && LazyOps.Filter(p, s)[0] == s[0]
  {
    if |s| > 1 {
      var n := |s| - 1;
      FilterHead(p, s[..n]);
    }
  }

  /** The anchor is close to itself, so it lands in the first part, at its
      head; the second part is strictly shorter than `rest`. */
  lemma {:induction false} AnchorLeaves<T>(areClose: (T, T) -> bool, rest: seq<Entry<T>>)
    requires |rest| > 0 && areClose(rest[0].0, rest[0].0)
    ensures var parts := StrictOps.Partition(CloseTo(areClose, rest[0].0), rest);
      |parts.0| > 0 && parts.0[0] == rest[0] && |parts.1| < |rest|
  {
    var p := CloseTo(areClose, rest[0].0);
    StrictOps.PartitionIsFilter(p, rest);
    FilterHead(p, rest);
  }

  /** The `groups` that the `while (rest.length > 1)` loop and the final
      `if (rest.length > 0)` push: partition `rest` by closeness to its
      first entry, keep the close part as a group and continue with the
      rest. */
  function Groups<T(!new)>(areClose: (T, T) -> bool, rest: seq<Entry<T>>): (r: seq<seq<Entry<T>>>)
    requires Reflexive(areClose)
    ensures NonEmpty(r)
    ensures |r| == 0 <==> |rest| == 0
    ensures |rest| > 0 ==> r[0][0] == rest[0]
    decreases |rest|
  {
    if |rest| > 1 then
      var parts := StrictOps.Partition(CloseTo(areClose, rest[0].0), rest);
      AnchorLeaves(areClose, rest);
      [parts.0] + Groups(areClose, parts.1)
    else if |rest| > 0 then [rest]
    else []
  }

  /** `flatten` of a sequence with a new first element. */
  lemma {:induction false} FlattenCons<T>(a: seq<T>, ss: seq<seq<T>>)
    ensures LazyOps.Flatten([a] + ss) == a + LazyOps.Flatten(ss)
  {
    if |ss| > 0 {
      var n := |ss| - 1;
      assert ([a] + ss)[..n + 1] == [a] + ss[..n];
      FlattenCons(a, ss[..n]);
    }
  }

  /** Filtering a count-descending sequence keeps it count-descending. */
  lemma {:induction false} FilterSorted<T>(p: (Entry<T>, nat) -> bool, s: seq<Entry<T>>)
    requires ByCountDescending(s)
    ensures ByCountDescending(LazyOps.Filter(p, s))
  {
    if |s| > 0 {
      var n := |s| - 1;
      FilterSorted(p, s[..n]);
      LazyOps.FilterMembers(p, s[..n]);
      var kept := LazyOps.Filter(p, s[..n]);
      forall k | 0 <= k < |kept| ensures kept[k].1 >= s[n].1 {
        assert kept[k] in kept;
      }
    }
  }

  /** The halves of one grouping step: the close part holds the anchor first
      and only entries close to it; the other part holds only entries not
      close to it; both hold only entries of `rest`, and a count-descending
      `rest` leaves a count-descending remainder. */
  lemma {:induction false} GroupStep<T>(areClose: (T, T) -> bool, rest: seq<Entry<T>>)
    requires |rest| > 0 && areClose(rest[0].0, rest[0].0)
    ensures var parts := StrictOps.Partition(CloseTo(areClose, rest[0].0), rest);
      (forall x :: x in parts.0 ==> x in rest && areClose(x.0, rest[0].0)) &&
      (forall x :: x in parts.1 ==> x in rest && !areClose(x.0, rest[0].0)) &&
      (ByCountDescending(rest) ==> ByCountDescending(parts.1))
  {
    var p := CloseTo(areClose, rest[0].0);
    StrictOps.PartitionIsFilter(p, rest);
    LazyOps.FilterMembers(p, rest);
    LazyOps.FilterMembers(LazyOps.Negate(p), rest);
    if ByCountDescending(rest) {
      FilterSorted(LazyOps.Negate(p), rest);
    }
  }

  /** No group is empty. */
  predicate NonEmpty<T>(groups: seq<seq<T>>)
  {
    forall g :: 0 <= g < |groups| ==> |groups[g]| > 0
  }

  /** Every group holds only entries of `rest` that are close to its anchor,
      the group's first entry. */
  ghost predicate Anchored<T>(areClose: (T, T) -> bool, groups: seq<seq<Entry<T>>>, rest: seq<Entry<T>>)
    requires NonEmpty(groups)
  {
    forall g: int, x: Entry<T> :: 0 <= g < |groups| && x in groups[g] ==> x in rest && areClose(x.0, groups[g][0].0)
  }

  /** No entry is close to the anchor of an earlier group. */
  ghost predicate FirstFit<T>(areClose: (T, T) -> bool, groups: seq<seq<Entry<T>>>)
    requires NonEmpty(groups)
  {
    forall g: int, h: int, x: Entry<T> :: 0 <= g < h < |groups| && x in groups[h] ==> !areClose(x.0, groups[g][0].0)
  }

  /** Every anchor's count is at least that of every entry of its own group
      and of every later group. */
  ghost predicate AnchorsLead<T>(groups: seq<seq<Entry<T>>>)
    requires NonEmpty(groups)
  {
    forall g: int, h: int, x: Entry<T> :: 0 <= g <= h < |groups| && x in groups[h] ==> x.1 <= groups[g][0].1
  }

  /** Laid end to end the groups are a permutation of `rest`. */
  lemma {:induction false} GroupsPermutation<T(!new)>(areClose: (T, T) -> bool, rest: seq<Entry<T>>)
    requires Reflexive(areClose)
    ensures multiset(LazyOps.Flatten(Groups(areClose, rest))) == multiset(rest)
    decreases |rest|
  {
    var groups: seq<seq<Entry<T>>> := Groups(areClose, rest);
    if |rest| > 1 {
      var parts := StrictOps.Partition(CloseTo(areClose, rest[0].0), rest);
      AnchorLeaves(areClose, rest);
      StrictOps.PartitionPermutes(CloseTo(areClose, rest[0].0), rest);
      GroupsPermutation(areClose, parts.1);
      FlattenCons(parts.0, Groups(areClose, parts.1));
    } else if |rest| == 1 {
      assert groups == [] + [rest];
    }
  }

  /** Each group holds entries of `rest` close to its anchor. */
  lemma {:induction false} GroupsAnchored<T(!new)>(areClose: (T, T) -> bool, rest: seq<Entry<T>>)
    requires Reflexive(areClose)
    ensures Anchored(areClose, Groups(areClose, rest), rest)
    decreases |rest|
  {
    var groups: seq<seq<Entry<T>>> := Groups(areClose, rest);
    if |rest| > 1 {
      var parts := StrictOps.Partition(CloseTo(areClose, rest[0].0), rest);
      AnchorLeaves(areClose, rest);
      GroupStep(areClose, rest);
      GroupsAnchored(areClose, parts.1);
      var later: seq<seq<Entry<T>>> := Groups(areClose, parts.1);
      forall g: int, x: Entry<T> | 0 <= g < |groups| && x in groups[g] ensures x in rest && areClose(x.0, groups[g][0].0) {
        if g > 0 {
          assert groups[g] == later[g - 1];
        }
      }
    }
  }

  /** Each entry joins the first group whose anchor it is close to. */
  lemma {:induction false} GroupsFirstFit<T(!new)>(areClose: (T, T) -> bool, rest: seq<Entry<T>>)
    requires Reflexive(areClose)
    ensures FirstFit(areClose, Groups(areClose, rest))
    decreases |rest|
  {
    var groups: seq<seq<Entry<T>>> := Groups(areClose, rest);
    if |rest| > 1 {
      var parts := StrictOps.Partition(CloseTo(areClose, rest[0].0), rest);
      AnchorLeaves(areClose, rest);
      GroupStep(areClose, rest);
      GroupsFirstFit(areClose, parts.1);
      GroupsAnchored(areClose, parts.1);
      var later: seq<seq<Entry<T>>> := Groups(areClose, parts.1);
      forall g: int, h: int, x: Entry<T> | 0 <= g < h < |groups| && x in groups[h] ensures !areClose(x.0, groups[g][0].0) {
        assert groups[h] == later[h - 1];
        if g > 0 {
          assert groups[g] == later[g - 1];
        }
      }
    }
  }

  /** In a count-descending sequence the head has the largest count. */
  lemma {:induction false} HeadLeads<T>(s: seq<Entry<T>>, x: Entry<T>)
    requires ByCountDescending(s) && x in s
    ensures x.1 <= s[0].1
  {
    var i :| 0 <= i < |s| && s[i] == x;
    if i > 0 {
      assert s[0].1 >= s[i].1;
    }
  }

  /** When the first group's anchor heads a count-descending `rest` that
      holds every grouped entry, the anchors lead as soon as they lead after
      the first group. */
  lemma {:induction false} AnchorsLeadStep<T>(groups: seq<seq<Entry<T>>>, rest: seq<Entry<T>>)
    requires NonEmpty(groups) && |groups| > 0 && |rest| > 0 && groups[0][0] == rest[0] && ByCountDescending(rest)
    requires forall g: int, x: Entry<T> :: 0 <= g < |groups| && x in groups[g] ==> x in rest
    requires AnchorsLead(groups[1..])
    ensures AnchorsLead(groups)
  {
    var later: seq<seq<Entry<T>>> := groups[1..];
    forall g: int, h: int, x: Entry<T> | 0 <= g <= h < |groups| && x in groups[h] ensures x.1 <= groups[g][0].1 {
      if g == 0 {
        HeadLeads(rest, x);
      } else {
        assert groups[g] == later[g - 1] && groups[h] == later[h - 1];
      }
    }
  }

  /** On count-descending input every group's anchor has the largest count
      of its own group and of every later group, so the anchors' counts never
      increase. */
  lemma {:induction false} GroupsAnchorsDescend<T(!new)>(areClose: (T, T) -> bool, rest: seq<Entry<T>>)
    requires Reflexive(areClose) && ByCountDescending(rest)
    ensures AnchorsLead(Groups(areClose, rest))
    decreases |rest|
  {
    var groups: seq<seq<Entry<T>>> := Groups(areClose, rest);
    if |rest| > 0 {
      GroupsAnchored(areClose, rest);
      if |rest| > 1 {
        var parts := StrictOps.Partition(CloseTo(areClose, rest[0].0), rest);
        AnchorLeaves(areClose, rest);
        GroupStep(areClose, rest);
        GroupsAnchorsDescend(areClose, parts.1);
        assert groups[1..] == Groups(areClose, parts.1);
      } else {
        assert groups[1..] == [];
      }
      AnchorsLeadStep(groups, rest);
    }
  }

  // ---------------------------------------------------------------------
  // makePalette
  // ---------------------------------------------------------------------

  /** `{color, weight}`, what the weighted average receives. */
  datatype Weighted<T> = Weighted(color: T, weight: nat)

  /** The selector `({value, count}) => ({color: value, weight: count})`. */
  function AsWeighted<T>(e: Entry<T>, i: nat): Weighted<T>
  {
    Weighted(e.0, e.1)
  }

  /** The selector `weightedColors => averageOfWeighted(weightedColors.map(...))`. */
  function Averaged<T, C>(averageOfWeighted: seq<Weighted<T>> -> C): (seq<Entry<T>>, nat) -> C
  {
    (group: seq<Entry<T>>, _) => averageOfWeighted(LazyOps.Map(AsWeighted, group))
  }

  /** The groups `makePalette` forms: over the colour frequencies (keyed by
      `key`), sorted by descending count. */
  function PaletteGroups<T(!new), K(==)>(areClose: (T, T) -> bool, key: T -> K, pixels: seq<T>): seq<seq<Entry<T>>>
    requires Reflexive(areClose)
  {
    Groups(areClose, SortByCount(Image.KeyedFrequencies(key, pixels)))
  }

  /** `makePalette(pixels, threshold)` with `areClose`, `averageOfWeighted`
      and the colour key given: one weighted average per group. */
  function MakePalette<T(!new), K(==), C>(areClose: (T, T) -> bool, averageOfWeighted: seq<Weighted<T>> -> C,
                                          key: T -> K, pixels: seq<T>): (r: seq<C>)
    requires Reflexive(areClose)
  {
    LazyOps.Map(Averaged(averageOfWeighted), PaletteGroups(areClose, key, pixels))
  }

  /** `makePalette(pixels, threshold)` as written: its first statement
      calls `C.areClose(threshold)`, which `lib/color.js` does not export, so
      it raises a `TypeError` before it looks at the pixels. Were the name
      exported, it would be `MakePalette`. */
  function MakePaletteAsWritten<T(!new), K(==), C>(areClose: (T, T) -> bool, averageOfWeighted: seq<Weighted<T>> -> C,
                                                   key: T -> K, pixels: seq<T>): (r: Result<seq<C>>)
    requires Reflexive(areClose)
    ensures r.Success? <==> "areClose" in Color.Exports
    ensures r.Success? ==> r.value == MakePalette(areClose, averageOfWeighted, key, pixels)
  {
    var _ :- Color.Export("areClose");
    Success(MakePalette(areClose, averageOfWeighted, key, pixels))
  }

  /** The palette has one colour per group, the average of that group's
      colours weighted by their counts; the groups are a permutation of the
      colour frequencies, each colour in the first group whose anchor it is
      close to, anchors in order of non-increasing count. There is at least
      one colour exactly when there is at least one pixel, and never more
      colours than distinct keys. */
  lemma {:induction false} MakePaletteFacts<T(!new), K(!new), C>(areClose: (T, T) -> bool, averageOfWeighted: seq<Weighted<T>> -> C,
                                                               key: T -> K, pixels: seq<T>)
    requires Reflexive(areClose)
    ensures var groups := PaletteGroups(areClose, key, pixels);
      |MakePalette(areClose, averageOfWeighted, key, pixels)| == |groups| &&
      forall i :: 0 <= i < |groups| ==>
        MakePalette(areClose, averageOfWeighted, key, pixels)[i] == averageOfWeighted(LazyOps.Map(AsWeighted, groups[i]))
    ensures var groups, entries := PaletteGroups(areClose, key, pixels), Image.KeyedFrequencies(key, pixels);
      multiset(LazyOps.Flatten(groups)) == multiset(entries) &&
      Anchored(areClose, groups, SortByCount(entries)) &&
      FirstFit(areClose, groups) &&
      AnchorsLead(groups)
    ensures var groups, entries := PaletteGroups(areClose, key, pixels), Image.KeyedFrequencies(key, pixels);
      (|groups| > 0 <==> |pixels| > 0) && |groups| <= |entries|
  {
    var entries := Image.KeyedFrequencies(key, pixels);
    var sorted := SortByCount(entries);
    var groups := PaletteGroups(areClose, key, pixels);
    SortByCountSorted(entries);
    GroupsPermutation(areClose, sorted);
    GroupsAnchored(areClose, sorted);
    GroupsFirstFit(areClose, sorted);
    GroupsAnchorsDescend(areClose, sorted);
    Interactive.FrequenciesTotal(Image.SameKey(key), pixels);
    GroupsCount(groups);
    assert |LazyOps.Flatten(groups)| == |sorted|;
  }

  /** As written, reading a pixel and making a palette both raise, where
      the intended operations return the pixel's four bytes and at least
      one palette colour. */
  lemma MissingColorExportsRaise<T(!new), K(!new), C>(img: Image.ImageData, offset: int,
                                                      areClose: (T, T) -> bool, averageOfWeighted: seq<Weighted<T>> -> C,
                                                      key: T -> K, pixels: seq<T>)
    requires Image.WellFormed(img) && 0 <= offset < img.width * img.height
    requires Reflexive(areClose) && |pixels| > 0
    ensures Image.PixelAtAsWritten(img, offset) == Failure(TypeError("COMPONENTS"))
    ensures Image.PixelAt(img, offset).Some?
    ensures MakePaletteAsWritten(areClose, averageOfWeighted, key, pixels) == Failure(TypeError("areClose"))
    ensures |MakePalette(areClose, averageOfWeighted, key, pixels)| > 0
  {
    assert "COMPONENTS" !in Color.Exports;
    assert "areClose" !in Color.Exports;
    assert (offset + 1) * 4 <= 4 * (img.width * img.height);
    MakePaletteFacts(areClose, averageOfWeighted, key, pixels);
  }

  /** Non-empty groups are no more numerous than their elements. */
  lemma {:induction false} GroupsCount<T>(groups: seq<seq<T>>)
    requires forall g :: 0 <= g < |groups| ==> |groups[g]| > 0
    ensures |groups| <= |LazyOps.Flatten(groups)|
  {
    if |groups| > 0 {
      GroupsCount(groups[..|groups| - 1]);
    }
  }

  // ---------------------------------------------------------------------
  // closest
  // ---------------------------------------------------------------------

  /** `closest(distanceFunc)(values)`: the loop keeps a value whenever its
      distance is strictly below the best so far, starting from `Infinity`,
      so the first value is always taken. */
  function Closest<T>(dist: T -> real, values: seq<T>): (r: Option<T>)
    ensures r.None? <==> |values| == 0
    ensures r.Some? ==> r.value in values
  {
    if |values| == 0 then None
    else
      var n := |values| - 1;
      match Closest(dist, values[..n])
      case None => Some(values[n])
      case Some(best) => if dist(values[n]) < dist(best) then Some(values[n]) else Some(best)
  }

  /** `closest` returns the first value of smallest distance. */
  lemma {:induction false} ClosestIsEarliestMinimum<T>(dist: T -> real, values: seq<T>)
    requires |values| > 0
    ensures exists i :: Operators.IsEarliestMinimum(dist, values, i) && Closest(dist, values) == Some(values[i])
  {
    var n := |values| - 1;
    if n == 0 {
      assert Operators.IsEarliestMinimum(dist, values, 0);
    } else {
      ClosestIsEarliestMinimum(dist, values[..n]);
      var i :| Operators.IsEarliestMinimum(dist, values[..n], i) && Closest(dist, values[..n]) == Some(values[..n][i]);
      var j := ClosestStep(dist, values, i);
    }
  }

  /** One step of `ClosestIsEarliestMinimum`: the closest value before the
      last one stays the result unless the last value is strictly closer. */
  lemma ClosestStep<T>(dist: T -> real, values: seq<T>, i: nat) returns (j: nat)
    requires |values| > 1
    requires Operators.IsEarliestMinimum(dist, values[..|values| - 1], i)
    requires Closest(dist, values[..|values| - 1]) == Some(values[..|values| - 1][i])
    ensures Operators.IsEarliestMinimum(dist, values, j) && Closest(dist, values) == Some(values[j])
  {
    var n := |values| - 1;
    assert values[..n][i] == values[i];
    if dist(values[n]) < dist(values[i]) {
      j := n;
    } else {
      j := i;
    }
  }

  /** Two distance functions that order the values alike pick the same
      value. So `closest` by a root distance and by its square agree. */
  lemma {:induction false} ClosestOrderInvariant<T>(d: T -> real, e: T -> real, values: seq<T>)
    requires forall i, j :: 0 <= i < |values| && 0 <= j < |values| ==>
      (d(values[i]) < d(values[j]) <==> e(values[i]) < e(values[j]))
    ensures Closest(d, values) == Closest(e, values)
  {
    if |values| > 0 {
      var n := |values| - 1;
      var prefix := values[..n];
      forall i, j | 0 <= i < n && 0 <= j < n
        ensures d(prefix[i]) < d(prefix[j]) <==> e(prefix[i]) < e(prefix[j])
      {
        assert prefix[i] == values[i] && prefix[j] == values[j];
      }
      ClosestOrderInvariant(d, e, prefix);
      var best := Closest(d, prefix);
      if best.Some? {
        var j :| 0 <= j < n && prefix[j] == best.value;
        assert prefix[j] == values[j];
        assert d(values[n]) < d(values[j]) <==> e(values[n]) < e(values[j]);
      }
    }
  }
}
