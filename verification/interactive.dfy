/** The operators of `lib/interactive.js` that `lib/ix` does not already
    have: `count`, `last`, `frequencies` and `unique`. Its `filter`, `map`,
    `fold`, `reduce`, `max`, `min`, `take`, `skip` and `zip` behave like
    the ones in `LazyOps` and `Operators` and are modelled there. */
module Interactive {

  import opened Wrappers
  import LazyOps
  import Operators
  import ArrayOps

  /** The selector `(cnt) => cnt + 1` of `count`. */
  function Increment<T>(cnt: nat, x: T, i: nat): nat
  {
    cnt + 1
  }

  lemma {:induction false} FoldIncrement<T>(s: seq<T>)
    ensures Operators.Fold(0, Increment, s) == |s|
  {
    if |s| > 0 {
      FoldIncrement(s[..|s| - 1]);
    }
  }

  /** `count(iterable)`: a fold that adds one per element. */
  function Count<T>(s: seq<T>): (r: nat)
    ensures r == |s|
  {
    FoldIncrement(s);
    Operators.Fold(0, Increment, s)
  }

  /** The selector `(_, val) => val` of `last`. */
  function KeepLatest<T>(acc: T, val: T, i: nat): T
  {
    val
  }

  /** `last(iterable)`: the final element, or `undefined` when empty. */
  function Last<T>(s: seq<T>): (r: Option<T>)
    ensures r.None? <==> |s| == 0
    ensures r.Some? ==> r.value == s[|s| - 1]
  {
    Operators.Reduce(KeepLatest, s)
  }

  /** A frequency entry `[value, count]`. */
  type Entry<T> = (T, nat)

  /** The test `(lhs, rhs) => equality(lhs[0], rhs)` that `frequencies`
      passes to `indexOf`: compare an entry's value with the new value. */
  function EntryEquality<T>(eq: (T, T) -> bool): (Entry<T>, T) -> bool
  {
    (lhs: Entry<T>, rhs: T) => eq(lhs.0, rhs)
  }

  /** One iteration of `frequencies`: count `value` in the first entry
      whose value `equality` matches, or push a new entry with count 1. */
  function CountIn<T>(eq: (T, T) -> bool, entries: seq<Entry<T>>, value: T): (r: seq<Entry<T>>)
  {
    var idx := ArrayOps.FindIndex(ArrayOps.EqualTo(EntryEquality(eq), value), entries);
    if idx < 0 then entries + [(value, 1)]
    else entries[idx := (entries[idx].0, entries[idx].1 + 1)]
  }

  /** `frequencies(iterable, equality)`: the entries after every element
      has been counted. An `equality` function is required: without one
      the second element already throws, calling `undefined`. */
  function Frequencies<T>(eq: (T, T) -> bool, s: seq<T>): (r: seq<Entry<T>>)
    ensures |r| <= |s|
    ensures forall k :: 0 <= k < |r| ==> r[k].1 >= 1
  {
    if |s| == 0 then []
    else CountIn(eq, Frequencies(eq, s[..|s| - 1]), s[|s| - 1])
  }

  /** The values of the entries, in entry order. */
  function Representatives<T>(entries: seq<Entry<T>>): (r: seq<T>)
    ensures |r| == |entries|
    ensures forall k :: 0 <= k < |r| ==> r[k] == entries[k].0
  {
    seq(|entries|, k requires 0 <= k < |entries| => entries[k].0)
  }

  /** The sum of the counts. */
  function TotalCount<T>(entries: seq<Entry<T>>): nat
  {
    if |entries| == 0 then 0 else entries[0].1 + TotalCount(entries[1..])
  }

  lemma {:induction false} TotalCountAppend<T>(entries: seq<Entry<T>>, e: Entry<T>)
    ensures TotalCount(entries + [e]) == TotalCount(entries) + e.1
  {
    if |entries| > 0 {
      assert (entries + [e])[1..] == entries[1..] + [e];
      TotalCountAppend(entries[1..], e);
    }
  }

  lemma {:induction false} TotalCountIncrement<T>(entries: seq<Entry<T>>, idx: nat)
    requires idx < |entries|
    ensures TotalCount(entries[idx := (entries[idx].0, entries[idx].1 + 1)]) == TotalCount(entries) + 1
  {
    var e := (entries[idx].0, entries[idx].1 + 1);
    if idx > 0 {
      assert entries[idx := e][1..] == entries[1..][idx - 1 := e];
      TotalCountIncrement(entries[1..], idx - 1);
    }
  }

  /** The counts of `frequencies` add up to the number of elements. */
  lemma {:induction false} FrequenciesTotal<T>(eq: (T, T) -> bool, s: seq<T>)
    ensures TotalCount(Frequencies(eq, s)) == |s|
  {
    if |s| > 0 {
      var n := |s| - 1;
      var entries := Frequencies(eq, s[..n]);
      FrequenciesTotal(eq, s[..n]);
      var idx := ArrayOps.FindIndex(ArrayOps.EqualTo(EntryEquality(eq), s[n]), entries);
      if idx < 0 {
        TotalCountAppend(entries, (s[n], 1));
      } else {
        TotalCountIncrement(entries, idx);
      }
    }
  }

  /** `unique(iterable, equality)`: each value is kept when `omits` finds
      no kept value it matches. The kept values are drawn from the input. */
  function Unique<T(==)>(s: seq<T>, equality: Option<(T, T) -> bool>): (r: seq<T>)
    ensures |r| <= |s|
    ensures forall x :: x in r ==> x in s
  {
    if |s| == 0 then []
    else
      var n := |s| - 1;
      var kept := Unique(s[..n], equality);
      assert forall x :: x in s[..n] ==> x in s;
      if ArrayOps.Omits(kept, s[n], equality) then kept + [s[n]] else kept
  }

  /** Every kept value is an input value, no kept value matches a later
      kept value, and every input value is kept or matched by a kept value. */
  lemma {:induction false} UniqueDistinct<T>(s: seq<T>, equality: Option<(T, T) -> bool>)
    ensures forall x :: x in Unique(s, equality) ==> x in s
    ensures forall i, j :: 0 <= i < j < |Unique(s, equality)| ==>
      !ArrayOps.Matches(equality, Unique(s, equality)[i], Unique(s, equality)[j])
    ensures forall i :: 0 <= i < |s| ==>
      s[i] in Unique(s, equality) || exists j :: 0 <= j < |Unique(s, equality)| && ArrayOps.Matches(equality, Unique(s, equality)[j], s[i])
  {
    if |s| > 0 {
      var n := |s| - 1;
      UniqueDistinct(s[..n], equality);
      assert s == s[..n] + [s[n]];
      KeepsDistinct(s[..n], Unique(s[..n], equality), s[n], equality);
    }
  }

  /** The three facts `UniqueDistinct` states carry over to one more input
      value, which is kept unless a kept value matches it. */
  lemma KeepsDistinct<T>(prefix: seq<T>, kept: seq<T>, x: T, equality: Option<(T, T) -> bool>)
    requires forall y :: y in kept ==> y in prefix
    requires forall i, j :: 0 <= i < j < |kept| ==> !ArrayOps.Matches(equality, kept[i], kept[j])
    requires forall i :: 0 <= i < |prefix| ==>
      prefix[i] in kept || exists j :: 0 <= j < |kept| && ArrayOps.Matches(equality, kept[j], prefix[i])
    ensures var s, r := prefix + [x], if ArrayOps.Omits(kept, x, equality) then kept + [x] else kept;
      (forall y :: y in r ==> y in s) &&
      (forall i, j :: 0 <= i < j < |r| ==> !ArrayOps.Matches(equality, r[i], r[j])) &&
      (forall i :: 0 <= i < |s| ==> s[i] in r || exists j :: 0 <= j < |r| && ArrayOps.Matches(equality, r[j], s[i]))
  {
    var s := prefix + [x];
    assert forall i :: 0 <= i < |prefix| ==> s[i] == prefix[i];
    if ArrayOps.Omits(kept, x, equality) {
      var r := kept + [x];
      assert forall i :: 0 <= i < |kept| ==> r[i] == kept[i];
      assert r[|kept|] == x;
    }
  }

  /** Searching the entries for a value matches searching their values. */
  lemma EntrySearch<T>(eq: (T, T) -> bool, entries: seq<Entry<T>>, v: T)
    ensures ArrayOps.FindIndex(ArrayOps.EqualTo(EntryEquality(eq), v), entries) < 0 <==>
      ArrayOps.Omits(Representatives(entries), v, Some(eq))
  {
    var reps := Representatives(entries);
    assert forall k :: 0 <= k < |entries| ==>
      ArrayOps.EqualTo(EntryEquality(eq), v)(entries[k]) == ArrayOps.Matches(Some(eq), reps[k], v);
  }

  /** The entries of `frequencies` are the values `unique` keeps, in the
      same order: each group appears where its first member appears, with
      that member as its value. */
  lemma {:induction false} FrequenciesRepresentatives<T>(eq: (T, T) -> bool, s: seq<T>)
    ensures Representatives(Frequencies(eq, s)) == Unique(s, Some(eq))
  {
    if |s| > 0 {
      var n := |s| - 1;
      var entries := Frequencies(eq, s[..n]);
      var next := CountIn(eq, entries, s[n]);
      assert Frequencies(eq, s) == next;
      var kept := Unique(s[..n], Some(eq));
      assert Unique(s, Some(eq)) == if ArrayOps.Omits(kept, s[n], Some(eq)) then kept + [s[n]] else kept;
      FrequenciesRepresentatives(eq, s[..n]);
      CountInRepresentatives(eq, entries, s[n]);
    }
  }

  /** Counting a value adds it to the representatives exactly when no
      representative matches it. */
  lemma CountInRepresentatives<T>(eq: (T, T) -> bool, entries: seq<Entry<T>>, x: T)
    ensures Representatives(CountIn(eq, entries, x)) ==
      if ArrayOps.Omits(Representatives(entries), x, Some(eq)) then Representatives(entries) + [x] else Representatives(entries)
  {
    var next := CountIn(eq, entries, x);
    EntrySearch(eq, entries, x);
    if ArrayOps.Omits(Representatives(entries), x, Some(eq)) {
      assert next == entries + [(x, 1)];
      assert Representatives(next) == Representatives(entries) + [x];
    } else {
      assert Representatives(next) == Representatives(entries);
    }
  }

  /** `f` relates `a` to `b` and `b` to `c`. */
  ghost predicate Chain<T>(f: (T, T) -> bool, a: T, b: T, c: T)
  {
    f(a, b) && f(b, c)
  }

  /** `equality` is reflexive and transitive (strict equality always is). */
  ghost predicate IsPreorder<T(!new)>(equality: Option<(T, T) -> bool>)
  {
    match equality
    case None => true
    case Some(f) => (forall a :: f(a, a)) && (forall a, b, c :: Chain(f, a, b, c) ==> f(a, c))
  }

  lemma MatchesPreorder<T(!new)>(equality: Option<(T, T) -> bool>, a: T, b: T, c: T)
    requires IsPreorder(equality)
    ensures ArrayOps.Matches(equality, a, a)
    ensures ArrayOps.Matches(equality, a, b) && ArrayOps.Matches(equality, b, c) ==> ArrayOps.Matches(equality, a, c)
  {
    if equality.Some? {
      var f := equality.value;
      if f(a, b) && f(b, c) {
        assert Chain(f, a, b, c);
      }
    }
  }

  /** The element predicate "no earlier element of `s` matches this one". */
  function FirstOfClass<T(==)>(equality: Option<(T, T) -> bool>, s: seq<T>): (T, nat) -> bool
  {
    (x: T, i: nat) => forall j :: 0 <= j < i && j < |s| ==> !ArrayOps.Matches(equality, s[j], x)
  }

  /** Some value of `r` matches `x`. */
  ghost predicate Covered<T>(equality: Option<(T, T) -> bool>, r: seq<T>, x: T)
  {
    exists k :: 0 <= k < |r| && ArrayOps.Matches(equality, r[k], x)
  }

  /** For a reflexive `equality`, every input value is matched by a kept one. */
  lemma UniqueCovers<T(!new)>(s: seq<T>, equality: Option<(T, T) -> bool>)
    requires IsPreorder(equality)
    ensures forall j :: 0 <= j < |s| ==> Covered(equality, Unique(s, equality), s[j])
  {
    UniqueDistinct(s, equality);
    var r := Unique(s, equality);
    forall j | 0 <= j < |s| ensures Covered(equality, r, s[j]) {
      if s[j] in r {
        var k :| 0 <= k < |r| && r[k] == s[j];
        MatchesPreorder(equality, r[k], r[k], r[k]);
        assert ArrayOps.Matches(equality, r[k], s[j]);
      }
    }
  }

  /** For a reflexive and transitive `equality`, the last value is kept
      exactly when no earlier value matches it. */
  lemma UniqueStep<T(!new)>(s: seq<T>, equality: Option<(T, T) -> bool>)
    requires IsPreorder(equality) && |s| > 0
    ensures ArrayOps.Omits(Unique(s[..|s| - 1], equality), s[|s| - 1], equality) <==>
      FirstOfClass(equality, s)(s[|s| - 1], |s| - 1)
  {
    var n := |s| - 1;
    var prefix := s[..n];
    var kept := Unique(prefix, equality);
    if ArrayOps.Omits(kept, s[n], equality) {
      UniqueCovers(prefix, equality);
      forall j | 0 <= j < n ensures !ArrayOps.Matches(equality, s[j], s[n]) {
        OmittedMatchesNone(prefix, kept, s[n], equality, j);
        assert s[j] == prefix[j];
      }
    } else {
      var k :| 0 <= k < |kept| && ArrayOps.Matches(equality, kept[k], s[n]);
      UniqueDistinct(prefix, equality);
      assert kept[k] in kept;
      var j :| 0 <= j < n && prefix[j] == kept[k];
      assert s[j] == prefix[j];
    }
  }

  /** A value no kept value matches matches no covered input value either. */
  lemma OmittedMatchesNone<T(!new)>(prefix: seq<T>, kept: seq<T>, x: T, equality: Option<(T, T) -> bool>, j: nat)
    requires IsPreorder(equality) && j < |prefix|
    requires forall i :: 0 <= i < |prefix| ==> Covered(equality, kept, prefix[i])
    requires ArrayOps.Omits(kept, x, equality)
    ensures !ArrayOps.Matches(equality, prefix[j], x)
  {
    assert Covered(equality, kept, prefix[j]);
    var k :| 0 <= k < |kept| && ArrayOps.Matches(equality, kept[k], prefix[j]);
    MatchesPreorder(equality, kept[k], prefix[j], x);
  }

  /** Whether an element of a prefix is the first of its class does not
      depend on what follows the prefix. */
  lemma FirstOfClassPrefix<T>(equality: Option<(T, T) -> bool>, s: seq<T>, n: nat)
    requires n <= |s|
    ensures forall i :: 0 <= i < n ==> FirstOfClass(equality, s)(s[i], i) == FirstOfClass(equality, s[..n])(s[..n][i], i)
  {
    forall i | 0 <= i < n
      ensures FirstOfClass(equality, s)(s[i], i) == FirstOfClass(equality, s[..n])(s[..n][i], i)
    {
      assert forall j :: 0 <= j < i ==> s[..n][j] == s[j];
    }
  }

  /** For a reflexive and transitive `equality`, `unique` keeps exactly the
      first member of every class, in input order. */
  lemma {:induction false} UniqueKeepsFirstOfClass<T(!new)>(s: seq<T>, equality: Option<(T, T) -> bool>)
    requires IsPreorder(equality)
    ensures Unique(s, equality) == LazyOps.Filter(FirstOfClass(equality, s), s)
  {
    if |s| > 0 {
      var n := |s| - 1;
      var prefix := s[..n];
      var p := FirstOfClass(equality, s);
      UniqueKeepsFirstOfClass(prefix, equality);
      FirstOfClassPrefix(equality, s, n);
      LazyOps.FilterCongruence(p, FirstOfClass(equality, prefix), prefix);
      UniqueStep(s, equality);
    }
  }

  /** `equality` is reflexive, symmetric and transitive, as `areSameColor`
      and strict equality are. */
  ghost predicate IsEquivalence<T(!new)>(eq: (T, T) -> bool)
  {
    (forall a :: eq(a, a)) &&
    (forall a, b :: eq(a, b) ==> eq(b, a)) &&
    (forall a, b, c :: Chain(eq, a, b, c) ==> eq(a, c))
  }

  /** The number of elements of `s` that `eq` matches with `v`. */
  function Occurrences<T>(eq: (T, T) -> bool, v: T, s: seq<T>): (r: nat)
    ensures r <= |s|
    ensures r == 0 <==> forall i :: 0 <= i < |s| ==> !eq(v, s[i])
  {
    if |s| == 0 then 0
    else
      var n := |s| - 1;
      assert forall i :: 0 <= i < n ==> s[..n][i] == s[i];
      Occurrences(eq, v, s[..n]) + if eq(v, s[n]) then 1 else 0
  }

  lemma OccurrencesSnoc<T>(eq: (T, T) -> bool, v: T, prefix: seq<T>, x: T)
    ensures Occurrences(eq, v, prefix + [x]) == Occurrences(eq, v, prefix) + if eq(v, x) then 1 else 0
  {
    assert (prefix + [x])[..|prefix|] == prefix;
  }

  /** Entries whose values are pairwise unequal and between them match
      every element of `s`. */
  ghost predicate Classes<T>(eq: (T, T) -> bool, entries: seq<Entry<T>>, s: seq<T>)
  {
    (forall i, j :: 0 <= i < j < |entries| ==> !eq(entries[i].0, entries[j].0)) &&
    (forall i :: 0 <= i < |s| ==> exists k :: 0 <= k < |entries| && eq(entries[k].0, s[i]))
  }

  /** Entries that count, for their value, the elements of `s` it matches. */
  ghost predicate CountsOccurrences<T>(eq: (T, T) -> bool, entries: seq<Entry<T>>, s: seq<T>)
  {
    forall k :: 0 <= k < |entries| ==> entries[k].1 == Occurrences(eq, entries[k].0, s)
  }

  /** Under an equivalence, the entries of `frequencies` are one per class. */
  lemma FrequenciesClasses<T(!new)>(eq: (T, T) -> bool, s: seq<T>)
    requires IsEquivalence(eq)
    ensures Classes(eq, Frequencies(eq, s), s)
  {
    var entries := Frequencies(eq, s);
    var reps := Representatives(entries);
    FrequenciesRepresentatives(eq, s);
    UniqueDistinct(s, Some(eq));
    UniqueCovers(s, Some(eq));
    forall i | 0 <= i < |s| ensures exists k :: 0 <= k < |entries| && eq(entries[k].0, s[i]) {
      assert Covered(Some(eq), reps, s[i]);
    }
  }

  /** Counting a value no entry matches: its class is new, so it has no
      earlier occurrence, and no other count changes. */
  lemma CountInNew<T(!new)>(eq: (T, T) -> bool, entries: seq<Entry<T>>, prefix: seq<T>, x: T)
    requires IsEquivalence(eq) && Classes(eq, entries, prefix) && CountsOccurrences(eq, entries, prefix)
    requires forall k :: 0 <= k < |entries| ==> !eq(entries[k].0, x)
    ensures CountsOccurrences(eq, entries + [(x, 1)], prefix + [x])
  {
    var next := entries + [(x, 1)];
    forall i | 0 <= i < |prefix| ensures !eq(x, prefix[i]) {
      var k :| 0 <= k < |entries| && eq(entries[k].0, prefix[i]);
      if eq(x, prefix[i]) {
        assert Chain(eq, entries[k].0, prefix[i], x);
      }
    }
    forall k | 0 <= k < |next| ensures next[k].1 == Occurrences(eq, next[k].0, prefix + [x]) {
      OccurrencesSnoc(eq, next[k].0, prefix, x);
      if k == |entries| {
        assert eq(x, x);
      }
    }
  }

  /** Counting a value that entry `idx` matches: only that count grows,
      since no other class holds the value. */
  lemma CountInExisting<T(!new)>(eq: (T, T) -> bool, entries: seq<Entry<T>>, prefix: seq<T>, x: T, idx: nat)
    requires IsEquivalence(eq) && Classes(eq, entries, prefix) && CountsOccurrences(eq, entries, prefix)
    requires idx < |entries| && eq(entries[idx].0, x)
    ensures CountsOccurrences(eq, entries[idx := (entries[idx].0, entries[idx].1 + 1)], prefix + [x])
  {
    var next := entries[idx := (entries[idx].0, entries[idx].1 + 1)];
    forall k | 0 <= k < |next| ensures next[k].1 == Occurrences(eq, next[k].0, prefix + [x]) {
      OccurrencesSnoc(eq, next[k].0, prefix, x);
      if k < idx && eq(entries[k].0, x) {
        assert Chain(eq, entries[k].0, x, entries[idx].0);
      } else if idx < k && eq(entries[k].0, x) {
        assert Chain(eq, entries[idx].0, x, entries[k].0);
      }
    }
  }

  /** Under an equivalence, equal values occur equally often. */
  lemma {:induction false} OccurrencesCongruent<T(!new)>(eq: (T, T) -> bool, a: T, b: T, s: seq<T>)
    requires IsEquivalence(eq) && eq(a, b)
    ensures Occurrences(eq, a, s) == Occurrences(eq, b, s)
  {
    if |s| > 0 {
      var n := |s| - 1;
      OccurrencesCongruent(eq, a, b, s[..n]);
      assert eq(b, a);
      if eq(a, s[n]) {
        assert Chain(eq, b, a, s[n]);
      }
      if eq(b, s[n]) {
        assert Chain(eq, a, b, s[n]);
      }
    }
  }

  /** The induction behind `FrequenciesCountOccurrences`. */
  lemma {:induction false} FrequenciesCounts<T(!new)>(eq: (T, T) -> bool, s: seq<T>)
    requires IsEquivalence(eq)
    ensures CountsOccurrences(eq, Frequencies(eq, s), s)
  {
    if |s| > 0 {
      var n := |s| - 1;
      var prefix, x := s[..n], s[n];
      assert s == prefix + [x];
      var entries := Frequencies(eq, prefix);
      assert Frequencies(eq, s) == CountIn(eq, entries, x);
      FrequenciesCounts(eq, prefix);
      FrequenciesClasses(eq, prefix);
      var p := ArrayOps.EqualTo(EntryEquality(eq), x);
      var idx := ArrayOps.FindIndex(p, entries);
      if idx < 0 {
        forall k | 0 <= k < |entries| ensures !eq(entries[k].0, x) {
          assert !p(entries[k]);
        }
        CountInNew(eq, entries, prefix, x);
      } else {
        assert p(entries[idx]);
        CountInExisting(eq, entries, prefix, x, idx);
      }
    }
  }

  /** Under an equivalence, the count `frequencies` keeps for an entry is
      the number of input elements equal to the entry's value: every
      element lands in the one entry of its class. */
  lemma FrequenciesCountOccurrences<T(!new)>(eq: (T, T) -> bool, s: seq<T>)
    requires IsEquivalence(eq)
    ensures forall k :: 0 <= k < |Frequencies(eq, s)| ==>
      Frequencies(eq, s)[k].1 == Occurrences(eq, Frequencies(eq, s)[k].0, s)
  {
    FrequenciesCounts(eq, s);
  }
}
