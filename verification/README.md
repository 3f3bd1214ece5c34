# pinking-shears in Dafny

This project models the computational core of *pinking-shears*, a browser
tool that turns an image into pixel art. It samples the image on a coarse
grid of tiles, extracts a palette of dominant colours and maps every pixel
onto that palette, either by error diffusion or through an ordered
(threshold-map) dither. The model covers the following parts:

- **Sequence combinators.** The lazy `ix` operators (`enumerate`, `filter`,
  `flatten`, `map`, `partition`, `range`, `scan`, `skip`, `skipWhile`,
  `take`, `takeWhile`, `zip`, `zipWith`, `product`). The eager operators
  (`first`, `fold`, `isEmpty`, `reduce`, `max`, `min`). The strict
  operators (`partition`, `binarySearchIndex`, `partialSort`). The
  `interactive` helpers (`count`, `last`, `frequencies`, `unique`).
  `pipe`, the comparers, and the small array and `util` helpers. The
  repository has three copies of the iterator combinators (`lazy.js`,
  `lib/interactive.js` and the bundle at the top of `index.js`). Each one is
  modelled once, in `LazyOps` and `Operators`, as a function on finite
  sequences.
- **Vectors and colours.** The component-wise vector arithmetic of
  `lib/vector.js`. The colour helpers of `lib/color.js`: normalisation,
  premultiplied alpha, the alpha-aware average, distance and tolerance
  tests, and the `#rrggbb` hex codec.
- **Geometry.** Points, sizes and bounding boxes of `lib/geometry.js`.
- **The image pipeline of `main.js`.**
  - Row-major pixel addressing (`LexicographicOrder`, `pixelAt`,
    `pixelAtCoords`, `pixelsIn`).
  - Colour frequencies.
  - `makePalette`, which groups colours by descending frequency around an
    anchor.
  - `closest`.
  - `palettizeWithErrorDiffusion` with the Floyd–Steinberg and
    Jarvis–Judice–Ninke kernels.
  - `palettizeWithThresholdMap` with its Bayer-style matrices.
- **The tile sampler of `index.js`.** `colorsIn`, `sampleRectangleSize`,
  `makeTileSampledAlgo`, its `frequencies`, the colour comparisons, and the
  six reducers (exact/similar most or least frequent colour, and the
  average).

How JavaScript constructs are rendered:

- JavaScript numbers are `real` when they are coordinates, distances,
  comparer results or keys. They are `int` when they are byte channels or
  indices.
- `Math.round(x)` is `floor(x + 1/2)`.
- A store into a `Uint8ClampedArray` is written out explicitly: clamp to
  [0, 255], then round half to even (`Color.ToUint8Clamp`). This covers
  `map` over a tile colour in `index.js`, which builds another clamped
  array (`TileSampler.ClampedSquaredDifference`).
- `Math.sqrt` is never computed. Every comparison of distances is made on
  squared distances, and `Vector.RootCompare` shows that this preserves the
  order.
- A thrown error becomes a `Failure` of `Wrappers.Result`.
- A possibly absent value becomes an `Option`.
- Callbacks become function-valued parameters.
- `main.js` uses `C.COMPONENTS`, `C.areClose`, `C.averageOfWeighted` and
  `C.asUint32`, but `lib/color.js` exports none of them, so as written
  `pixelAt` and `makePalette` raise a `TypeError` (see Findings). The
  model gives the intended behaviour: four bytes per pixel, and closeness,
  weighted average and colour key as parameters of the operations that
  use them.

Where the code does not do what it evidently means to, the model follows the code:

- The tile sampler's *average* reducer uses the `averageOf` defined in
  `index.js`, not the alpha-aware `averageOf` of `lib/color.js`. It sums
  every channel of every pixel, but divides red, green and blue by the
  number of non-transparent pixels only (see Findings).
- The tile sampler's tolerance test measures a clamped, one-sided channel
  difference, under which every pair of colours is within 0.5 of each
  other (see Findings).
- `TileSampler.Algorithms` is the table as written; `TileSampler.IntendedAlgorithms`
  uses the corrected tolerance test and average.
- `frequencies` in `index.js` records a new value with a count of 0, so
  every stored count is one less than the count `lib/interactive.js`'s
  `frequencies` keeps for the same entry (`TileSampler.FrequenciesCountFromZero`).
  Under an equivalence such as `areSameColor`, that is one less than the
  number of occurrences of the entry's value
  (`TileSampler.FrequenciesCountsLaterOccurrences`). The most/least-frequent
  reducers only compare counts, so their choice is unaffected
  (`TileSampler.MostFrequentIsLargestGroup`): no colour of the tile occurs
  more often than the most significant one
  (`TileSampler.MostFrequentOccursMost`).

## Model

Only members that carry a contract have a row. Definitions without one,
such as `TileSampler.AverageAsWritten`, `TileSampler.ClampedSquaredDifference`,
`TileSampler.Similar`, `TileSampler.Algorithms`, `Palette.MakePalette` and
`Image.OffsetOf`, are reached through the rows of the lemmas about them
and through the Findings table.

| member | source | states |
|---|---|---|
| Functional.NumberCompare | lib/functional.js:3-7 | the comparer's result is negative, zero or positive exactly when the left operand is below, equal to or above the right one |
| Functional.NumberCompareAntisymmetric | lib/functional.js:3-7 | swapping the operands negates the result; a value compares equal to itself |
| Functional.ReferentialEquality | lib/functional.js:9-11 | holds exactly when the two values are the same value |
| Functional.ReferentialEqualityIsEquivalence | lib/functional.js:9-11 | the equality is reflexive, symmetric and transitive |
| Util.IsDefined | lib/util.js:10 | true exactly for a present value |
| Util.AreDefined | lib/util.js:1 | true exactly when every argument is present, so it is vacuously true for no arguments |
| Util.FirstDefinedOf | lib/util.js:3-8 | undefined exactly when every argument is undefined; otherwise the leftmost defined argument |
| Util.AreDefinedFirst | lib/util.js:1-8 | when all arguments are defined, the first defined one is the first argument; when none is found, not all are defined |
| Ix.Pipe | lib/ix.js:3-7 | with no stages the value comes back unchanged; otherwise the stages are applied left to right, each to the previous stage's result |
| Ix.AppliedAppend | lib/ix.js:3-7 | piping through two stage lists in a row equals piping through their concatenation |
| Ix.AppliedCons | lib/ix.js:3-7 | piping through `f, ...rest` equals piping `f(v)` through `rest` |
| ArrayOps.FindIndex | lib/array.js:7-9 | the first index whose element satisfies the predicate, or -1 exactly when none does |
| ArrayOps.IndexOf | lib/array.js:7-9 | the first position of an element equal to the value, under the given equality or else strict equality; -1 exactly when there is none |
| ArrayOps.Contains | lib/array.js:3-5 | true exactly when some element equals the value |
| ArrayOps.Omits | lib/array.js:11-13 | true exactly when no element equals the value |
| ArrayOps.OmitsIsNotContains | lib/array.js:3-13 | `omits` is the negation of `contains` under every equality |
| LazyOps.Enumerate | lib/ix/operators/lazy.js:10-13 | yields each element paired with its index, in order, one pair per element |
| LazyOps.Filter | lib/ix/operators/lazy.js:15-18 | yields no more elements than the input has (membership and order are in the next two rows) |
| LazyOps.FilterMembers | lib/ix/operators/lazy.js:15-18 | an element appears in the output exactly when it occurs in the input at an index where the predicate holds |
| LazyOps.FilterCongruence | lib/ix/operators/lazy.js:15-18 | the output depends only on the predicate's verdicts for the given (element, index) pairs |
| LazyOps.FilterConcat | lib/ix/operators/lazy.js:15-18 | filtering a concatenation concatenates the filtered parts, so input order is kept |
| LazyOps.Map | lib/ix/operators/lazy.js:24-26 | one output per input: the selector applied to the element and its index |
| LazyOps.FlattenUniformLength | lib/ix/operators/lazy.js:20-22 | flattening `n` blocks of length `m` gives `n*m` elements |
| LazyOps.FlattenUniformAt | lib/ix/operators/lazy.js:20-22 | element `i*m+j` of the flattened blocks is element `j` of block `i` |
| LazyOps.FlatMapSnoc | lib/ix/operators/lazy.js:28 | the selector's results are concatenated in input order |
| LazyOps.FlatMapUniformLength | lib/ix/operators/lazy.js:28 | when every selector result has length `m`, the output has `n*m` elements |
| LazyOps.FlatMapUniformAt | lib/ix/operators/lazy.js:28 | when every selector result has length `m`, output `i*m+j` is element `j` of the result for input `i` |
| LazyOps.FilterComplement | lib/ix/operators/lazy.js:30-33 | the elements a predicate accepts and the ones it rejects together form a permutation of the input |
| LazyOps.Partition | lib/ix/operators/lazy.js:30-33 | each accepted element lands in the first half and each rejected one in the second; each half holds only elements the predicate accepts (respectively rejects) at some index; together the halves are a permutation of the input (corrected, see Findings) |
| LazyOps.PartitionAsWritten | lib/ix/operators/lazy.js:30-33 | as written: the second half is either empty or the whole input, whatever the elements are |
| LazyOps.PartitionAsWrittenKeepsAccepted | lib/ix/operators/lazy.js:8 | as written, partitioning `[1, -1]` by "positive" puts the accepted `1` in the rejected half too |
| LazyOps.Range | lib/ix/operators/lazy.js:35-41 | every element lies in `[from, to)`, and the range is empty exactly when `from >= to` |
| LazyOps.RangeAt | lib/ix/operators/lazy.js:35-41 | element `i` is `from + i*step`, and the next step after the last element reaches `to`, so no value is cut short |
| LazyOps.UnitRange | lazy.js:45-47 | the unit-step range has `to - from` elements (none when `from >= to`), element `i` being `from + i` |
| LazyOps.Scan | lib/ix/operators/lazy.js:43-49 | one output per adjacent pair: the selector applied to the previous element, the current element and the previous index; nothing for fewer than two elements |
| LazyOps.SkipWhile | lib/ix/operators/lazy.js:53-58 | yields no more elements than the input, and keeps every element the predicate rejects |
| LazyOps.SkipWhileIsFilter | lib/ix/operators/lazy.js:53-58 | the loop `continue`s on every accepted element instead of only a leading run, so `skipWhile` equals the filter of the negated predicate |
| LazyOps.TakeWhile | lib/ix/operators/lazy.js:62-67 | a prefix of the input whose elements all satisfy the predicate, followed in the input by an element that fails it, if any: the longest such prefix |
| LazyOps.Take | lib/ix/operators/lazy.js:60 | the first `min(count, n)` elements, clamped at 0 for a negative count |
| LazyOps.TakeBelow | lib/ix/operators/lazy.js:60-67 | `takeWhile` on "index below count" yields the first `count` elements, clamped to `[0, n]` |
| LazyOps.Skip | lib/ix/operators/lazy.js:51 | everything from index `count` on, the whole input for a negative count |
| LazyOps.SkipBelow | lib/ix/operators/lazy.js:51-58 | `skipWhile` on "index below count" yields everything from index `count` on, clamped to `[0, n]` |
| LazyOps.TakeSkip | lib/interactive.js:105-121 | `take(count)` followed by `skip(count)` gives the input back |
| LazyOps.Zip | lib/ix/operators/lazy.js:80-86 | stops at the shortest input; tuple `i` holds element `i` of every input |
| LazyOps.ZipWith | lib/ix/operators/lazy.js:88 | the combiner applied to each tuple of `zip`, as long as the shortest input |
| LazyOps.Product | lib/ix/operators/lazy.js:90-91 | the Cartesian product of all inputs: its length is the product of their lengths and each tuple has one entry per input |
| LazyOps.ProductRowMajor | lib/ix/operators/lazy.js:90-91 | tuples come in row-major order: tuple `i*m + j` is element `i` of the first input followed by tuple `j` of the product of the rest |
| LazyOps.Product2 | lib/ix/operators/lazy.js:90-91 | the product of two inputs has `|a|*|b|` pairs, pair `i*|b|+j` being `(a[i], b[j])` |
| Operators.First | lib/ix/operators.js:5-7 | absent exactly for an empty input, otherwise its first element |
| Operators.IsEmpty | lib/ix/operators.js:19-22 | true exactly for an empty input |
| Operators.FirstOfAppend | lib/ix/operators.js:5-7 | `first` only looks at the first input when that is non-empty |
| Operators.FoldAppend | lib/ix/operators.js:9-13 | folding a concatenation folds the second part starting from the first part's result |
| Operators.FoldCons | lazy.js:31-35 | folding `x` followed by `rest` folds `rest` starting from `fn(seed, x)` |
| Operators.Reduce | lib/ix/operators.js:24-28 | absent exactly for an empty input; a single element is returned unchanged |
| Operators.ReduceIsFoldOfTail | lib/ix/operators.js:24-28 | `reduce` is `fold` over the tail, seeded with the first element |
| Operators.Max | lib/ix/operators.js:30 | absent exactly for an empty input (which element is chosen is in `MaxIsEarliestMaximum`) |
| Operators.Min | lib/ix/operators.js:32 | absent exactly for an empty input (which element is chosen is in `MinIsEarliestMinimum`) |
| Operators.MaxIsEarliestMaximum | lib/ix/operators.js:30 | for a comparer whose sign agrees with comparing some key, the result is an element of largest key, the earliest one among ties |
| Operators.MinIsEarliestMinimum | lib/ix/operators.js:32 | for a comparer whose sign agrees with comparing some key, the result is an element of smallest key, the earliest one among ties |
| StrictOps.Partition | lib/ix/operators/strict.js:3-7 | the two halves together have exactly as many elements as the input |
| StrictOps.PartitionIsFilter | lib/ix/operators/strict.js:3-7 | the two halves are the filter of the predicate and of its negation, both in input order |
| StrictOps.LazyPartitionIsStrict | lib/ix/operators/lazy.js:30-33 | the lazy `partition` (with `_not` as intended) and the strict one of `lib/ix/operators/strict.js` give the same halves in the same order |
| StrictOps.PartitionPermutes | lib/ix/operators/strict.js:3-7 | together the two halves are a permutation of the input |
| StrictOps.Middle | lib/ix/operators/strict.js:16 | the probe `Math.floor((start + end) / 2)` lies in `[start, end)` |
| StrictOps.SearchBetween | lib/ix/operators/strict.js:14-22 | the search result stays within `[start, end]` |
| StrictOps.BinarySearchIndex | lib/ix/operators/strict.js:12-23 | the result is an insertion point in `[0, |a|]` |
| StrictOps.SearchBetweenSplits | lib/ix/operators/strict.js:14-22 | on a range sorted around the item, every element left of the result compares no greater than the item and every element from the result on compares no smaller |
| StrictOps.InsertionPoint | lib/ix/operators/strict.js:12-23 | on an array sorted around the item, the result splits it into elements no greater than the item followed by elements no smaller |
| StrictOps.Splice | lib/ix/operators/strict.js:33 | the result has exactly one element more than the array |
| StrictOps.SpliceLayout | lib/ix/operators/strict.js:33 | on a sorted array, the item lands at some index; everything before it is the old prefix and not above the item, everything after it is the old suffix and not below the item |
| StrictOps.SpliceSorted | lib/ix/operators/strict.js:33 | inserting at the binary-search position keeps a sorted array sorted |
| StrictOps.SpliceMultiset | lib/ix/operators/strict.js:33 | the result holds the old elements plus the item |
| StrictOps.SpliceLast | lib/ix/operators/strict.js:33-34 | after the insertion, either the old elements still lead the array, or the old last element is now the last one |
| StrictOps.PartialSortStep | lib/ix/operators/strict.js:31-35 | the buffer grows by one element until it holds `count` elements, then keeps its length |
| StrictOps.StepSorted | lib/ix/operators/strict.js:31-35 | one step keeps the buffer sorted |
| StrictOps.StepContents | lib/ix/operators/strict.js:31-35 | the new buffer plus the popped element, if any, equals the old buffer plus the new item |
| StrictOps.StepEvictsLargest | lib/ix/operators/strict.js:34 | an element is popped only once the buffer is full, and it is no smaller than anything kept |
| StrictOps.PartialSort | lib/ix/operators/strict.js:26-37 | returns `min(count, n)` elements, none for a non-positive count |
| StrictOps.PartialSortSorted | lib/ix/operators/strict.js:29-37 | the result is sorted by the comparer |
| StrictOps.PartialSortContents | lib/ix/operators/strict.js:30-36 | the result plus the elements dropped along the way equals the input, as multisets |
| StrictOps.DroppedOnlyWhenFull | lib/ix/operators/strict.js:34 | an element is dropped only when the result holds `count` elements |
| StrictOps.DroppedAboveKept | lib/ix/operators/strict.js:34 | every dropped element compares no smaller than every kept one |
| StrictOps.PartialSortKeepsSmallest | lib/ix/operators/strict.js:26-37 | the result is sorted, drawn from the input, and no input element left out is smaller than one kept: the `count` smallest elements |
| StrictOps.SearchOrderInvariant | lib/ix/operators/strict.js:12-23 | the search gives the same index under any two keys that order values alike |
| StrictOps.PartialSortOrderInvariant | lib/ix/operators/strict.js:26-37 | the partial sort gives the same result under any two keys that order values alike |
| Interactive.FoldIncrement | lib/interactive.js:25-27 | folding `+1` over the input from `k` gives `k + n` |
| Interactive.Count | lib/interactive.js:25-27 | the number of elements |
| Interactive.Last | lib/interactive.js:79-81 | absent exactly for an empty input, otherwise the last element |
| Interactive.Frequencies | lib/interactive.js:61-72 | at most one entry per element, and each entry counts at least one occurrence |
| Interactive.FrequenciesTotal | lib/interactive.js:61-72 | the counts add up to the number of elements |
| Interactive.Unique | lib/interactive.js:123-129 | yields no more elements than the input, and only elements of the input |
| Interactive.UniqueDistinct | lib/interactive.js:123-129 | every result element comes from the input; no two result elements are equal under the equality; every input element is in the result or equal to a result element |
| Interactive.EntrySearch | lib/interactive.js:64 | the search for an entry fails exactly when no stored value is equal to the element |
| Interactive.FrequenciesRepresentatives | lib/interactive.js:61-72 | the values of the frequency table are exactly `unique` of the input |
| Interactive.Occurrences | lib/interactive.js:61-72 | the number of elements an equality matches with a value: zero exactly when none matches, and at most the input length |
| Interactive.OccurrencesCongruent | lib/interactive.js:61-72 | under an equivalence, equal values occur equally often |
| Interactive.FrequenciesClasses | lib/interactive.js:61-72 | under an equivalence, the entries' values are pairwise unequal and every element equals one of them |
| Interactive.FrequenciesCountOccurrences | lib/interactive.js:61-72 | under an equivalence, each entry's count is the number of elements equal to its value |
| Interactive.UniqueCovers | lib/interactive.js:123-129 | under a reflexive and transitive equality, every input element is equal to some element of the result |
| Interactive.UniqueStep | lib/interactive.js:126 | under a reflexive and transitive equality, an element is appended exactly when it is the first of its class |
| Interactive.UniqueKeepsFirstOfClass | lib/interactive.js:123-129 | under a reflexive and transitive equality, the result is the input filtered to the first element of each class, in order of first occurrence |
| Vector.DifferenceOf | lib/vector.js:6-8 | component-wise difference, one component per component of the left operand |
| Vector.SumOf | lib/vector.js:22-24 | component-wise sum, one component per component of the left operand |
| Vector.UniformScale | lib/vector.js:30-32 | every component multiplied by the factor |
| Vector.DotSnoc | lib/vector.js:14-16 | the dot product accumulates component products left to right |
| Vector.DotSymmetric | lib/vector.js:14-16 | the dot product is symmetric |
| Vector.SquaredLengthSnoc | lib/vector.js:26-28 | the squared length adds one squared component per component |
| Vector.SquaredLengthNonNegative | lib/vector.js:26-28 | the squared length is non-negative, and zero exactly when every component is zero |
| Vector.SquaredLengthBound | lib/vector.js:26-28 | when every squared component is at most `m`, the squared length is at most `m` times the number of components |
| Vector.SquaredDistanceMetric | lib/vector.js:10-12 | the squared distance is symmetric, non-negative and zero exactly for equal vectors |
| Vector.SumOfDifference | lib/vector.js:6-24 | adding a difference back to its subtrahend restores the minuend |
| Vector.DifferenceSelfAndSumCommutes | lib/vector.js:6-24 | a vector minus itself is zero, and the sum is commutative |
| Vector.UniformScaleIdentity | lib/vector.js:30-32 | scaling by 1 changes nothing, and scaling by 0 gives a zero vector |
| Vector.RootCompare | lib/vector.js:10-20 | taking the square root keeps the order of non-negative values, so squared distances order colours as distances do |
| Geometry.SubtractInvertsOffset | lib/geometry.js:17-22 | `subtract` recovers the displacement an `offset` applied, and offsetting by a difference reaches its minuend |
| Geometry.PointEquality | lib/geometry.js:21 | true exactly for equal points |
| Geometry.MakeSize | lib/geometry.js:24-36 | succeeds exactly for non-negative sides; a negative width fails with the width message first, else a negative height with the height message (spelled "most be" as in the source) |
| Geometry.SizeEquality | lib/geometry.js:38 | true exactly for equal sizes |
| Geometry.SizeOf | lib/geometry.js:49 | the size spans from left to right and from top to bottom |
| Geometry.BoxExtent | lib/geometry.js:40-49 | every box has ordered edges whose distances are its non-negative width and height |
| Geometry.OffsetTranslates | lib/geometry.js:50 | `offset` moves every edge by the displacement and keeps the size |
| Geometry.FromLimits | lib/geometry.js:54-60 | succeeds exactly when `left <= right` and `top <= bottom`, checking left/right first, and yields a box with exactly those edges |
| Geometry.FromRect | lib/geometry.js:62-68 | succeeds exactly for a non-negative width and height; the box has top-left corner `(x, y)` and the given size |
| Geometry.FromRectIsFromLimits | lib/geometry.js:54-68 | a rectangle and the limits of its edges give the same box |
| Geometry.FromLimitsOfBox | lib/geometry.js:54-60 | building a box from its own limits gives it back |
| Geometry.BoxEqualityIsEquality | lib/geometry.js:70-72 | box equality holds exactly for equal boxes and is reflexive and symmetric |
| Color.AreEqualIsPrefix | lib/color.js:4-7 | `areEqual` holds exactly when every channel of the left colour equals the right colour's channel, so for equal lengths exactly when the colours are equal |
| Color.RoundFacts | lib/color.js:19-21 | `Math.round` returns integers unchanged and maps `[0, 255]` into byte values |
| Color.FromUint8ToFloat | lib/color.js:15-17 | each byte channel is divided by 255, one float per channel |
| Color.FromFloatToUint8 | lib/color.js:19-21 | each float channel becomes `Math.round(255·x)`, one byte per channel; `FloatRoundTrip` is its inverse on bytes |
| Color.FloatRoundTrip | lib/color.js:15-21 | converting bytes to floats and back gives the bytes again |
| Color.Premultiplied | lib/color.js:23-25 | four channels, with the alpha channel kept |
| Color.PremultipliedAt | lib/color.js:23-25 | each colour channel is multiplied by alpha |
| Color.PremultipliedSum | lib/color.js:27-34 | the running sum of premultiplied colours has four channels |
| Color.AverageOf | lib/color.js:27-34 | absent exactly for no colours; otherwise four channels |
| Color.PremultipliedSumBounds | lib/color.js:27-34 | every channel of the sum lies between 0 and the number of colours, and each colour channel is at most the summed alpha |
| Color.AverageOfBounds | lib/color.js:27-34 | every channel of the average is a byte |
| Color.AverageOfTransparent | lib/color.js:32-33 | when every alpha is zero the average is `[0, 0, 0, 0]`, not a division by zero |
| Color.AverageOfSingle | lib/color.js:27-34 | the average of one colour with byte channels and non-zero alpha is that colour's first four channels |
| Color.DistanceMetric | lib/color.js:36-42 | the distance is symmetric, non-negative, and zero exactly for equal colours |
| Color.DistanceBound | lib/color.js:36-42 | for byte colours the normalised squared distance stays within `[0, 1]` |
| Color.AreAlmostEqualIsInclusive | lib/color.js:9-13 | almost-equal holds exactly when the distance is at most the tolerance, the bound included |
| Color.AreAlmostEqualProperties | lib/color.js:9-13 | almost-equal is reflexive for a non-negative tolerance and symmetric, and a zero tolerance means equality |
| HexColor.ParseHexBound | lib/color.js:65 | `parseInt(s, 16)` of `n` hex digits is below `16^n` |
| HexColor.ToHexString | lib/color.js:77 | `toString(16)` yields a non-empty string of lowercase hex digits |
| HexColor.ParseToHexString | lib/color.js:77 | parsing the hex string of a number gives the number back, and a positive number has no leading zero |
| HexColor.LastSix | lib/color.js:77 | `slice(-6)` keeps exactly the last six characters |
| HexColor.IntegerToHexString | lib/color.js:74-78 | succeeds exactly for a non-negative integer (integers are always whole, so the second check never fails) |
| HexColor.IntegerToHexStringDigits | lib/color.js:74-78 | the result is six lowercase hex digits that read back as the integer modulo `0x1000000` |
| HexColor.Pack | lib/color.js:81 | the packed channels fit in 24 bits |
| HexColor.BitPacking | lib/color.js:81 | shifting and or-ing byte channels equals `r*65536 + g*256 + b` |
| HexColor.BitFields | lib/color.js:66-71 | masking and shifting a 24-bit integer recovers its three bytes |
| HexColor.ArrayColorToHexString | lib/color.js:80-82 | the colour is written as `#` followed by six lowercase hex digits |
| HexColor.HexColorStringToArray | lib/color.js:60-72 | succeeds exactly when the string is `#` followed by six hex digits; the result is the three channels followed by alpha 255, all bytes |
| HexColor.HexRoundTrip | lib/color.js:60-82 | decoding the hex string of a byte colour gives the colour with alpha 255 |
| HexColor.HexColorStringToArrayAsWritten | lib/color.js:60-64 | as written, every call raises a reference error |
| HexColor.IntegerToHexStringAsWritten | lib/color.js:74-76 | as written, every call raises a reference error |
| HexColor.ArrayColorToHexStringAsWritten | lib/color.js:80-82 | as written, every call raises a reference error |
| HexColor.CodecAsWrittenRaises | lib/color.js:61 | as written, the codec fails even on `#000000` and on black |
| Image.OffsetOfIsHorner | main.js:149-152 | the row-major offset is Horner's rule over the indices and dimensions |
| Image.OffsetOfRowColumn | main.js:149-152 | in two dimensions the offset of `(x, y)` is `y*width + x` |
| Image.JsRemainder | main.js:153-156 | for a non-negative dividend, JavaScript's `%` is the Euclidean remainder by the divisor's magnitude |
| Image.Decompose | main.js:153-156 | each `reduceRight` step prepends one index, so one index per stride is produced |
| Image.IndicesOf | main.js:153-156 | `indicesOf(...strides)` yields one index per stride (its inverse is in the next row) |
| Image.IndicesOfOffsetOf | main.js:149-156 | for in-bounds indices, `indicesOf` after `offsetOf` gives back every index except the leading one, which `indicesOf` discards as the final quotient |
| Image.PixelAt | main.js:159-165 | a pixel exists exactly when `0 <= offset` and its four bytes lie inside the data; it is those four bytes |
| Image.PixelAtAsWritten | main.js:159-165 | as written: succeeds exactly when `lib/color.js` exports `COMPONENTS`, and then returns what `pixelAt` intends |
| Image.PixelAtCoords | main.js:167-171 | the pixel at `(x, y)` is the pixel at offset `y*width + x` |
| Image.PixelAtCoordsInside | main.js:167-171 | every coordinate inside the image addresses a pixel |
| Image.CoordsPixel | main.js:167-171 | the pixel at coordinates is the one at their row-major offset |
| Image.PixelsIn | main.js:173-185 | one entry per visited offset: all `width*height` offsets for no area, otherwise the clipped rows times the clipped columns |
| Image.WholeOffsets | main.js:174 | the area covering the image lists every offset `0 .. w*h-1` in order |
| Image.PixelsInWholeAt | main.js:173-185 | over the whole image, colour `k` is the pixel at offset `k` |
| Image.PixelsInWhole | main.js:173-185 | over the whole image the colours, laid end to end, are exactly the pixel data |
| Image.RangeProductAt | main.js:175-178 | walking rows then columns visits `(top + i, left + j)` at step `i*width + j` |
| Image.AreaOffsetAt | main.js:174-180 | step `i*width + j` of an area reads the image at column `left + j`, row `top + i` |
| Image.PixelsInArea | main.js:173-185 | the colours of an area are listed row by row, left to right |
| Image.AreaCellInside | main.js:176-177 | cells of a clipped area lie inside the image |
| Image.PixelsInAreaClipped | main.js:173-185 | a clipped area reads only pixels that exist |
| Image.KeyedFrequencies | main.js:216-225 | at most one entry per pixel, each counting at least one pixel |
| Image.KeyedFrequenciesFacts | main.js:216-225 | keys of the entries are distinct; the entries hold the first pixel of each key, in order of first occurrence; counts add up to the number of pixels |
| Palette.InsertByCount | main.js:254 | the buffer grows by exactly the inserted entry |
| Palette.SortByCount | main.js:254 | the sort returns a permutation of the entries |
| Palette.SortByCountSorted | main.js:254 | the result is in descending order of count |
| Palette.SortByCountStable | main.js:254 | entries with equal counts keep their input order |
| Palette.AnchorLeaves | main.js:256-260 | with a reflexive closeness test, the anchor is the first entry of the first part, so the remaining list shrinks and the loop ends |
| Palette.Groups | main.js:255-261 | for a reflexive closeness test: every group is non-empty; there are none exactly when there are no entries; the first group starts with the first entry |
| Palette.GroupStep | main.js:257-259 | the first part holds only entries close to the anchor, the second only entries that are not, and the second stays sorted by count |
| Palette.GroupsPermutation | main.js:255-261 | the groups, laid end to end, are a permutation of the entries |
| Palette.GroupsAnchored | main.js:257 | every member of a group is one of the entries and is close to the group's first entry, its anchor |
| Palette.GroupsFirstFit | main.js:256-261 | no entry is close to the anchor of an earlier group |
| Palette.GroupsAnchorsDescend | main.js:254-261 | on count-sorted input, every anchor's count is at least that of every entry in its own and every later group, so dominant colours come first |
| Palette.MakePaletteFacts | main.js:252-263 | one palette colour per group, each the weighted average of its group's colours by count; the groups partition the colour frequencies, are anchored, first-fit and led by descending anchors; there are groups exactly when there are pixels |
| Palette.MakePaletteAsWritten | main.js:252-263 | as written: succeeds exactly when `lib/color.js` exports `areClose`, and then returns what `makePalette` intends |
| Palette.MissingColorExportsRaise | main.js:160 | as written, reading an in-range pixel and making a palette from at least one pixel raise a `TypeError`; as intended the pixel exists and the palette is not empty |
| Palette.Closest | main.js:265-278 | absent exactly for an empty palette; otherwise a palette colour |
| Palette.ClosestIsEarliestMinimum | main.js:265-278 | the result is no further than any palette colour and strictly closer than every earlier one, so ties go to the earlier colour |
| Palette.ClosestOrderInvariant | main.js:265-278 | only the order of the distances matters, so squared distances give the same colour |
| Color.ToUint8Clamp | main.js:325 | the stored byte is in `[0, 255]`, 0 below and 255 above the range, and within one half of the value inside it |
| Dither.StoredOfBytes | main.js:325 | storing byte values leaves them unchanged |
| Dither.Store | main.js:325 | writes the clamped pixel at its offset and leaves every other byte unchanged |
| Dither.StorePixel | main.js:325 | reading the written pixel back gives the clamped values, and every other pixel is unchanged |
| Dither.TapsOf | main.js:303-312 | both kernels' shares add up to 1 and only point at pixels later in row-major order |
| Dither.ApplyTap | main.js:326-329 | a tap keeps the dimensions and well-formedness of the image, and a tap outside the image changes nothing |
| Dither.ApplyTaps | main.js:326-329 | applying the taps keeps the dimensions and well-formedness of the image |
| Dither.TapForward | main.js:326-329 | a forward tap changes no pixel at or before the current one |
| Dither.TapsForward | main.js:326-329 | forward taps together change no pixel at or before the current one |
| Dither.TapsZero | main.js:324-329 | a zero error changes no pixel |
| Dither.ClosestBySquaredDistance | main.js:323 | choosing by distance or by squared distance picks the same palette colour |
| Dither.ClosestOfMember | main.js:323 | a palette colour is its own closest colour |
| Dither.Replacement | main.js:322-323 | the replacement of a pixel is a palette colour |
| Dither.DiffuseAt | main.js:321-330 | one step keeps the image well-formed and its dimensions unchanged |
| Dither.DiffuseAtForward | main.js:321-330 | with forward taps, one step writes the stored replacement colour at the current pixel and changes no earlier pixel |
| Dither.DiffuseAtMember | main.js:321-330 | if the current pixel is a palette colour, the step changes nothing |
| Dither.DiffuseStepPalette | main.js:316-331 | with forward taps, if every pixel before the current one holds a palette colour, then after the step every pixel up to and including it does |
| Dither.DiffuseStepMember | main.js:321-330 | a step on an all-palette image changes nothing |
| Dither.PalettizeWithErrorDiffusion | main.js:314-333 | raises a `TypeError` exactly when the palette is empty and the image has pixels; otherwise keeps the dimensions, with forward taps turns every pixel into a palette colour, and returns an image made only of palette colours unchanged |
| Dither.LevelsOf | main.js:382-398 | both threshold matrices are square, non-empty, with levels in `[0, 1)` |
| Dither.ThresholdAt | main.js:335-340 | the threshold is an entry of the matrix, absent exactly when the selected row is empty |
| Dither.ThresholdAtTiles | main.js:335-340 | the map repeats every matrix height downwards and every row length across, and inside the matrix it is the matrix entry |
| Dither.SelectIndex | main.js:353 | the selected index is 0 or 1 |
| Dither.SelectIndexIsRatioTest | main.js:353 | index 0, the nearer colour, is chosen exactly when there is a threshold, the two candidates are apart, and the pixel's distance to the nearer one over the candidates' distance from each other is below the threshold; otherwise index 1 |
| Dither.ClosestTwo | main.js:352 | two colours, for a palette of at least two |
| Dither.PartialSortBySquares | lib/ix/operators/strict.js:9-22 | partially sorting by non-negative keys or by their squares gives the same result |
| Dither.ClosestTwoBySquaredDistance | main.js:352 | `closest2` keyed by the root distance `C.distanceOf` is the same two colours, in order, as keyed by its square |
| Dither.ClosestTwoNearest | main.js:352 | the two come from the palette, the first no farther than the second, and no other palette colour nearer than the second |
| Dither.ThresholdPick | main.js:350-354 | the pixel is replaced by one of its two nearest palette colours |
| Dither.ThresholdPickWithoutThreshold | main.js:353 | with no threshold or a non-positive one, the farther of the two candidates is picked |
| Dither.ThresholdPickKeepsPixel | main.js:353 | with a positive threshold, a pixel equal to its nearest palette colour, and different from the second, is kept |
| Dither.PickAt | main.js:349-355 | one pick keeps the dimensions of the image |
| Dither.PalettizeWithThresholdMap | main.js:342-358 | raises a `TypeError` exactly when the palette has fewer than two colours and the image has pixels, and returns an empty image unchanged; otherwise keeps the dimensions, and pixel `q` becomes the pick between its two nearest palette colours under the threshold of column `q % width` and row `q / width` |
| Dither.ThresholdPickInPalette | main.js:350-354 | the stored pick is a palette colour |
| TileSampler.Slice | index.js:157 | within bounds it is exactly the sub-array, and it never holds more than the data |
| TileSampler.ColorsIn | index.js:153-158 | one colour per visited offset |
| TileSampler.AreaOffsetAt | index.js:154-156 | step `k` reads the offset of row `top + k / columns` and column `left + k % columns`, in row-major order |
| TileSampler.SameOffsetsAsPixelsIn | index.js:153-158 | walks the same offsets as `pixelsIn` of `main.js` |
| TileSampler.ColorsInArea | index.js:153-158 | with non-negative top and left, colour `k` is the pixel at the `k`-th row-major cell of the clipped area, and that cell is inside the image |
| TileSampler.ColorsInRgba | index.js:157 | inside the image every colour has four byte channels |
| TileSampler.ColorsInEmpty | index.js:153-158 | a clipped area has colours exactly when its width and height are positive and its corner lies inside the image |
| TileSampler.CeilDiv | index.js:163-164 | `Math.ceil(a / b)` is the least `r` with `a <= r*b` |
| TileSampler.SampleRectangleSize | index.js:160-166 | the tile sides are the image sides over the resolution, rounded up; squareness is not enforced |
| TileSampler.TileColors | index.js:174-175 | every colour of a tile has byte channels |
| TileSampler.TileColorsEmpty | index.js:174-176 | a tile has colours exactly when the tile size is positive and the tile's corner lies inside the image |
| TileSampler.ReducedTile | index.js:173-181 | each tile contributes at most one colour |
| TileSampler.TileRow | index.js:173-181 | a row holds at most one colour per tile |
| TileSampler.TileRowCount | index.js:173-181 | when exactly the first `m` tiles of a row have colours, the row has `min(n, m)` colours |
| TileSampler.TileRowFull | index.js:173-181 | when every tile of a row has colours, colour `col` is the reducer applied to tile `col` |
| TileSampler.TilesOfEmpty | index.js:173-176 | tile `(row, col)` has colours exactly when the tile size is positive, the row starts inside the image and `col < ceil(width / tileWidth)` |
| TileSampler.TilesOfRowCount | index.js:173-181 | a row starting inside the image has `min(n, ceil(width / tileWidth))` colours, a row below it none |
| TileSampler.TileSampled | index.js:168-183 | `resolution` rows (none for a non-positive resolution), each with at most `resolution` colours |
| TileSampler.SampleSizePositive | index.js:160-166 | tile sides are non-negative, and positive exactly when the image side is |
| TileSampler.TileSampledRowLength | index.js:168-183 | a row has `min(resolution, ceil(width / tileWidth))` colours when it starts inside the image, otherwise none |
| TileSampler.ExactTileSize | index.js:160-166 | for a square image of side `resolution*k`, the tiles are `k` by `k` |
| TileSampler.ExactTiling | index.js:168-183 | for a square image of side `resolution*k`, every row has `resolution` colours, each the reducer applied to its `k`-by-`k` tile |
| TileSampler.ColorsInCount | index.js:153-158 | an area has as many colours as clipped rows times clipped columns |
| TileSampler.ExactTilePixels | index.js:168-183 | then each tile holds `k*k` colours, colour `i` being the pixel at column `col*k + i % k`, row `row*k + i / k` |
| TileSampler.Frequencies | index.js:185-198 | empty exactly for no values, at most one entry per value, and every entry's value comes from the input |
| TileSampler.FrequenciesCountFromZero | index.js:185-198 | the same entries, in the same order and with the same values, as `frequencies` of `lib/interactive.js`, each count one less |
| TileSampler.FrequenciesCountsLaterOccurrences | index.js:185-198 | under an equivalence, each count is the number of elements equal to its value, less one |
| TileSampler.FrequenciesCover | index.js:185-198 | under an equivalence, every element is equal to the value of some entry |
| TileSampler.FrequenciesTotalFromZero | index.js:185-198 | the counts plus the number of entries add up to the number of values |
| TileSampler.StoredByte | index.js:205-209 | an integer stored into a clamped array is what ECMAScript `ToUint8Clamp` gives |
| TileSampler.StoredSquareFacts | index.js:205-209 | a stored square of a stored difference is in 0..255, zero exactly when the difference is not positive, and the true square for differences up to 15 |
| TileSampler.ClampedSquaredDifferenceFacts | index.js:204-211 | as written, the squared length is at most `4*255`, zero exactly when no channel of the first colour exceeds the second, and Euclidean when each channel exceeds by at most 15 |
| TileSampler.SquaredDifference | index.js:204-211 | the Euclidean squared difference (the corrected distance): non-negative and zero exactly for equal colours |
| TileSampler.DistanceBelowIsStrict | index.js:204-217 | the squared test holds exactly when the length over 510 is strictly below the tolerance, for the non-negative root of the squared length |
| TileSampler.ExactIsEquality | index.js:200-202 | `areSameColor` holds exactly for equal channels |
| TileSampler.SimilarSymmetric | index.js:200-217 | equality and the Euclidean test are symmetric; both tolerance tests hold for a colour and itself exactly when the tolerance is positive |
| TileSampler.WithinReflexive | index.js:213-217 | with either squared length, a colour is within a tolerance of itself exactly when the tolerance is positive |
| TileSampler.WithinAsymmetric | index.js:208-217 | as written, at tolerance 0.05 black is almost the same as white but white is not almost the same as black |
| TileSampler.HalfToleranceAlwaysMatches | index.js:204-217 | as written, at tolerance 0.5 every colour is almost the same as every other |
| TileSampler.HalfTolerance | index.js:208-217 | as intended, with tolerance 0.5 two colours are almost the same exactly when their Euclidean squared difference is below `255*255` |
| TileSampler.MostFrequent | index.js:249-254 | a non-empty tile gives one of its colours |
| TileSampler.LeastFrequent | index.js:255-260 | a non-empty tile gives one of its colours |
| TileSampler.MostFrequentIsLargestGroup | index.js:249-254 | the colour chosen represents the group with the largest count, the earliest among ties |
| TileSampler.LeastFrequentIsSmallestGroup | index.js:255-260 | the colour chosen represents the group with the smallest count, the earliest among ties |
| TileSampler.MostFrequentOccursMost | index.js:249-254 | under an equivalence, no colour of the tile occurs more often than the colour chosen |
| TileSampler.LeastFrequentOccursLeast | index.js:255-260 | under an equivalence, no colour of the tile occurs less often than the colour chosen |
| TileSampler.AverageBounds | index.js:233-241 | the corrected average has byte channels |
| TileSampler.AverageAsWrittenAgrees | index.js:233-241 | when every transparent pixel has RGB 0, the average as written equals the corrected one |
| TileSampler.AverageAsWrittenOverflows | index.js:238-240 | as written, `[[255,0,0,255],[255,0,0,0]]` averages to red 510, not a byte; the corrected average is `[255, 0, 0, 128]` |
| TileSampler.AverageOfUniform | index.js:233-241 | copies of one colour average to that colour, or to `[0, 0, 0, 0]` when it is transparent |
| TileSampler.Apply | index.js:243-276 | every reducer but the two averages returns one of the tile's colours |
| TileSampler.ApplyBounds | index.js:243-276 | for a tile of byte colours, every reducer returns byte channels; the average as written does so on tiles whose transparent pixels have RGB 0 |
| TileSampler.CoreFnOf | index.js:243-276 | the `coreFn` of each algorithm accepts every non-empty tile and computes its reducer there |
| TileSampler.ReducerKeepsBytes | index.js:243-276 | a reducer turns every tile of byte colours into a byte colour exactly when it is not the average as written |
| TileSampler.FrequenciesOfMatchAll | index.js:185-198 | with an equality that matches everything, `frequencies` returns one entry: the first value with count `n - 1` |
| TileSampler.ToleranceReducersPickFirst | index.js:261-272 | as written, both tolerance-0.5 algorithms return the first colour of every tile |
| TileSampler.BlackWhiteApart | index.js:208-217 | as intended, at tolerance 0.5 black and white are apart and white matches white |
| TileSampler.BlackWhiteGroups | index.js:185-198 | as intended, a black and two white pixels form a black group with count 0 and a white group with count 1 |
| TileSampler.IntendedMostSignificantIsWhite | index.js:261-266 | as intended, the most significant colour of a black and two white pixels is white |
| TileSampler.ClampedToleranceMissesMajority | index.js:261-266 | on a black and two white pixels, the most significant colour at tolerance 0.5 is black as written and white as intended |
| TileSampler.TileSampledBytes | index.js:168-183 | the sampled image holds only byte colours |

## Left out

- TileSampler.FrequenciesCountsLaterOccurrences: stated only for an equivalence, such as `areSameColor`. The tolerance tests are not transitive, so under them an element can match several entries and a count need not equal the occurrences of its value.
- The iterator protocol itself, `tap`, `forEach` and `iterationsOf`: they only drive side effects. Iterables are modelled as finite sequences, so infinite ranges (`range` without `to`) are out.
- `pairs` in `lib/array.js`: it refers to an undefined `I` and cannot run.
- `hexStringToInteger` in `lib/color.js`: it is an unfinished stub.
- `makeRgbaString` and `toRgbaString`: they only format CSS strings.
- `lib/invariant.js` is modelled only as the `InvariantViolation` failure of `Wrappers.Result`.
- `isTransparent` has no contract of its own; it is used by the averages.
- `downsample`, `pixelsToImage` and `cloneImageData` in `main.js`: they drive the canvas. The pixel store is modelled as an immutable `Image`.
- The DOM, canvas, file and event code. In `main.js`: lines 10-146 (`fromMutation`, `createElement`, `createInputImage`, `createImageDataView`, `createIntegerControl`), 187-205 (`asUint32Array`, `isValidImage`, `getImageData`), `gaussianBlur` at 227-239 (a canvas blur filter), and the `window` exports at 360-405. In `index.js`: lines 127-147 and 278-332. The style-sheet bundle at `index.js` 334-570 is out too, as are `style.js`, `lib/viewmodel.js`, `lib/components.js` and `lib/reactive.js`.
- `lib/model.js`: plain record constructors with no behaviour.
- `makeArea` (`main.js` 207-209, `index.js` 149-151) is the `Image.Area` record. `strictEquality` and `looseEquality` are never called.
- `C.COMPONENTS`, `C.areClose`, `C.averageOfWeighted` and `C.asUint32` of `main.js`: `lib/color.js` exports none of them (see Findings). The failure is modelled for `pixelAt` and `makePalette` only (`Image.PixelAtAsWritten`, `Palette.MakePaletteAsWritten`). `pixelsIn`, `pixelAtCoords` and both palettizers, which raise through `pixelAt` as written, are modelled with the intended four bytes per pixel. Closeness, weighted average and colour key are parameters of the operations that use them.
- `Math.sqrt`: distances are compared squared (see `Vector.RootCompare`). Floating-point rounding and `NaN` are not modelled.
- `LazyOps.Range`: requires a positive step, or `from >= to`. A zero or negative step with `from < to` loops forever in the source.
- `TileSampler.SampleRectangleSize`: the source's `console.assert` that the tiles are square only logs. The model does not check it.
- `Dither.ThresholdAt`: coordinates are natural numbers, and the empty threshold matrix is excluded. The source indexes `NaN` and raises for an empty matrix.
- `Image.PixelsInAreaClipped`, `Image.AreaCellInside`, `TileSampler.ColorsInArea` and `TileSampler.ColorsInRgba`: proved only for areas with non-negative top and left. With a negative left edge, the source's row-major offset wraps into the previous row. All areas the tile sampler builds start at non-negative coordinates.
- `Dither.PalettizeWithErrorDiffusion` and `Dither.PalettizeWithThresholdMap`: they require image data of exactly `4*width*height` bytes, as `ImageData` guarantees.
- `TileSampler.Apply`: each reducer is called only on non-empty tiles, as `makeTileSampledAlgo` does.
- `index.js`'s default comparer of `max`/`min` and the default `===` equality of its `frequencies` are never used by the algorithms. They are not modelled separately.
- `StrictOps.PartialSort`: only the default `keyComparer`, `numberComparer` on the selected keys, is modelled. Its one caller passes only a key selector.
- `Color.PremultipliedSum`: the contract states only the length; the channel bounds are in `Color.PremultipliedSumBounds`.
- `Interactive.Unique`: the contract states the length bound and that the result is drawn from the input; distinctness and coverage are in `Interactive.UniqueDistinct` and `Interactive.UniqueCovers`.
- `LazyOps.Zip` and `LazyOps.ZipWith`: they require at least one input. Called with none, the source yields empty tuples without end, which a finite sequence cannot hold.
- `LazyOps.Product`: it requires at least one input. Called with none, the source's `reduceRight` has neither an element nor a seed and raises a `TypeError`.
- `TileSampler.TileSampledBytes`: it requires a `coreFn` that keeps byte colours, which the average as written does not (`TileSampler.ReducerKeepsBytes`). For that average, `TileSampler.ApplyBounds` gives byte channels on tiles whose transparent pixels have RGB 0.

## Findings

| source | as written | input that shows it | evidently intended | confidence | as-written member | corrected member |
|---|---|---|---|---|---|---|
| lib/ix/operators/lazy.js:8 | `_not` returns an arrow function, whose `arguments` are those of `_not`, so the negated predicate is applied to the predicate itself and ignores the element; `partition` therefore puts either nothing or everything in its second half | `partition(x => x > 0)([1, -1])`: the second half is `[1, -1]` | the second half holds the rejected elements, `[-1]` | high (not executed) | LazyOps.PartitionAsWritten, LazyOps.PartitionAsWrittenKeepsAccepted | LazyOps.Partition, LazyOps.FilterComplement |
| lib/color.js:61 | `invariant` is called in `hexColorStringToArray` and `integerToHexString` but never imported into the file, so both raise a `ReferenceError`, and so does `arrayColorToHexString` through `integerToHexString` | `arrayColorToHexString([0, 0, 0])` | `'#000000'`, which decodes back to `[0, 0, 0, 255]` | high (not executed) | HexColor.ArrayColorToHexStringAsWritten, HexColor.CodecAsWrittenRaises | HexColor.ArrayColorToHexString, HexColor.HexRoundTrip |
| index.js:233-241 | red, green and blue are summed over every pixel, transparent ones included, but divided by the number of non-transparent pixels only | `averageOf([[255,0,0,255],[255,0,0,0]])`: red is 510 | the average over the visible pixels, red 255 | medium: canvas data normally stores transparent pixels with RGB 0, where both agree (not executed) | TileSampler.AverageAsWritten, TileSampler.AverageAsWrittenOverflows | TileSampler.Average, TileSampler.AverageBounds |
| index.js:209 | `colorsIn` slices the pixel buffer, so a tile colour is a `Uint8ClampedArray`, and `map` over it stores into another: `colorDistance` keeps a negative channel difference as 0 and `length` caps each square at 255. The distance is one-sided and at most `sqrt(1020) / 510`, so at tolerance 0.5 every colour matches every other and both tolerance algorithms return the first colour of each tile | the tile black, white, white under "most significant color in tile (tolerance: 0.5)": black | the Euclidean distance, under which white, the colour of two of the three pixels, is the most significant | high (not executed) | TileSampler.ClampedSquaredDifference, TileSampler.ToleranceReducersPickFirst, TileSampler.ClampedToleranceMissesMajority | TileSampler.SquaredDifference, TileSampler.HalfTolerance, TileSampler.IntendedMostSignificantIsWhite |
| main.js:160 | `main.js` reads `C.COMPONENTS.length` (line 160) and calls `C.areClose` (line 253), but `lib/color.js` exports neither, nor `asUint32` or `averageOfWeighted`; `pixelAt` raises a `TypeError` on every call, and so do `pixelAtCoords`, `pixelsIn` and both palettizers on an image with pixels, and `makePalette` on every call | `pixelAt(imageData, 0)` on a 1-by-1 image | the pixel's four bytes, and a palette with one colour per group | high (not executed) | Image.PixelAtAsWritten, Palette.MakePaletteAsWritten, Palette.MissingColorExportsRaise | Image.PixelAt, Palette.MakePaletteFacts |
