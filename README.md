# Verified model of the A1_set string sorts

The repository benchmarks string sorting algorithms by the number of
character comparisons they make. Its core is in `A1_set/A1_set.cpp`.
`ComparisonCounter` holds one process-wide counter and two primitives that
bump it once per character they inspect: a three-way comparison and a
common-prefix length. `StringSortTester` holds six in-place sorts of a
`std::vector<std::string>` over an inclusive index range `[low, high]`:

- quicksort with Lomuto's partition;
- top-down merge sort;
- the same merge sort under the name "string merge sort";
- ternary (three-way radix) string quicksort;
- MSD radix sort;
- MSD radix sort that falls back to the ternary quicksort on small
  ranges (74 or fewer differences between `high` and `low`).

This project models that core in Dafny:

- A string is a sequence of unsigned bytes (`Lex.Str`).
- The vector is an `array<Str>`.
- The static counter is the field of one `Comparison.ComparisonCounter`
  object that every sort shares (`StringSortTester.counter`), so each
  sort `modifies arr, counter`.

Every sort is a method with the source's loops and recursion. Each one
promises three things:

- positions outside `[low, high]` are unchanged (`SameOutside`);
- the array is a permutation of what it was;
- the range is sorted.

Quicksort ensures that the range is sorted lexicographically (`Sorted`).
The two merge sorts ensure that the range equals `MSort` of what it was,
written `MergeSorted`; the range is then sorted by `Order.MSortSorted` and a
permutation by `Order.MSortPermutes`. `Merged` and `MergeSorted` only name
the equalities `r == MergeRuns(xs, ys)` and `r == MSort(s)`. The
character-wise sorts started at depth `d` are sorted by the suffixes from
position `d` (`SortedAt`), exactly as their recursion does.

Two reference definitions sit beside the sorts:

- `Order.LexSort`, an insertion sort on values;
- `Order.MSort`, merge sort on values.

Lemmas show the following:

- a sorted permutation is unique (`Order.SortedUnique`), so the result
  of quicksort and of both merge sorts equals `LexSort` of the input
  (`Order.IsLexSort`);
- the ternary quicksort and both MSD radix sorts, started at `d = 0` as
  the benchmark calls them, also give `LexSort` of the input
  (`Order.DepthZeroIsLexSort`); at a depth `d > 0` they only sort by the
  suffixes from `d`, which in general is not `LexSort`;
- the merge sorts compute exactly `MSort`, including which run wins ties.

The counting pass of both MSD sorts is specified by `Buckets.Select`,
`Bucket` and `Start`: the strings whose byte at `d` falls in a range, one
bucket, and where a bucket starts. Each pass is proved against them:

- the counting loop yields the bucket sizes;
- the prefix sums yield the bucket starts;
- the distribution loop yields the range stably grouped by that byte;
- the per-bucket recursion yields a range sorted from `d`.

The model has eight files:

| file | module | contents |
|---|---|---|
| lex.dfy | `Lex` | bytes and strings, the comparison and its cost, the lexicographic order, the byte at a depth |
| counter.dfy | `Comparison` | the counter class with its primitives |
| order.dfy | `Order` | sortedness, the reference sorts, and merging and banding lemmas |
| ranges.dfy | `Ranges` | in-place work on an index range |
| buckets.dfy | `Buckets` | the counting-sort specification and its loop invariants |
| threeway.dfy | `ThreeWay` | the three-way split |
| radix.dfy | `RadixSteps` | the radix recursion over the whole array |
| sorting.dfy | `StringSorting` | the `StringSortTester` class and its lemmas |

## Model

| member | source | states |
|---|---|---|
| Comparison.ComparisonCounter.constructor | A1_set/A1_set.cpp:52 | the counter starts at zero; its type keeps it non-negative |
| Comparison.ComparisonCounter.Reset | A1_set/A1_set.cpp:18-20 | the counter is zero afterwards |
| Comparison.ComparisonCounter.GetCount | A1_set/A1_set.cpp:22-24 | returns the current count, never negative, and changes nothing |
| Comparison.ComparisonCounter.CompareStrings | A1_set/A1_set.cpp:27-37 | the result is `Compare(a, b)`; it is at most 0 exactly when `a` is lexicographically no greater than `b`; the counter grows by one per byte pair inspected, up to and including the first mismatch (`CompareCost`) |
| Comparison.ComparisonCounter.CommonPrefixLength | A1_set/A1_set.cpp:40-49 | the result is the length of the longest common prefix; the counter grows by the same `CompareCost`, so the mismatching pair is counted too |
| Lex.CommonPrefixLen | A1_set/A1_set.cpp:40-49 | the two strings agree on the first `k` bytes, and `k` is within both lengths; when both strings go on past `k`, they differ at `k` |
| Lex.Compare | A1_set/A1_set.cpp:27-37 | the result is -1, 0 or 1, and 0 exactly when the strings are equal |
| Lex.CompareCost | A1_set/A1_set.cpp:29-30 | the count is at most the shorter length, and 0 exactly when one string is empty |
| Lex.CommonPrefixLenUnique | A1_set/A1_set.cpp:40-49 | any `k` with the prefix and mismatch properties is the common-prefix length |
| Lex.CommonPrefixLenSymmetric | A1_set/A1_set.cpp:40-49 | the common-prefix length does not depend on argument order |
| Lex.CompareAntisymmetric | A1_set/A1_set.cpp:27-37 | swapping the arguments negates the comparison |
| Lex.CompareLessMeaning | A1_set/A1_set.cpp:27-37 | the comparison gives -1 exactly when `a` is a proper prefix of `b`, or `a` has the smaller byte at some position where the two agree before it |
| Lex.CompareTail | A1_set/A1_set.cpp:29-33 | with equal first bytes, the comparison and its cost are those of the tails (cost one less) |
| Lex.CompareIsLexLe | A1_set/A1_set.cpp:27-37 | the comparison is at most 0 exactly when `LexLe(a, b)` |
| Lex.LexLeReflexive | A1_set/A1_set.cpp:27-37 | every string is no greater than itself |
| Lex.LexLeTotal | A1_set/A1_set.cpp:27-37 | any two strings are ordered one way or the other |
| Lex.LexLeAntisymmetric | A1_set/A1_set.cpp:27-37 | strings ordered both ways are equal |
| Lex.LexLeTransitive | A1_set/A1_set.cpp:27-37 | the order is transitive |
| Lex.CharCode | A1_set/A1_set.cpp:256-263 | the byte at `d`, or -1 exactly when `d` is past the end |
| Lex.CharCodeOrders | A1_set/A1_set.cpp:256-263 | a smaller byte at `d` (or the end of the string) orders the suffixes from `d` strictly |
| Lex.EndedComesFirst | A1_set/A1_set.cpp:256-263 | a string that has ended by `d` comes first from `d` |
| Lex.SameCharDescends | A1_set/A1_set.cpp:249-253 | for strings with the same real byte at `d`, the order from `d` is the order from `d + 1` |
| Lex.DropZero | A1_set/A1_set.cpp:443-464 | the suffix from position 0 is the whole string |
| Order.SortedAtZero | A1_set/A1_set.cpp:400 | sorted from position 0 is the same as lexicographically sorted |
| Order.Insert | A1_set/A1_set.cpp:400 | the reference insertion adds one string to the multiset and keeps a sorted sequence sorted |
| Order.LexSort | A1_set/A1_set.cpp:400 | the reference sort's result is sorted and is a permutation of its input |
| Order.SortedUnique | A1_set/A1_set.cpp:400 | two sorted permutations of the same strings are equal |
| Order.IsLexSort | A1_set/A1_set.cpp:400 | any sorted permutation of `s` is `LexSort(s)` |
| Order.DepthZeroIsLexSort | A1_set/A1_set.cpp:443-464 | a permutation sorted from depth 0 is `LexSort(s)`, so the character-wise sorts called with `d = 0` agree with the reference sort |
| Order.MergeRunsPermutes | A1_set/A1_set.cpp:203-225 | the merge of two runs holds exactly the strings of both |
| Order.MergeRunsSorted | A1_set/A1_set.cpp:203-225 | merging two sorted runs gives a sorted run |
| Order.MergeRunsInOrder | A1_set/A1_set.cpp:203-213 | two runs already in order are merged into their concatenation (ties go to the left run) |
| Order.MSortSplit | A1_set/A1_set.cpp:180-187 | merge sort of a sequence longer than one merges merge sort of each half; the left half has `(n - 1) / 2 + 1` elements |
| Order.MSortSorted | A1_set/A1_set.cpp:180-187 | merge sort's result is sorted |
| Order.MSortPermutes | A1_set/A1_set.cpp:180-187 | merge sort's result is a permutation of its input |
| Order.MSortIsLexSort | A1_set/A1_set.cpp:180-187 | merge sort equals the reference sort |
| Order.SortedAroundPivot | A1_set/A1_set.cpp:157-163 | a sorted left part whose strings are all no greater than the pivot, then the pivot, then a sorted right part whose strings are all greater, make a sorted run |
| Order.SortedAtConcat | A1_set/A1_set.cpp:249-253 | two runs sorted from `d`, with every string of the first no greater from `d` than every string of the second, make a run sorted from `d` |
| Order.SameCharBandSorted | A1_set/A1_set.cpp:250-252 | strings sharing one byte at `d`, sorted from `d + 1` when that byte is real, are sorted from `d` |
| Order.LowerBandFirst | A1_set/A1_set.cpp:344-346 | a band of byte `c` followed by a band of larger bytes, each sorted from `d`, is sorted from `d` |
| Order.ThreeBandsSorted | A1_set/A1_set.cpp:249-253 | the less, equal and greater bands, sorted as the recursion sorts them, make a range sorted from `d` |
| Order.BelowPivotKept | A1_set/A1_set.cpp:160-161 | every rearrangement of strings no greater than the pivot stays no greater |
| Order.AbovePivotKept | A1_set/A1_set.cpp:160-161 | every rearrangement of strings greater than the pivot stays greater |
| Ranges.Swapped | A1_set/A1_set.cpp:172 | `std::swap` on the vector: the two positions are exchanged and the rest is kept |
| Ranges.SwapInRange | A1_set/A1_set.cpp:172-175 | a swap inside a range permutes the sequence and leaves the outside alone |
| Ranges.PermutedInside | A1_set/A1_set.cpp:157-163 | a permutation that changes nothing outside a range permutes the range itself |
| Ranges.PermutedWhole | A1_set/A1_set.cpp:344-346 | permuting a range and nothing else permutes the sequence |
| Ranges.MaxLenBound | A1_set/A1_set.cpp:249-253 | the longest length bounds every string (this bounds the depth of the character-wise recursions) |
| Buckets.Select | A1_set/A1_set.cpp:324-326 | the selected strings come from the input, and their byte codes at `d` lie in the range |
| Buckets.SelectSplit | A1_set/A1_set.cpp:329-331 | splitting the byte range splits the selection, in size and in contents |
| Buckets.SelectAll | A1_set/A1_set.cpp:324-326 | the full code range -1..255 selects the whole input |
| Buckets.StartFacts | A1_set/A1_set.cpp:329-331 | bucket -1 starts at 0; the start after the last bucket is the size of the range; each start is the previous start plus the previous bucket's size |
| Buckets.StartMonotone | A1_set/A1_set.cpp:329-331 | bucket starts never decrease |
| Buckets.CountInit | A1_set/A1_set.cpp:320 | an all-zero count array counts the empty prefix |
| Buckets.CountStep | A1_set/A1_set.cpp:324-326 | incrementing `count[c + 2]` for one more string keeps every bucket size counted |
| Buckets.DistributeInit | A1_set/A1_set.cpp:329-334 | when every slot counter is at its bucket's start, nothing is placed yet |
| Buckets.DistributeStep | A1_set/A1_set.cpp:334-336 | writing a string at its bucket's next slot and advancing that slot keeps every bucket filled in input order |
| Buckets.SlotInBucket | A1_set/A1_set.cpp:335 | the slot a string is written to lies inside its own bucket, so the write is within the buffer |
| Buckets.DistributeDone | A1_set/A1_set.cpp:334-336 | once all strings are placed, the buffer is the input stably grouped by the byte at `d`, and slot counter `c + 1` has reached the start of bucket `c + 1` |
| Buckets.GroupedIsPermutation | A1_set/A1_set.cpp:334-341 | the grouped range is a permutation of the input range |
| Buckets.GroupedIsDoneAtZero | A1_set/A1_set.cpp:344 | before the recursion, no bucket is sorted yet and all are in place |
| Buckets.BucketsDoneStep | A1_set/A1_set.cpp:344-346 | sorting bucket `r` from `d + 1` in place, and nothing else, extends the sorted buckets by one |
| Buckets.FinishedBucket | A1_set/A1_set.cpp:344-346 | each finished bucket holds exactly its strings, all with its byte at `d`, sorted from `d` |
| Buckets.BucketsDoneSorted | A1_set/A1_set.cpp:344-346 | once all 256 byte buckets are sorted from `d + 1`, the range is sorted from `d` and is a permutation of the input range |
| ThreeWay.ScanStart | A1_set/A1_set.cpp:232-234 | the pivot string alone makes the equal band at the start |
| ThreeWay.ScanLess | A1_set/A1_set.cpp:238-240 | a smaller byte is swapped to the end of the lower band and both `lt` and `i` advance |
| ThreeWay.ScanGreater | A1_set/A1_set.cpp:241-243 | a larger byte is swapped to the front of the upper band and `gt` retreats |
| ThreeWay.ScanEqual | A1_set/A1_set.cpp:244-246 | an equal byte joins the equal band |
| ThreeWay.ScanBounds | A1_set/A1_set.cpp:249-253 | the equal band is non-empty; each band keeps the length bound; a real pivot byte means the bound exceeds `d`, so the middle recursion terminates |
| ThreeWay.BandsDone | A1_set/A1_set.cpp:249-253 | the three recursive sorts, one after another, leave each band sorted (the equal band from `d + 1` when its byte is real) |
| ThreeWay.TernaryStep | A1_set/A1_set.cpp:229-254 | split plus sorted bands leave the range permuted, unchanged outside, and sorted from `d` |
| ThreeWay.TernaryOrder | A1_set/A1_set.cpp:249-253 | permuted bands that keep their byte bounds and are sorted make the range sorted from `d` |
| RadixSteps.BucketBounded | A1_set/A1_set.cpp:344-346 | bucket `r` of the grouped range lies inside `[low, high]`, keeps the length bound, and when non-empty has strings longer than `d` (so the recursion at `d + 1` terminates) |
| RadixSteps.BucketStep | A1_set/A1_set.cpp:345 | the recursive call on bucket `r`, in place and from `d + 1`, sorts one more bucket and keeps the outside of `[low, high]` |
| RadixSteps.RadixDone | A1_set/A1_set.cpp:344-346 | with every bucket sorted, the array is a permutation of the original and the range is sorted from `d` |
| StringSorting.CopyOut | A1_set/A1_set.cpp:196-199 | the fresh buffer holds exactly `arr[from..from + n]` |
| StringSorting.CopyIn | A1_set/A1_set.cpp:215-225 | the array becomes the old array with `rest` written from position `k` |
| StringSorting.Swap | A1_set/A1_set.cpp:172 | the array becomes `Swapped` of the old array |
| StringSorting.Overwrite | A1_set/A1_set.cpp:215-225 | `s` sits at `[k, k + \|s\|)` and every other position is kept |
| StringSorting.StringSortTester.constructor | A1_set/A1_set.cpp:14-50 | the tester uses the given counter |
| StringSorting.StringSortTester.CharAt | A1_set/A1_set.cpp:256-263 | returns `CharCode(s, d)`, -1 exactly when `d` is past the end; one count only when a byte is read |
| StringSorting.StringSortTester.Partition | A1_set/A1_set.cpp:165-177 | the pivot `arr[high]` ends at `p`; strings before it are no greater and strings after it are greater; the range is permuted and the rest kept |
| StringSorting.StringSortTester.QuickSort | A1_set/A1_set.cpp:157-163 | the range is sorted, the array permuted, the outside kept; an empty or single range is untouched |
| StringSorting.LomutoTake | A1_set/A1_set.cpp:170-173 | a string no greater than the pivot is swapped into the lower part |
| StringSorting.LomutoSkip | A1_set/A1_set.cpp:170-171 | a string greater than the pivot stays where it is |
| StringSorting.LomutoFinish | A1_set/A1_set.cpp:175-176 | the closing swap puts the pivot between the two parts |
| StringSorting.QuickSortStep | A1_set/A1_set.cpp:159-162 | partitioning, then sorting both sides in place, sorts and permutes the range |
| StringSorting.StringSortTester.Merge | A1_set/A1_set.cpp:189-226 | `[left, right]` becomes `MergeRuns` of the old runs `[left, mid]` and `[mid + 1, right]`, and the rest is kept |
| StringSorting.StringSortTester.MergeFront | A1_set/A1_set.cpp:203-213 | the main loop emits the merge of the consumed prefixes of both runs and stops when one run is used up |
| StringSorting.MergeTakeLeft | A1_set/A1_set.cpp:204-206 | taking the left head, when it is no greater than the right head, keeps the output a prefix of the merge |
| StringSorting.MergeTakeRight | A1_set/A1_set.cpp:207-210 | taking the right head, when it is smaller, keeps the output a prefix of the merge |
| StringSorting.MergeTail | A1_set/A1_set.cpp:215-225 | copying the rest of both runs after the emitted part completes the merge |
| StringSorting.StringSortTester.MergeSort | A1_set/A1_set.cpp:180-187 | `[left, right]` becomes `MSort` of its old contents, and the rest is kept |
| StringSorting.MergeSortStep | A1_set/A1_set.cpp:181-186 | sorting both halves at `mid = left + (right - left) / 2`, then merging, is merge sort of the whole |
| StringSorting.StringSortTester.StringMerge | A1_set/A1_set.cpp:275-313 | the same merge as `Merge` |
| StringSorting.StringSortTester.StringMergeSort | A1_set/A1_set.cpp:266-273 | `[left, right]` becomes `MSort` of its old contents, and the rest is kept |
| StringSorting.StringSortTester.ThreeWayPartition | A1_set/A1_set.cpp:230-247 | the pivot is the byte code of the old `arr[low]`; afterwards `[low, lt)` is below it, `[lt, gt]` equal to it and `(gt, high]` above it, and the range is permuted |
| StringSorting.StringSortTester.TernaryStringQuickSort | A1_set/A1_set.cpp:229-254 | the range is sorted from `d` (by default `d = 0`, full lexicographic order), the array permuted, the outside kept; an empty or single range is untouched |
| StringSorting.StringSortTester.TernaryQuickSortWithin | A1_set/A1_set.cpp:229-254 | the same, given a bound on string lengths that measures the recursion |
| StringSorting.StringSortTester.SortBands | A1_set/A1_set.cpp:249-253 | the three recursive calls sort the lower and upper bands from `d` and the equal band from `d + 1` when its byte is real |
| StringSorting.StringSortTester.CountByChar | A1_set/A1_set.cpp:319-331 | the returned 258-entry array holds, at `c + 1`, the start of bucket `c` in the grouped range |
| StringSorting.StringSortTester.PrefixSums | A1_set/A1_set.cpp:329-331 | turns bucket sizes (at `c + 2`) into bucket starts (at `c + 1`) |
| StringSorting.StringSortTester.Scatter | A1_set/A1_set.cpp:334-336 | the distribution loop places every string of the range into its bucket in the buffer, in input order |
| StringSorting.StringSortTester.DistributeByChar | A1_set/A1_set.cpp:320-341 | the range becomes its old contents stably grouped by the byte at `d`, the rest is kept, and `count[c + 1]` ends at the start of bucket `c + 1` |
| StringSorting.StringSortTester.SortBuckets | A1_set/A1_set.cpp:344-346 | every byte bucket is sorted from `d + 1` in place; the rest of the array is kept |
| StringSorting.StringSortTester.MsdSortWithin | A1_set/A1_set.cpp:316-347 | the range is sorted from `d`, the array permuted, the outside kept; empty and single ranges are untouched |
| StringSorting.StringSortTester.MsdRadixSort | A1_set/A1_set.cpp:316-347 | the range is sorted from `d`, the array permuted, the outside kept; empty and single ranges are untouched |
| StringSorting.StringSortTester.MsdRadixSortWithCutoff | A1_set/A1_set.cpp:350-381 | the range is sorted from `d`, the array permuted, the outside kept; an empty or single range is untouched (the body hands ranges with `high - low <= 74` to `TernaryStringQuickSort`) |

## Left out

- Signedness of `char`: `compareStrings` orders two differing `char`
  values with `<` and `>` (A1_set/A1_set.cpp:31-32). On a platform with
  signed `char` it orders bytes 128-255 before 0-127, while `charAt` reads
  unsigned bytes. The model reads every byte as unsigned, which matches the
  ASCII strings the generator produces. `commonPrefixLength` only tests two
  bytes for inequality (A1_set/A1_set.cpp:45), so
  `Comparison.ComparisonCounter.CommonPrefixLength` matches the source for
  every byte value on either kind of platform.
- Counter width: `characterComparisons` is a `long long`. The model uses
  an unbounded `nat` and no wrap-around.
- Comparison.ComparisonCounter.CompareStrings and CommonPrefixLength do
  not model `size_t`/`int` index widths; strings are assumed shorter
  than `INT_MAX`.
- StringSorting.StringSortTester.QuickSort: the count of character
  comparisons is stated only as non-decreasing. The exact count depends
  on the run of the algorithm and is not part of any contract.
- StringSorting.StringSortTester.MergeSort: the same, the count is only
  non-decreasing.
- StringSorting.StringSortTester.StringMergeSort: the same.
- StringSorting.StringSortTester.TernaryStringQuickSort: the same.
- StringSorting.StringSortTester.MsdRadixSort: the same.
- StringSorting.StringSortTester.MsdRadixSortWithCutoff: the same, and
  for `d > 0` the contract is "sorted by the suffixes from `d`". At
  `d = 0`, the only depth the benchmark calls with, this is full
  lexicographic order (`Order.DepthZeroIsLexSort`).
- StringSorting.StringSortTester.StringMerge: the source's `stringMerge`
  is the same code as `merge`, so the model delegates to `Merge`.
- Merge stability is not observable: equal strings are equal values, so
  `MergeRuns` fixes the result completely.
- Helper members not in the source, each doing one piece of a source
  function so that its proof stays small:
  - `MergeFront`, `CopyOut` and `CopyIn` split `merge`;
  - `SortBands` is the three recursive calls of the ternary sort;
  - `TernaryQuickSortWithin` and `MsdSortWithin` carry a ghost length
    bound as the termination measure;
  - `MsdSortWithin` holds the two MSD sorts' shared code behind a
    `withCutoff` flag;
  - `CountByChar`, `PrefixSums`, `DistributeByChar`, `Scatter` and
    `SortBuckets` are the passes of the MSD sorts.
- The buffers `count` and `aux` are fresh arrays. Allocation failure and
  the vectors' capacity are not modelled.
- Running time, recursion depth and stack overflow are not modelled.
- The test-data generator (`StringGenerator`, random numbers) is not part
  of this model. Neither are `measureTime` and timing (clocks),
  `testAlgorithm` beyond its sortedness check, `main`, CSV output and
  console output. These are I/O, clocks and randomness.
