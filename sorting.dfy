/** The sorting algorithms under study. Each sorts the inclusive index range
    [low, high] of an array of strings in place and bumps the shared
    character counter for every character it inspects. */
module StringSorting {
  import opened Lex
  import opened Order
  import opened Buckets
  import opened Ranges
  import opened Comparison
  import opened ThreeWay
  import opened RadixSteps

  /** Ranges with high - low at most this go from the radix sort to the
      ternary quicksort. */
  const Cutoff := 74

  /** A fresh array holding the `n` strings from position `from` on. */
  method CopyOut(arr: array<Str>, from: int, n: int) returns (b: array<Str>)
    requires 0 <= from && 0 <= n && from + n <= arr.Length
    ensures fresh(b) && b[..] == arr[from..from + n]
  {
    b := new Str[n];
    for i := 0 to n
      invariant b[..i] == arr[from..from + i]
    {
      b[i] := arr[from + i];
    }
  }

  /** Copy src[i..] into arr from position k on, one string at a time. */
  method CopyIn(arr: array<Str>, src: array<Str>, i: int, k: int, ghost rest: seq<Str>)
    requires arr != src
    requires 0 <= i <= src.Length && src[i..] == rest && 0 <= k && k + |rest| <= arr.Length
    modifies arr
    ensures arr[..] == Overwrite(old(arr[..]), k, rest)
  {
    ghost var a0: seq<Str> := arr[..];
    var i', k' := i, k;
    while i' < src.Length
      invariant i <= i' <= src.Length && k' == k + i' - i
      invariant arr[..] == a0[..k] + src[i..i'] + a0[k'..]
    {
      arr[k'] := src[i'];
      assert src[i..i' + 1] == src[i..i'] + [src[i']];
      i', k' := i' + 1, k' + 1;
    }
  }

  /** Exchange two entries (the standard library swap). */
  method Swap(arr: array<Str>, i: int, j: int)
    requires 0 <= i < arr.Length && 0 <= j < arr.Length
    modifies arr
    ensures arr[..] == Swapped(old(arr[..]), i, j)
  {
    arr[i], arr[j] := arr[j], arr[i];
  }

  class StringSortTester {
    /** The counter every comparison and character access reports to. */
    const counter: ComparisonCounter

    constructor (counter: ComparisonCounter)
      ensures this.counter == counter
    {
      this.counter := counter;
    }

    /** The byte at position `d`, or -1 past the end; only a real access counts. */
    method CharAt(s: Str, d: nat) returns (c: int)
      modifies counter
      ensures c == CharCode(s, d)
      ensures -1 <= c < 256 && (c == -1 <==> d >= |s|)
      ensures counter.characterComparisons == old(counter.characterComparisons) + (if d < |s| then 1 else 0)
    {
      if d < |s| {
        counter.characterComparisons := counter.characterComparisons + 1;
        return s[d];
      }
      return -1;
    }

    // -------------------------------------------------------------------
    // Quicksort with the last entry as pivot

    /** Lomuto partition of [low, high] around arr[high]: the pivot lands at
        `p`, entries not above it before, entries above it after. */
    method Partition(arr: array<Str>, low: int, high: int) returns (p: int)
      requires 0 <= low <= high < arr.Length
      modifies arr, counter
      ensures Partitioned(arr[..], old(arr[..]), low, high, p)
      ensures counter.characterComparisons >= old(counter.characterComparisons)
    {
      var pivot := arr[high];
      var i := low - 1;
      ghost var a0: seq<Str> := arr[..];
      for j := low to high
        invariant LomutoScan(arr[..], a0, low, high, i, j)
        invariant counter.characterComparisons >= old(counter.characterComparisons)
      {
        ghost var cur: seq<Str> := arr[..];
        var c := counter.CompareStrings(arr[j], pivot);
        assert arr[..] == cur;
        if c <= 0 {
          LomutoTake(cur, a0, low, high, i, j);
          i := i + 1;
          Swap(arr, i, j);
        } else {
          LomutoSkip(cur, a0, low, high, i, j);
        }
      }
      ghost var fin: seq<Str> := arr[..];
      assert a0 == old(arr[..]);
      LomutoFinish(fin, a0, low, high, i);
      Swap(arr, i + 1, high);
      p := i + 1;
    }

    method QuickSort(arr: array<Str>, low: int, high: int)
      requires 0 <= low <= high + 1 <= arr.Length
      modifies arr, counter
      ensures SameOutside(old(arr[..]), arr[..], low, high + 1)
      ensures multiset(arr[..]) == multiset(old(arr[..]))
      ensures Sorted(arr[low..high + 1])
      ensures high <= low ==> arr[..] == old(arr[..])
      ensures counter.characterComparisons >= old(counter.characterComparisons)
      decreases high - low
    {
      ghost var a0: seq<Str> := arr[..];
      if low < high {
        var p := Partition(arr, low, high);
        ghost var a1: seq<Str> := arr[..];
        QuickSort(arr, low, p - 1);
        ghost var a2: seq<Str> := arr[..];
        QuickSort(arr, p + 1, high);
        ghost var a3: seq<Str> := arr[..];
        QuickSortStep(a0, a1, a2, a3, low, p, high);
      }
    }

    // -------------------------------------------------------------------
    // Top-down merge sort

    /** Merge the sorted runs [left, mid] and [mid + 1, right] through two
        copies; on a tie the left run's string goes first. */
    method Merge(arr: array<Str>, left: int, mid: int, right: int)
      requires 0 <= left <= mid + 1 <= right + 1 <= arr.Length
      modifies arr, counter
      ensures SameOutside(old(arr[..]), arr[..], left, right + 1)
      ensures Merged(arr[left..right + 1], old(arr[left..mid + 1]), old(arr[mid + 1..right + 1]))
      ensures counter.characterComparisons >= old(counter.characterComparisons)
    {
      var n1 := mid - left + 1;
      var n2 := right - mid;
      var leftArr := CopyOut(arr, left, n1);
      var rightArr := CopyOut(arr, mid + 1, n2);
      ghost var xs: seq<Str>, ys: seq<Str> := leftArr[..], rightArr[..];
      ghost var a0: seq<Str> := arr[..];
      assert xs == a0[left..mid + 1] && ys == a0[mid + 1..right + 1];

      var i, j := MergeFront(arr, leftArr, rightArr, left, xs, ys, right);
      var k := left + i + j;
      // at most one run has strings left; they go to the end unchanged
      ghost var a1: seq<Str> := arr[..];
      CopyIn(arr, leftArr, i, k, xs[i..]);
      ghost var a2: seq<Str> := arr[..];
      CopyIn(arr, rightArr, j, k + n1 - i, ys[j..]);
      MergeTail(a0, a1, a2, arr[..], xs, ys, left, mid, right, i, j, k, k + n1 - i);
    }

    /** The main loop of the merge: while both runs have strings, emit the
        smaller head, the left one on a tie. Stops when one run is used up. */
    method MergeFront(arr: array<Str>, leftArr: array<Str>, rightArr: array<Str>, left: int,
                      ghost xs: seq<Str>, ghost ys: seq<Str>, ghost right: int) returns (i: int, j: int)
      requires arr != leftArr && arr != rightArr
      requires leftArr[..] == xs && rightArr[..] == ys
      requires 0 <= left && left + |xs| + |ys| == right + 1 <= arr.Length
      modifies arr, counter
      ensures MergeLoop(arr[..], old(arr[..]), xs, ys, left, right, i, j)
      ensures i == |xs| || j == |ys|
      ensures counter.characterComparisons >= old(counter.characterComparisons)
    {
      ghost var a0: seq<Str> := arr[..];
      i, j := 0, 0;
      var k := left;
      while i < leftArr.Length && j < rightArr.Length
        invariant k == left + i + j
        invariant leftArr[..] == xs && rightArr[..] == ys
        invariant MergeLoop(arr[..], a0, xs, ys, left, right, i, j)
        invariant counter.characterComparisons >= old(counter.characterComparisons)
        modifies arr, counter
      {
        ghost var cur: seq<Str> := arr[..];
        var c := counter.CompareStrings(leftArr[i], rightArr[j]);
        assert arr[..] == cur;
        if c <= 0 {
          arr[k] := leftArr[i];
          MergeLoopLeft(cur, arr[..], a0, xs, ys, left, right, i, j);
          i := i + 1;
        } else {
          arr[k] := rightArr[j];
          MergeLoopRight(cur, arr[..], a0, xs, ys, left, right, i, j);
          j := j + 1;
        }
        k := k + 1;
      }
    }

    method MergeSort(arr: array<Str>, left: int, right: int)
      requires 0 <= left <= right + 1 <= arr.Length
      modifies arr, counter
      ensures SameOutside(old(arr[..]), arr[..], left, right + 1)
      ensures MergeSorted(arr[left..right + 1], old(arr[left..right + 1]))
      ensures right <= left ==> arr[..] == old(arr[..])
      ensures counter.characterComparisons >= old(counter.characterComparisons)
      decreases right - left
    {
      if left < right {
        var mid := left + (right - left) / 2;
        ghost var a0: seq<Str> := arr[..];
        MergeSort(arr, left, mid);
        ghost var a1: seq<Str> := arr[..];
        MergeSort(arr, mid + 1, right);
        ghost var a2: seq<Str> := arr[..];
        Merge(arr, left, mid, right);
        ghost var a3: seq<Str> := arr[..];
        RunsKept(a0, a1, a2, a3, left, mid + 1, right + 1);
        MergeSortStep(a0, a1, a2, a3, left, mid, right);
      }
    }

    /** The merge of the string-aware merge sort: the same procedure as `Merge`. */
    method StringMerge(arr: array<Str>, left: int, mid: int, right: int)
      requires 0 <= left <= mid + 1 <= right + 1 <= arr.Length
      modifies arr, counter
      ensures SameOutside(old(arr[..]), arr[..], left, right + 1)
      ensures Merged(arr[left..right + 1], old(arr[left..mid + 1]), old(arr[mid + 1..right + 1]))
      ensures counter.characterComparisons >= old(counter.characterComparisons)
    {
      Merge(arr, left, mid, right);
    }

    method StringMergeSort(arr: array<Str>, left: int, right: int)
      requires 0 <= left <= right + 1 <= arr.Length
      modifies arr, counter
      ensures SameOutside(old(arr[..]), arr[..], left, right + 1)
      ensures MergeSorted(arr[left..right + 1], old(arr[left..right + 1]))
      ensures right <= left ==> arr[..] == old(arr[..])
      ensures counter.characterComparisons >= old(counter.characterComparisons)
      decreases right - left
    {
      if left < right {
        var mid := left + (right - left) / 2;
        ghost var a0: seq<Str> := arr[..];
        StringMergeSort(arr, left, mid);
        ghost var a1: seq<Str> := arr[..];
        StringMergeSort(arr, mid + 1, right);
        ghost var a2: seq<Str> := arr[..];
        StringMerge(arr, left, mid, right);
        ghost var a3: seq<Str> := arr[..];
        RunsKept(a0, a1, a2, a3, left, mid + 1, right + 1);
        MergeSortStep(a0, a1, a2, a3, left, mid, right);
      }
    }

    // -------------------------------------------------------------------
    // Three-way string quicksort

    /** The split of the ternary quicksort: the byte at `d` of arr[low] is
        the pivot; one scan leaves [low, lt) below it, [lt, gt] equal to it
        and (gt, high] above it. */
    method ThreeWayPartition(arr: array<Str>, low: int, high: int, d: nat) returns (lt: int, gt: int, pivot: int)
      requires 0 <= low < high < arr.Length
      modifies arr, counter
      ensures pivot == CharCode(old(arr[low]), d)
      ensures ThreeWayScan(arr[..], old(arr[..]), low, high, d, pivot, lt, gt + 1, gt)
      ensures counter.characterComparisons >= old(counter.characterComparisons)
    {
      ghost var a0: seq<Str> := arr[..];
      lt, gt := low, high;
      pivot := CharAt(arr[low], d);
      var i := low + 1;
      assert arr[..] == a0;
      ScanStart(a0, low, high, d);
      while i <= gt
        invariant ThreeWayScan(arr[..], a0, low, high, d, pivot, lt, i, gt)
        invariant counter.characterComparisons >= old(counter.characterComparisons)
        decreases gt - i
      {
        ghost var cur: seq<Str> := arr[..];
        var t := CharAt(arr[i], d);
        assert arr[..] == cur;
        if t < pivot {
          ScanLess(cur, a0, low, high, d, pivot, lt, i, gt);
          Swap(arr, lt, i);
          lt, i := lt + 1, i + 1;
        } else if t > pivot {
          ScanGreater(cur, a0, low, high, d, pivot, lt, i, gt);
          Swap(arr, i, gt);
          gt := gt - 1;
        } else {
          ScanEqual(cur, a0, low, high, d, pivot, lt, i, gt);
          i := i + 1;
        }
      }
    }

    /** Sort [low, high] by the suffixes from position `d`: split by the byte
        at `d` of the first string into below, equal and above, then sort the
        outer bands from `d` and the equal band from `d + 1` (unless its
        strings have all ended). */
    method TernaryStringQuickSort(arr: array<Str>, low: int, high: int, d: nat := 0)
      requires 0 <= low <= high + 1 <= arr.Length
      modifies arr, counter
      ensures SameOutside(old(arr[..]), arr[..], low, high + 1)
      ensures multiset(arr[..]) == multiset(old(arr[..]))
      ensures SortedAt(arr[low..high + 1], d)
      ensures high <= low ==> arr[..] == old(arr[..])
      ensures counter.characterComparisons >= old(counter.characterComparisons)
    {
      MaxLenBound(arr[..]);
      BoundedWithin(arr[..], 0, arr.Length, low, high + 1, MaxLen(arr[..]));
      TernaryQuickSortWithin(arr, low, high, d, MaxLen(arr[..]));
    }

    /** The recursion of the three-way string quicksort, given a bound `n`
        on the length of every string in the range; each equal band that
        recurses one byte on has strings longer than `d`, so `n - d`
        shrinks there and the range shrinks everywhere else. */
    method TernaryQuickSortWithin(arr: array<Str>, low: int, high: int, d: nat, ghost n: int)
      requires 0 <= low <= high + 1 <= arr.Length
      requires BoundedIn(arr[..], low, high + 1, n)
      modifies arr, counter
      ensures SameOutside(old(arr[..]), arr[..], low, high + 1)
      ensures multiset(arr[..]) == multiset(old(arr[..]))
      ensures SortedAt(arr[low..high + 1], d)
      ensures high <= low ==> arr[..] == old(arr[..])
      ensures counter.characterComparisons >= old(counter.characterComparisons)
      decreases n - d, high - low, 1
    {
      if high <= low {
        return;
      }
      ghost var a0: seq<Str> := arr[..];
      var lt, gt, pivot := ThreeWayPartition(arr, low, high, d);
      ghost var a1: seq<Str> := arr[..];
      ScanBounds(a1, a0, low, high, d, pivot, lt, gt, n);
      SortBands(arr, low, high, d, pivot, lt, gt, n);
      TernaryStep(a0, a1, arr[..], low, high, d, pivot, lt, gt);
    }

    /** The three recursive calls after a split of [low, high]: the lower
        band [low, lt), the equal band [lt, gt] one byte on when its byte
        is real, the upper band (gt, high]. */
    method SortBands(arr: array<Str>, low: int, high: int, d: nat, pivot: int, lt: int, gt: int, ghost n: int)
      requires 0 <= low <= lt <= gt <= high < arr.Length
      requires BoundedIn(arr[..], low, lt, n) && BoundedIn(arr[..], lt, gt + 1, n)
      requires BoundedIn(arr[..], gt + 1, high + 1, n)
      requires pivot >= 0 ==> d < n
      modifies arr, counter
      ensures BandsSorted(old(arr[..]), arr[..], low, high, d, pivot, lt, gt)
      ensures multiset(arr[..]) == multiset(old(arr[..]))
      ensures counter.characterComparisons >= old(counter.characterComparisons)
      decreases n - d, high - low, 0
    {
      ghost var a1: seq<Str> := arr[..];
      TernaryQuickSortWithin(arr, low, lt - 1, d, n);
      ghost var a2: seq<Str> := arr[..];
      BoundKept(a1, a2, low, lt, lt, gt + 1, n);
      BoundKept(a1, a2, low, lt, gt + 1, high + 1, n);
      if pivot >= 0 {
        TernaryQuickSortWithin(arr, lt, gt, d + 1, n);
      }
      ghost var a3: seq<Str> := arr[..];
      BoundKept(a2, a3, lt, gt + 1, gt + 1, high + 1, n);
      TernaryQuickSortWithin(arr, gt + 1, high, d, n);
      BandsDone(a1, a2, a3, arr[..], low, high, d, pivot, lt, gt);
    }

    /** The counting pass of the MSD radix sorts: count[c + 2] counts the
        strings of [low, high] whose byte at `d` is `c` (-1: ended), then
        prefix sums leave in count[c + 1] the position, relative to `low`,
        where bucket `c` starts. */
    method CountByChar(arr: array<Str>, low: int, high: int, d: nat) returns (count: array<int>)
      requires 0 <= low <= high < arr.Length
      modifies counter
      ensures fresh(count) && count.Length == 258
      ensures Starts(count[..], arr[low..high + 1], d)
      ensures counter.characterComparisons >= old(counter.characterComparisons)
    {
      ghost var s: seq<Str> := arr[low..high + 1];
      count := new int[258](_ => 0);
      CountInit(count[..], d);
      var i := low;
      ghost var m := 0;
      while i <= high
        invariant low <= i <= high + 1 && m == i - low
        invariant Counted(count[..], s[..m], d)
        invariant counter.characterComparisons >= old(counter.characterComparisons)
      {
        ghost var cnt := count[..];
        var c := CharAt(arr[i], d);
        assert arr[i] == s[m];
        count[c + 2] := count[c + 2] + 1;
        CountStep(cnt, count[..], s, m, d);
        i, m := i + 1, m + 1;
      }
      assert s[..m] == s;
      PrefixSums(count, s, d);
    }

    /** Turn per-bucket counts into bucket starts: afterwards count[c + 1]
        is the number of strings whose byte at `d` is below `c`. */
    static method PrefixSums(count: array<int>, ghost s: seq<Str>, d: nat)
      requires Counted(count[..], s, d)
      modifies count
      ensures Starts(count[..], s, d)
    {
      StartFacts(s, d, -1);
      var r := 0;
      while r < 257
        invariant 0 <= r <= 257
        invariant forall k :: 0 <= k <= r ==> count[k] == Start(s, d, k - 1)
        invariant forall k :: r < k < 258 ==> count[k] == |Bucket(s, d, k - 2)|
      {
        StartFacts(s, d, r - 1);
        count[r + 1] := count[r + 1] + count[r];
        r := r + 1;
      }
    }

    /** The distribution pass: each string of [low, high], in order, goes to
        its bucket's next free slot of a buffer, which is then copied back;
        afterwards count[m] is where bucket `m` starts. */
    method DistributeByChar(arr: array<Str>, low: int, high: int, d: nat, count: array<int>)
      requires 0 <= low <= high < arr.Length && count.Length == 258
      requires Starts(count[..], arr[low..high + 1], d)
      modifies arr, count, counter
      ensures SameOutside(old(arr[..]), arr[..], low, high + 1)
      ensures Grouped(arr[low..high + 1], old(arr[low..high + 1]), d)
      ensures forall k :: 0 <= k <= 256 ==> count[k] == Start(old(arr[low..high + 1]), d, k)
      ensures counter.characterComparisons >= old(counter.characterComparisons)
    {
      ghost var s: seq<Str> := arr[low..high + 1];
      var aux := new Str[high - low + 1];
      DistributeInit(aux[..], count[..], s, d);
      Scatter(arr, low, high, d, count, aux);
      DistributeDone(aux[..], count[..], s, d);
      CopyIn(arr, aux, 0, low, aux[..]);
      assert arr[low..high + 1] == aux[..];
    }

    /** The distribution loop proper: string i of [low, high] goes to
        aux[count[c + 1]], where `c` is its byte at `d`, and that slot
        counter advances. */
    method Scatter(arr: array<Str>, low: int, high: int, d: nat, count: array<int>, aux: array<Str>)
      requires 0 <= low <= high < arr.Length && aux != arr
      requires Distributed(aux[..], count[..], arr[low..high + 1], d, 0)
      modifies aux, count, counter
      ensures Distributed(aux[..], count[..], arr[low..high + 1], d, high + 1 - low)
      ensures counter.characterComparisons >= old(counter.characterComparisons)
    {
      ghost var s: seq<Str> := arr[low..high + 1];
      var i := low;
      ghost var m := 0;
      while i <= high
        invariant low <= i <= high + 1 && m == i - low
        invariant Distributed(aux[..], count[..], s, d, m)
        invariant counter.characterComparisons >= old(counter.characterComparisons)
      {
        ghost var buf, next := aux[..], count[..];
        var c := CharAt(arr[i], d);
        assert arr[i] == s[m];
        SlotInBucket(buf, next, s, d, m);
        aux[count[c + 1]] := arr[i];
        count[c + 1] := count[c + 1] + 1;
        DistributeStep(buf, next, aux[..], count[..], s, d, m);
        i, m := i + 1, m + 1;
      }
    }

    /** MSD radix sort of [low, high] by the suffixes from position `d`:
        group the range by the byte at `d`, then sort each bucket of a real
        byte from `d + 1`; the strings that have ended stay first. */
    method MsdRadixSort(arr: array<Str>, low: int, high: int, d: nat)
      requires 0 <= low <= high + 1 <= arr.Length
      modifies arr, counter
      ensures SameOutside(old(arr[..]), arr[..], low, high + 1)
      ensures multiset(arr[..]) == multiset(old(arr[..]))
      ensures SortedAt(arr[low..high + 1], d)
      ensures high <= low ==> arr[..] == old(arr[..])
      ensures counter.characterComparisons >= old(counter.characterComparisons)
    {
      MaxLenBound(arr[..]);
      BoundedWithin(arr[..], 0, arr.Length, low, high + 1, MaxLen(arr[..]));
      BoundRaised(arr[..], low, high + 1, MaxLen(arr[..]), MaxLen(arr[..]) + d);
      MsdSortWithin(arr, low, high, d, false, MaxLen(arr[..]) + d);
    }

    /** The MSD radix sort that hands every range of at most Cutoff + 1
        strings, including each bucket down the recursion, to the ternary
        string quicksort. */
    method MsdRadixSortWithCutoff(arr: array<Str>, low: int, high: int, d: nat)
      requires 0 <= low <= high + 1 <= arr.Length
      modifies arr, counter
      ensures SameOutside(old(arr[..]), arr[..], low, high + 1)
      ensures multiset(arr[..]) == multiset(old(arr[..]))
      ensures SortedAt(arr[low..high + 1], d)
      ensures high <= low ==> arr[..] == old(arr[..])
      ensures counter.characterComparisons >= old(counter.characterComparisons)
    {
      MaxLenBound(arr[..]);
      BoundedWithin(arr[..], 0, arr.Length, low, high + 1, MaxLen(arr[..]));
      BoundRaised(arr[..], low, high + 1, MaxLen(arr[..]), MaxLen(arr[..]) + d);
      MsdSortWithin(arr, low, high, d, true, MaxLen(arr[..]) + d);
    }

    /** The recursion of both MSD radix sorts (`withCutoff` tells which),
        given a bound `n` on the length of every string in the range: a
        non-empty bucket of a real byte has strings longer than `d`, so
        `n - d` shrinks down the recursion. */
    method MsdSortWithin(arr: array<Str>, low: int, high: int, d: nat, withCutoff: bool, ghost n: int)
      requires 0 <= low <= high + 1 <= arr.Length
      requires BoundedIn(arr[..], low, high + 1, n) && (low <= high ==> d <= n)
      modifies arr, counter
      ensures SameOutside(old(arr[..]), arr[..], low, high + 1)
      ensures multiset(arr[..]) == multiset(old(arr[..]))
      ensures SortedAt(arr[low..high + 1], d)
      ensures high <= low ==> arr[..] == old(arr[..])
      ensures counter.characterComparisons >= old(counter.characterComparisons)
      decreases if low <= high then n + 1 - d else 0, 1
    {
      if withCutoff && high - low <= Cutoff {
        TernaryStringQuickSort(arr, low, high, d);
        return;
      }
      if high <= low {
        return;
      }
      ghost var a0: seq<Str> := arr[..];
      RangeBounded(a0, low, high, n);
      var count := CountByChar(arr, low, high, d);
      DistributeByChar(arr, low, high, d, count);
      SortBuckets(arr, low, high, d, withCutoff, count, a0, n);
      RadixDone(a0, arr[..], low, high, d);
    }

    /** Sort buckets 0 to 255 of the grouped range in turn, each from
        `d + 1`. */
    method SortBuckets(arr: array<Str>, low: int, high: int, d: nat, withCutoff: bool, count: array<int>,
                       ghost a0: seq<Str>, ghost n: int)
      requires 0 <= low <= high < arr.Length && count.Length == 258 && |a0| == arr.Length
      requires forall k :: 0 <= k <= 256 ==> count[k] == Start(a0[low..high + 1], d, k)
      requires SameOutside(a0, arr[..], low, high + 1)
      requires Grouped(arr[low..high + 1], a0[low..high + 1], d)
      requires BoundedIn(a0[low..high + 1], 0, high + 1 - low, n) && d <= n
      modifies arr, counter
      ensures SameOutside(a0, arr[..], low, high + 1)
      ensures BucketsDone(arr[low..high + 1], a0[low..high + 1], d, 256)
      ensures counter.characterComparisons >= old(counter.characterComparisons)
      decreases n + 1 - d, 0
    {
      ghost var s := a0[low..high + 1];
      GroupedIsDoneAtZero(arr[low..high + 1], s, d);
      for r := 0 to 256
        invariant SameOutside(a0, arr[..], low, high + 1)
        invariant BucketsDone(arr[low..high + 1], s, d, r)
        invariant counter.characterComparisons >= old(counter.characterComparisons)
      {
        ghost var t: seq<Str> := arr[..];
        assert BucketInPlace(t[low..high + 1], s, d, r);
        var lo, hi := low + count[r], low + count[r + 1] - 1;
        BucketBounded(t, s, low, high, d, r, n, lo, hi);
        MsdSortWithin(arr, lo, hi, d + 1, withCutoff, n);
        BucketStep(a0, t, arr[..], s, low, high, d, r, lo, hi);
      }
    }
  }

  /** The merge-sort step: sorting [left, mid] (a0 to a1), then
      [mid + 1, right] (a1 to a2), then merging the two runs (a2 to a3) is
      merge sort of [left, right]. */
  lemma MergeSortStep(a0: seq<Str>, a1: seq<Str>, a2: seq<Str>, a3: seq<Str>, left: int, mid: int, right: int)
    requires 0 <= left < right < |a0| && mid == left + (right - left) / 2
    requires |a1| == |a0| && |a2| == |a0| && |a3| == |a0|
    requires MergeSorted(a1[left..mid + 1], a0[left..mid + 1])
    requires MergeSorted(a2[mid + 1..right + 1], a1[mid + 1..right + 1])
    requires a2[left..mid + 1] == a1[left..mid + 1] && a1[mid + 1..right + 1] == a0[mid + 1..right + 1]
    requires Merged(a3[left..right + 1], a2[left..mid + 1], a2[mid + 1..right + 1])
    ensures MergeSorted(a3[left..right + 1], a0[left..right + 1])
  {
    var s, m := a0[left..right + 1], mid + 1 - left;
    SliceHalves(a0, left, mid + 1, right + 1);
    MergeSortedHalves(s, m, a2[left..mid + 1], a2[mid + 1..right + 1], a3[left..right + 1]);
  }

  /** Merging merge sort's results for the two halves is merge sort of the whole. */
  lemma MergeSortedHalves(s: seq<Str>, m: int, x: seq<Str>, y: seq<Str>, r: seq<Str>)
    requires 1 < |s| && m == (|s| - 1) / 2 + 1
    requires MergeSorted(x, s[..m]) && MergeSorted(y, s[m..])
    requires Merged(r, x, y)
    ensures MergeSorted(r, s)
  {
    MSortSplit(s, m);
  }

  /** What the three steps of merge sort leave of each other's work. */
  lemma RunsKept(a0: seq<Str>, a1: seq<Str>, a2: seq<Str>, a3: seq<Str>, lo: int, mid: int, hi: int)
    requires 0 <= lo <= mid <= hi <= |a0|
    requires SameOutside(a0, a1, lo, mid) && SameOutside(a1, a2, mid, hi) && SameOutside(a2, a3, lo, hi)
    ensures a2[lo..mid] == a1[lo..mid] && a1[mid..hi] == a0[mid..hi]
    ensures SameOutside(a0, a3, lo, hi)
  {
  }

  // ---------------------------------------------------------------------
  // The Lomuto scan, on values

  /** Lomuto's partition of [low, high] of `a0` around its last string
      has put that string at `p`, every string before it no greater and
      every string after it greater, and only rearranged the range. */
  predicate Partitioned(a: seq<Str>, a0: seq<Str>, low: int, high: int, p: int)
  {
    && 0 <= low <= p <= high < |a0|
    && SameOutside(a0, a, low, high + 1)
    && a[p] == a0[high]
    && (forall k {:trigger LexLe(a[k], a[p])} :: low <= k < p ==> LexLe(a[k], a[p]))
    && (forall k {:trigger LexLe(a[k], a[p])} :: p < k <= high ==> !LexLe(a[k], a[p]))
    && multiset(a) == multiset(a0)
  }

  /** The scan of [low, high) has reached `j`: entries up to `i` are not above
      the pivot a0[high], entries in (i, j) are above it, and the sequence is
      a rearrangement of the original one inside the range, with the pivot
      still last. */
  predicate LomutoScan(a: seq<Str>, a0: seq<Str>, low: int, high: int, i: int, j: int)
  {
    && 0 <= low <= high < |a0| && low - 1 <= i < j <= high
    && SameOutside(a0, a, low, high + 1)
    && a[high] == a0[high]
    && (forall k {:trigger LexLe(a[k], a0[high])} :: low <= k <= i ==> LexLe(a[k], a0[high]))
    && (forall k {:trigger LexLe(a[k], a0[high])} :: i < k < j ==> !LexLe(a[k], a0[high]))
    && multiset(a) == multiset(a0)
  }

  lemma LomutoTake(a: seq<Str>, a0: seq<Str>, low: int, high: int, i: int, j: int)
    requires LomutoScan(a, a0, low, high, i, j) && j < high
    requires LexLe(a[j], a0[high])
    ensures LomutoScan(Swapped(a, i + 1, j), a0, low, high, i + 1, j + 1)
  {
    SwapInRange(a, i + 1, j, low, high + 1);
  }

  lemma LomutoSkip(a: seq<Str>, a0: seq<Str>, low: int, high: int, i: int, j: int)
    requires LomutoScan(a, a0, low, high, i, j) && j < high
    requires !LexLe(a[j], a0[high])
    ensures LomutoScan(a, a0, low, high, i, j + 1)
  {
  }

  /** The closing swap puts the pivot between the two parts. */
  lemma LomutoFinish(a: seq<Str>, a0: seq<Str>, low: int, high: int, i: int)
    requires LomutoScan(a, a0, low, high, i, high)
    ensures Partitioned(Swapped(a, i + 1, high), a0, low, high, i + 1)
  {
    SwapInRange(a, i + 1, high, low, high + 1);
  }

  // ---------------------------------------------------------------------
  // Quicksort and merge steps, on values

  /** Partitioning (a0 to a1) and sorting both sides of the pivot (a1 to a2
      to a3) sorts and permutes [low, high]. */
  lemma QuickSortStep(a0: seq<Str>, a1: seq<Str>, a2: seq<Str>, a3: seq<Str>, low: int, p: int, high: int)
    requires Partitioned(a1, a0, low, high, p)
    requires SameOutside(a1, a2, low, p) && multiset(a2) == multiset(a1) && Sorted(a2[low..p])
    requires SameOutside(a2, a3, p + 1, high + 1) && multiset(a3) == multiset(a2)
    requires Sorted(a3[p + 1..high + 1])
    ensures SameOutside(a0, a3, low, high + 1)
    ensures multiset(a3) == multiset(a0)
    ensures Sorted(a3[low..high + 1])
  {
    PermutedInside(a1, a2, low, p);
    PermutedInside(a2, a3, p + 1, high + 1);
    QuickSortOrder(a1, a2, a3, low, p, high);
  }

  /** The order half of the quicksort step: both sides sorted in place
      around the partitioned pivot sort the whole range. */
  lemma QuickSortOrder(a1: seq<Str>, a2: seq<Str>, a3: seq<Str>, low: int, p: int, high: int)
    requires 0 <= low <= p <= high < |a1|
    requires forall k :: low <= k < p ==> LexLe(a1[k], a1[p])
    requires forall k :: p < k <= high ==> !LexLe(a1[k], a1[p])
    requires SameOutside(a1, a2, low, p) && multiset(a2[low..p]) == multiset(a1[low..p]) && Sorted(a2[low..p])
    requires SameOutside(a2, a3, p + 1, high + 1) && multiset(a3[p + 1..high + 1]) == multiset(a2[p + 1..high + 1])
    requires Sorted(a3[p + 1..high + 1])
    ensures Sorted(a3[low..high + 1])
  {
    var left, right := a3[low..p], a3[p + 1..high + 1];
    SliceUnchanged(a2, a3, p + 1, high + 1, low, p);
    SliceUnchanged(a1, a2, low, p, p + 1, high + 1);
    assert a3[p] == a1[p];
    PivotBands(a1, left, right, low, p, high);
    SortedAroundPivot(left, a1[p], right);
    assert a3[low..high + 1] == left + [a1[p]] + right;
  }

  /** The two sides of the pivot keep their bounds however they are rearranged. */
  lemma PivotBands(a1: seq<Str>, left: seq<Str>, right: seq<Str>, low: int, p: int, high: int)
    requires 0 <= low <= p <= high < |a1|
    requires forall k :: low <= k < p ==> LexLe(a1[k], a1[p])
    requires forall k :: p < k <= high ==> !LexLe(a1[k], a1[p])
    requires multiset(left) == multiset(a1[low..p]) && multiset(right) == multiset(a1[p + 1..high + 1])
    ensures forall x :: x in left ==> LexLe(x, a1[p])
    ensures forall y :: y in right ==> !LexLe(y, a1[p])
  {
    BelowPivotKept(a1[low..p], left, a1[p]);
    AbovePivotKept(a1[p + 1..high + 1], right, a1[p]);
  }

  /** The merge loop has emitted `out` after consuming xs[..i] and ys[..j]:
      what remains to emit is the merge of the rest. */
  predicate MergeState(out: seq<Str>, xs: seq<Str>, ys: seq<Str>, i: int, j: int)
  {
    0 <= i <= |xs| && 0 <= j <= |ys| && out + MergeRuns(xs[i..], ys[j..]) == MergeRuns(xs, ys)
  }

  lemma MergeTakeLeft(out: seq<Str>, xs: seq<Str>, ys: seq<Str>, i: int, j: int)
    requires MergeState(out, xs, ys, i, j) && i < |xs|
    requires j == |ys| || LexLe(xs[i], ys[j])
    ensures MergeState(out + [xs[i]], xs, ys, i + 1, j)
  {
    assert xs[i..][1..] == xs[i + 1..];
  }

  lemma MergeTakeRight(out: seq<Str>, xs: seq<Str>, ys: seq<Str>, i: int, j: int)
    requires MergeState(out, xs, ys, i, j) && j < |ys|
    requires i == |xs| || !LexLe(xs[i], ys[j])
    ensures MergeState(out + [ys[j]], xs, ys, i, j + 1)
  {
    assert ys[j..][1..] == ys[j + 1..];
  }

  /** The whole array during the merge: [left, left + i + j) holds what the
      merge has emitted, everything outside [left, right] is as it was. */
  predicate MergeLoop(a: seq<Str>, a0: seq<Str>, xs: seq<Str>, ys: seq<Str>, left: int, right: int, i: int, j: int)
  {
    0 <= left && left + |xs| + |ys| == right + 1 <= |a0| && 0 <= i <= |xs| && 0 <= j <= |ys|
    && SameOutside(a0, a, left, right + 1)
    && MergeState(a[left..left + i + j], xs, ys, i, j)
  }

  lemma MergeLoopLeft(a: seq<Str>, a': seq<Str>, a0: seq<Str>, xs: seq<Str>, ys: seq<Str>, left: int, right: int, i: int, j: int)
    requires MergeLoop(a, a0, xs, ys, left, right, i, j) && i < |xs|
    requires j == |ys| || LexLe(xs[i], ys[j])
    requires a' == a[left + i + j := xs[i]]
    ensures MergeLoop(a', a0, xs, ys, left, right, i + 1, j)
  {
    var k := left + i + j;
    MergeTakeLeft(a[left..k], xs, ys, i, j);
    EmitOne(a, a0, xs[i], left, right, k);
  }

  lemma MergeLoopRight(a: seq<Str>, a': seq<Str>, a0: seq<Str>, xs: seq<Str>, ys: seq<Str>, left: int, right: int, i: int, j: int)
    requires MergeLoop(a, a0, xs, ys, left, right, i, j) && j < |ys|
    requires i == |xs| || !LexLe(xs[i], ys[j])
    requires a' == a[left + i + j := ys[j]]
    ensures MergeLoop(a', a0, xs, ys, left, right, i, j + 1)
  {
    var k := left + i + j;
    MergeTakeRight(a[left..k], xs, ys, i, j);
    EmitOne(a, a0, ys[j], left, right, k);
  }

  /** Writing `v` at `k`, just after what the merge has emitted. */
  lemma EmitOne(a: seq<Str>, a0: seq<Str>, v: Str, left: int, right: int, k: int)
    requires 0 <= left <= k <= right < |a| && SameOutside(a0, a, left, right + 1)
    ensures a[k := v][left..k + 1] == a[left..k] + [v]
    ensures SameOutside(a0, a[k := v], left, right + 1)
  {
    assert a[k := v][left..k + 1] == a[left..k] + [v];
  }

  /** `a` with `s` written over it from position `k` on. */
  function Overwrite(a: seq<Str>, k: int, s: seq<Str>): (r: seq<Str>)
    requires 0 <= k && k + |s| <= |a|
    ensures |r| == |a| && r[k..k + |s|] == s
    ensures forall x :: 0 <= x < |a| && !(k <= x < k + |s|) ==> r[x] == a[x]
  {
    a[..k] + s + a[k + |s|..]
  }

  /** When the main loop stops one run is used up; copying the rest of each
      run after what was emitted completes the merge of the two runs. */
  lemma MergeTail(a0: seq<Str>, a1: seq<Str>, a2: seq<Str>, a3: seq<Str>, xs: seq<Str>, ys: seq<Str>,
                  left: int, mid: int, right: int, i: int, j: int, k: int, k2: int)
    requires MergeLoop(a1, a0, xs, ys, left, right, i, j) && (i == |xs| || j == |ys|)
    requires left <= mid + 1 <= right + 1
    requires xs == a0[left..mid + 1] && ys == a0[mid + 1..right + 1]
    requires k == left + i + j && k2 == k + |xs| - i
    requires a2 == Overwrite(a1, k, xs[i..])
    requires a3 == Overwrite(a2, k2, ys[j..])
    ensures SameOutside(a0, a3, left, right + 1)
    ensures Merged(a3[left..right + 1], a0[left..mid + 1], a0[mid + 1..right + 1])
  {
    assert xs[|xs|..] == [] && ys[|ys|..] == [];
    assert a1[left..left + i + j] + xs[i..] + ys[j..] == MergeRuns(xs, ys);
    OverwriteTwice(a1, a2, a3, xs, ys, left, right, i, j, k, k2);
  }

  /** The two tail copies put both rests right after what was emitted. */
  lemma OverwriteTwice(a1: seq<Str>, a2: seq<Str>, a3: seq<Str>, xs: seq<Str>, ys: seq<Str>,
                       left: int, right: int, i: int, j: int, k: int, k2: int)
    requires 0 <= left && left + |xs| + |ys| == right + 1 <= |a1| && 0 <= i <= |xs| && 0 <= j <= |ys|
    requires k == left + i + j && k2 == k + |xs| - i
    requires a2 == Overwrite(a1, k, xs[i..])
    requires a3 == Overwrite(a2, k2, ys[j..])
    ensures a3[left..right + 1] == a1[left..k] + xs[i..] + ys[j..]
    ensures SameOutside(a1, a3, left, right + 1)
  {
    assert a2[left..k] == a1[left..k];
    assert a3[left..k2] == a2[left..k2];
    SliceSplit(a3, left, k2, right + 1);
    SliceSplit(a2, left, k, k2);
  }
}
