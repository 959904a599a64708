/** The three-way split of the ternary string quicksort, stated on values:
    the scan's invariant, one lemma per kind of step, and how three sorted
    bands make a range sorted from position `d`. */
module ThreeWay {
  import opened Lex
  import opened Order
  import opened Ranges

  /** The scan of [low, high] by the byte at `d`: [low, lt) is below the
      pivot byte, [lt, i) equal to it, (gt, high] above it, [i, gt] not yet
      seen; the range holds the strings it started with. */
  predicate ThreeWayScan(a: seq<Str>, a0: seq<Str>, low: int, high: int, d: nat, pivot: int, lt: int, i: int, gt: int)
  {
    0 <= low <= lt < i <= gt + 1 <= high + 1 <= |a0|
    && SameOutside(a0, a, low, high + 1)
    && multiset(a) == multiset(a0)
    && (forall k :: low <= k < lt ==> CharCode(a[k], d) < pivot)
    && (forall k :: lt <= k < i ==> CharCode(a[k], d) == pivot)
    && (forall k :: gt < k <= high ==> CharCode(a[k], d) > pivot)
  }

  /** The pivot string itself opens the equal band. */
  lemma ScanStart(a0: seq<Str>, low: int, high: int, d: nat)
    requires 0 <= low < high < |a0|
    ensures ThreeWayScan(a0, a0, low, high, d, CharCode(a0[low], d), low, low + 1, high)
  {
  }

  /** A string below the pivot byte is swapped to the end of the lower band;
      the equal string it displaces moves to the end of the equal band. */
  lemma ScanLess(a: seq<Str>, a0: seq<Str>, low: int, high: int, d: nat, pivot: int, lt: int, i: int, gt: int)
    requires ThreeWayScan(a, a0, low, high, d, pivot, lt, i, gt) && i <= gt
    requires CharCode(a[i], d) < pivot
    ensures ThreeWayScan(Swapped(a, lt, i), a0, low, high, d, pivot, lt + 1, i + 1, gt)
  {
    SwapInRange(a, lt, i, low, high + 1);
  }

  /** A string above the pivot byte is swapped to the front of the upper band. */
  lemma ScanGreater(a: seq<Str>, a0: seq<Str>, low: int, high: int, d: nat, pivot: int, lt: int, i: int, gt: int)
    requires ThreeWayScan(a, a0, low, high, d, pivot, lt, i, gt) && i <= gt
    requires CharCode(a[i], d) > pivot
    ensures ThreeWayScan(Swapped(a, i, gt), a0, low, high, d, pivot, lt, i, gt - 1)
  {
    SwapInRange(a, i, gt, low, high + 1);
  }

  /** A string with the pivot byte stays where it is. */
  lemma ScanEqual(a: seq<Str>, a0: seq<Str>, low: int, high: int, d: nat, pivot: int, lt: int, i: int, gt: int)
    requires ThreeWayScan(a, a0, low, high, d, pivot, lt, i, gt) && i <= gt
    requires CharCode(a[i], d) == pivot
    ensures ThreeWayScan(a, a0, low, high, d, pivot, lt, i + 1, gt)
  {
  }

  /** Every string of the three parts the recursion sorts keeps the bound
      of the whole range; the equal band is non-empty, and when its byte is
      real its strings are longer than `d`, so the bound exceeds `d`. */
  lemma ScanBounds(a1: seq<Str>, a0: seq<Str>, low: int, high: int, d: nat, pivot: int, lt: int, gt: int, n: int)
    requires ThreeWayScan(a1, a0, low, high, d, pivot, lt, gt + 1, gt)
    requires BoundedIn(a0, low, high + 1, n)
    ensures lt <= gt
    ensures BoundedIn(a1, low, lt, n)
    ensures BoundedIn(a1, lt, gt + 1, n)
    ensures BoundedIn(a1, gt + 1, high + 1, n)
    ensures pivot >= 0 ==> d < n
  {
    PermutedInside(a0, a1, low, high + 1);
    forall k | low <= k <= high ensures |a1[k]| <= n {
      assert a1[k] == a1[low..high + 1][k - low];
      assert a1[k] in multiset(a0[low..high + 1]);
      var j :| 0 <= j < high + 1 - low && a0[low..high + 1][j] == a1[k];
      assert a0[low + j] == a1[k];
    }
    assert CharCode(a1[lt], d) == pivot;
  }

  /** After the split, each band of [low, high] has been rearranged in
      place and sorted: the outer bands from `d`, the equal band from
      `d + 1` when its byte is real. */
  predicate BandsSorted(a1: seq<Str>, a4: seq<Str>, low: int, high: int, d: nat, pivot: int, lt: int, gt: int)
  {
    && 0 <= low <= lt <= gt + 1 <= high + 1 <= |a1|
    && SameOutside(a1, a4, low, high + 1)
    && multiset(a4[low..lt]) == multiset(a1[low..lt])
    && multiset(a4[lt..gt + 1]) == multiset(a1[lt..gt + 1])
    && multiset(a4[gt + 1..high + 1]) == multiset(a1[gt + 1..high + 1])
    && SortedAt(a4[low..lt], d) && SortedAt(a4[gt + 1..high + 1], d)
    && (pivot >= 0 ==> SortedAt(a4[lt..gt + 1], d + 1))
  }

  /** Sorting the lower band (a1 to a2), the equal band (a2 to a3) and the
      upper band (a3 to a4) in place, one after the other, sorts each band. */
  lemma BandsDone(a1: seq<Str>, a2: seq<Str>, a3: seq<Str>, a4: seq<Str>,
                  low: int, high: int, d: nat, pivot: int, lt: int, gt: int)
    requires 0 <= low <= lt <= gt + 1 <= high + 1 <= |a1|
    requires SameOutside(a1, a2, low, lt) && multiset(a2) == multiset(a1)
    requires SameOutside(a2, a3, lt, gt + 1) && multiset(a3) == multiset(a2)
    requires SameOutside(a3, a4, gt + 1, high + 1) && multiset(a4) == multiset(a3)
    requires SortedAt(a2[low..lt], d) && SortedAt(a4[gt + 1..high + 1], d)
    requires pivot >= 0 ==> SortedAt(a3[lt..gt + 1], d + 1)
    ensures BandsSorted(a1, a4, low, high, d, pivot, lt, gt)
  {
    PermutedInside(a1, a2, low, lt);
    PermutedInside(a2, a3, lt, gt + 1);
    PermutedInside(a3, a4, gt + 1, high + 1);
    TernaryFrame(a1, a2, a3, a4, low, high, lt, gt);
  }

  /** The split followed by the sorted bands leaves the range a
      rearrangement of the original, sorted from `d`. */
  lemma TernaryStep(a0: seq<Str>, a1: seq<Str>, a4: seq<Str>,
                    low: int, high: int, d: nat, pivot: int, lt: int, gt: int)
    requires ThreeWayScan(a1, a0, low, high, d, pivot, lt, gt + 1, gt)
    requires BandsSorted(a1, a4, low, high, d, pivot, lt, gt) && multiset(a4) == multiset(a1)
    ensures SameOutside(a0, a4, low, high + 1)
    ensures multiset(a4) == multiset(a0)
    ensures SortedAt(a4[low..high + 1], d)
  {
    TernaryOrder(a1, a4, low, high, d, pivot, lt, gt);
  }

  /** The three in-place sorts touch only their own bands. */
  lemma TernaryFrame(a1: seq<Str>, a2: seq<Str>, a3: seq<Str>, a4: seq<Str>, low: int, high: int, lt: int, gt: int)
    requires 0 <= low <= lt <= gt + 1 <= high + 1 <= |a1|
    requires SameOutside(a1, a2, low, lt) && multiset(a2[low..lt]) == multiset(a1[low..lt])
    requires SameOutside(a2, a3, lt, gt + 1) && multiset(a3[lt..gt + 1]) == multiset(a2[lt..gt + 1])
    requires SameOutside(a3, a4, gt + 1, high + 1) && multiset(a4[gt + 1..high + 1]) == multiset(a3[gt + 1..high + 1])
    ensures SameOutside(a1, a4, low, high + 1)
    ensures a4[low..lt] == a2[low..lt] && a4[lt..gt + 1] == a3[lt..gt + 1]
    ensures multiset(a4[low..lt]) == multiset(a1[low..lt])
    ensures multiset(a4[lt..gt + 1]) == multiset(a1[lt..gt + 1])
    ensures multiset(a4[gt + 1..high + 1]) == multiset(a1[gt + 1..high + 1])
  {
    BandsKept(a1, a2, a3, a4, low, high, lt, gt);
    assert multiset(a4[low..lt]) == multiset(a2[low..lt]);
    assert multiset(a4[lt..gt + 1]) == multiset(a3[lt..gt + 1]);
    assert multiset(a2[lt..gt + 1]) == multiset(a1[lt..gt + 1]);
    assert multiset(a3[gt + 1..high + 1]) == multiset(a1[gt + 1..high + 1]);
  }

  lemma BandsKept(a1: seq<Str>, a2: seq<Str>, a3: seq<Str>, a4: seq<Str>, low: int, high: int, lt: int, gt: int)
    requires 0 <= low <= lt <= gt + 1 <= high + 1 <= |a1|
    requires SameOutside(a1, a2, low, lt) && SameOutside(a2, a3, lt, gt + 1) && SameOutside(a3, a4, gt + 1, high + 1)
    ensures a4[low..lt] == a2[low..lt] && a4[lt..gt + 1] == a3[lt..gt + 1]
    ensures a3[gt + 1..high + 1] == a1[gt + 1..high + 1]
    ensures a2[lt..gt + 1] == a1[lt..gt + 1]
  {
    SliceUnchanged(a3, a4, gt + 1, high + 1, low, lt);
    SliceUnchanged(a2, a3, lt, gt + 1, low, lt);
    SliceUnchanged(a3, a4, gt + 1, high + 1, lt, gt + 1);
    SliceUnchanged(a1, a2, low, lt, lt, gt + 1);
    SliceUnchanged(a1, a2, low, lt, gt + 1, high + 1);
    SliceUnchanged(a2, a3, lt, gt + 1, gt + 1, high + 1);
  }

  /** Rearranged bands that keep their byte bounds and are sorted make a
      range sorted from `d`. */
  lemma TernaryOrder(a1: seq<Str>, a4: seq<Str>, low: int, high: int, d: nat, pivot: int, lt: int, gt: int)
    requires 0 <= low <= lt <= gt + 1 <= high + 1 <= |a1| == |a4|
    requires forall k :: low <= k < lt ==> CharCode(a1[k], d) < pivot
    requires forall k :: lt <= k < gt + 1 ==> CharCode(a1[k], d) == pivot
    requires forall k :: gt < k <= high ==> CharCode(a1[k], d) > pivot
    requires multiset(a4[low..lt]) == multiset(a1[low..lt])
    requires multiset(a4[lt..gt + 1]) == multiset(a1[lt..gt + 1])
    requires multiset(a4[gt + 1..high + 1]) == multiset(a1[gt + 1..high + 1])
    requires SortedAt(a4[low..lt], d) && SortedAt(a4[gt + 1..high + 1], d)
    requires pivot >= 0 ==> SortedAt(a4[lt..gt + 1], d + 1)
    ensures SortedAt(a4[low..high + 1], d)
  {
    var less, eq, greater := a4[low..lt], a4[lt..gt + 1], a4[gt + 1..high + 1];
    BandsCoded(a1, low, high, d, pivot, lt, gt, less, eq, greater);
    ThreeBandsSorted(less, eq, greater, d, pivot);
    SliceThree(a4, low, lt, gt + 1, high + 1);
  }

  /** The byte bounds of the three bands survive their rearrangement. */
  lemma BandsCoded(a1: seq<Str>, low: int, high: int, d: nat, pivot: int, lt: int, gt: int,
                   less: seq<Str>, eq: seq<Str>, greater: seq<Str>)
    requires 0 <= low <= lt <= gt + 1 <= high + 1 <= |a1|
    requires forall k :: low <= k < lt ==> CharCode(a1[k], d) < pivot
    requires forall k :: lt <= k < gt + 1 ==> CharCode(a1[k], d) == pivot
    requires forall k :: gt < k <= high ==> CharCode(a1[k], d) > pivot
    requires multiset(less) == multiset(a1[low..lt])
    requires multiset(eq) == multiset(a1[lt..gt + 1])
    requires multiset(greater) == multiset(a1[gt + 1..high + 1])
    ensures forall x :: x in less ==> CharCode(x, d) < pivot
    ensures forall x :: x in eq ==> CharCode(x, d) == pivot
    ensures forall x :: x in greater ==> CharCode(x, d) > pivot
  {
    BandCodes(a1, low, lt, d, -1, pivot, less);
    BandCodes(a1, lt, gt + 1, d, pivot, pivot + 1, eq);
    BandCodes(a1, gt + 1, high + 1, d, pivot + 1, 256, greater);
  }

  lemma SliceThree(a: seq<Str>, x: int, y: int, z: int, w: int)
    requires 0 <= x <= y <= z <= w <= |a|
    ensures a[x..w] == a[x..y] + a[y..z] + a[z..w]
  {
    assert a[x..w] == a[x..y] + a[y..w];
    assert a[y..w] == a[y..z] + a[z..w];
  }

  /** Bounds on the byte at `d` over a band carry over to any rearrangement of it. */
  lemma BandCodes(a: seq<Str>, x: int, y: int, d: nat, lo: int, hi: int, t: seq<Str>)
    requires 0 <= x <= y <= |a|
    requires forall k :: x <= k < y ==> lo <= CharCode(a[k], d) < hi
    requires multiset(t) == multiset(a[x..y])
    ensures forall z :: z in t ==> lo <= CharCode(z, d) < hi
  {
    forall z | z in t ensures lo <= CharCode(z, d) < hi {
      assert z in multiset(a[x..y]);
      var k :| 0 <= k < y - x && a[x..y][k] == z;
      assert a[x + k] == z;
    }
  }
}
