/** The MSD radix sort's steps on the whole array: the range [low, high]
    seen as the sequence its buckets are defined on. */
module RadixSteps {
  import opened Lex
  import opened Order
  import opened Ranges
  import opened Buckets

  /** A bound on the strings of [low, high] is a bound on the range seen alone. */
  lemma RangeBounded(a: seq<Str>, low: int, high: int, n: int)
    requires 0 <= low <= high < |a|
    requires BoundedIn(a, low, high + 1, n)
    ensures BoundedIn(a[low..high + 1], 0, high + 1 - low, n)
  {
    var t := a[low..high + 1];
    forall k | 0 <= k < |t| ensures |t[k]| <= n {
      assert t[k] == a[low + k];
    }
  }

  /** A bucket still in place, at [lo, hi] of the array, holds strings of
      the input, so it keeps the input's length bound; and a non-empty
      bucket of a real byte holds a string longer than `d`, so the bound
      exceeds `d`. */
  lemma BucketBounded(t: seq<Str>, s: seq<Str>, low: int, high: int, d: nat, r: int, n: int, lo: int, hi: int)
    requires 0 <= low <= high < |t| && 0 <= r < 256
    requires BucketInPlace(t[low..high + 1], s, d, r)
    requires BoundedIn(s, 0, |s|, n)
    requires lo == low + Start(s, d, r) && hi == low + Start(s, d, r + 1) - 1
    ensures low <= lo <= hi + 1 <= high + 1
    ensures BoundedIn(t, lo, hi + 1, n)
    ensures lo <= hi ==> d + 1 <= n
  {
    var band := t[low..high + 1][Start(s, d, r)..Start(s, d, r + 1)];
    assert band == Bucket(s, d, r);
    forall k | lo <= k < hi + 1 ensures |t[k]| <= n {
      assert t[k] == band[k - lo];
      assert t[k] in s;
    }
    if lo <= hi {
      assert band[0] in s && CharCode(band[0], d) == r;
    }
  }

  /** A rearrangement confined to [lo, hi], seen from inside [low, high]
      where it is positions [x, y). */
  lemma BucketSlice(t: seq<Str>, t': seq<Str>, low: int, high: int, lo: int, hi: int, x: int, y: int)
    requires 0 <= low <= high < |t|
    requires lo == low + x && hi == low + y - 1 && low <= lo <= hi + 1 <= high + 1
    requires SameOutside(t, t', lo, hi + 1) && multiset(t') == multiset(t)
    ensures SameOutside(t[low..high + 1], t'[low..high + 1], x, y)
    ensures t'[low..high + 1][x..y] == t'[lo..hi + 1]
    ensures multiset(t'[low..high + 1][x..y]) == multiset(t[low..high + 1][x..y])
  {
    PermutedInside(t, t', lo, hi + 1);
    SubrangeRelative(t, t', low, high + 1, x, y);
  }

  /** Sorting bucket `r`, at [lo, hi] of the array, in place from `d + 1`
      and touching nothing else, sorts one more bucket of the range. */
  lemma BucketStep(a0: seq<Str>, t: seq<Str>, t': seq<Str>, s: seq<Str>, low: int, high: int, d: nat, r: int, lo: int, hi: int)
    requires 0 <= low <= high < |t| && 0 <= r < 256
    requires BucketsDone(t[low..high + 1], s, d, r)
    requires SameOutside(a0, t, low, high + 1)
    requires lo == low + Start(s, d, r) && hi == low + Start(s, d, r + 1) - 1
    requires low <= lo <= hi + 1 <= high + 1
    requires SameOutside(t, t', lo, hi + 1)
    requires multiset(t') == multiset(t)
    requires SortedAt(t'[lo..hi + 1], d + 1)
    ensures BucketsDone(t'[low..high + 1], s, d, r + 1)
    ensures SameOutside(a0, t', low, high + 1)
  {
    var u, u' := t[low..high + 1], t'[low..high + 1];
    BucketSlice(t, t', low, high, lo, hi, Start(s, d, r), Start(s, d, r + 1));
    BucketsDoneStep(u, u', s, d, r);
  }

  /** Once every bucket is sorted from `d + 1`, the range is sorted from
      `d` and the array is a permutation of what it was. */
  lemma RadixDone(a0: seq<Str>, t: seq<Str>, low: int, high: int, d: nat)
    requires 0 <= low <= high < |a0|
    requires SameOutside(a0, t, low, high + 1)
    requires BucketsDone(t[low..high + 1], a0[low..high + 1], d, 256)
    ensures multiset(t) == multiset(a0)
    ensures SortedAt(t[low..high + 1], d)
  {
    BucketsDoneSorted(t[low..high + 1], a0[low..high + 1], d);
    PermutedWhole(a0, t, low, high + 1);
  }
}
