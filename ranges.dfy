/** Bookkeeping for in-place work on an index range [lo, hi) of a sequence of
    strings: what stays put outside it, how swaps and nested sub-range updates
    keep it a permutation, and the measure that bounds the character-wise
    recursions. */
module Ranges {
  import opened Lex
  import opened Order

  /** `b` differs from `a` at most inside [lo, hi). */
  predicate SameOutside(a: seq<Str>, b: seq<Str>, lo: int, hi: int)
  {
    |a| == |b| && forall k :: 0 <= k < |a| && !(lo <= k < hi) ==> b[k] == a[k]
  }

  /** `a` with positions `i` and `j` exchanged. */
  function Swapped(a: seq<Str>, i: int, j: int): (r: seq<Str>)
    requires 0 <= i < |a| && 0 <= j < |a|
    ensures |r| == |a| && r[i] == a[j] && r[j] == a[i]
    ensures forall k :: 0 <= k < |a| && k != i && k != j ==> r[k] == a[k]
  {
    seq(|a|, k requires 0 <= k < |a| => if k == j then a[i] else if k == i then a[j] else a[k])
  }

  /** A swap inside [lo, hi) rearranges the sequence and changes nothing
      outside that range. */
  lemma SwapInRange(a: seq<Str>, i: int, j: int, lo: int, hi: int)
    requires 0 <= lo <= i < hi <= |a| && lo <= j < hi
    ensures SameOutside(a, Swapped(a, i, j), lo, hi)
    ensures multiset(Swapped(a, i, j)) == multiset(a)
  {
    assert Swapped(a, i, j) == a[i := a[j]][j := a[i]];
  }

  /** A rearrangement that changes nothing outside [lo, hi) rearranges
      [lo, hi) itself. */
  lemma PermutedInside(a: seq<Str>, b: seq<Str>, lo: int, hi: int)
    requires 0 <= lo <= hi <= |a|
    requires SameOutside(a, b, lo, hi) && multiset(b) == multiset(a)
    ensures multiset(b[lo..hi]) == multiset(a[lo..hi])
  {
    assert a == a[..lo] + a[lo..hi] + a[hi..];
    assert b == a[..lo] + b[lo..hi] + a[hi..];
    MultisetCancel(a[..lo], a[lo..hi], b[lo..hi], a[hi..]);
  }

  lemma MultisetCancel(p: seq<Str>, x: seq<Str>, y: seq<Str>, q: seq<Str>)
    requires multiset(p + y + q) == multiset(p + x + q)
    ensures multiset(y) == multiset(x)
  {
    forall o ensures multiset(y)[o] == multiset(x)[o] {
      assert multiset(p + x + q)[o] == multiset(p)[o] + multiset(x)[o] + multiset(q)[o];
      assert multiset(p + y + q)[o] == multiset(p)[o] + multiset(y)[o] + multiset(q)[o];
    }
  }

  /** Conversely, rearranging [lo, hi) and nothing else rearranges the sequence. */
  lemma PermutedWhole(a: seq<Str>, b: seq<Str>, lo: int, hi: int)
    requires 0 <= lo <= hi <= |a|
    requires SameOutside(a, b, lo, hi) && multiset(b[lo..hi]) == multiset(a[lo..hi])
    ensures multiset(b) == multiset(a)
  {
    assert a == a[..lo] + a[lo..hi] + a[hi..];
    assert b == b[..lo] + b[lo..hi] + b[hi..];
    assert a[..lo] == b[..lo] && a[hi..] == b[hi..];
  }

  lemma SliceSplit(a: seq<Str>, lo: int, mid: int, hi: int)
    requires 0 <= lo <= mid <= hi <= |a|
    ensures a[lo..hi] == a[lo..mid] + a[mid..hi]
    ensures multiset(a[lo..hi]) == multiset(a[lo..mid]) + multiset(a[mid..hi])
  {
    assert a[lo..hi] == a[lo..mid] + a[mid..hi];
  }

  /** A change confined to [lo + x, lo + y), seen from inside [lo, hi),
      where positions are relative to `lo`. */
  lemma SubrangeRelative(a: seq<Str>, b: seq<Str>, lo: int, hi: int, x: int, y: int)
    requires 0 <= lo <= lo + x <= lo + y <= hi <= |a|
    requires SameOutside(a, b, lo + x, lo + y)
    ensures SameOutside(a[lo..hi], b[lo..hi], x, y)
    ensures b[lo..hi][x..y] == b[lo + x..lo + y] && a[lo..hi][x..y] == a[lo + x..lo + y]
  {
    SliceOfSlice(a, lo, hi, x, y);
    SliceOfSlice(b, lo, hi, x, y);
  }

  /** Positions [x, y) of the slice [lo, hi) are positions [lo + x, lo + y). */
  lemma SliceOfSlice(a: seq<Str>, lo: int, hi: int, x: int, y: int)
    requires 0 <= lo <= lo + x <= lo + y <= hi <= |a|
    ensures a[lo..hi][x..y] == a[lo + x..lo + y]
  {
    forall k | 0 <= k < y - x ensures a[lo..hi][x..y][k] == a[lo + x..lo + y][k] {
    }
  }

  /** The two halves of a slice, cut at `mid`. */
  lemma SliceHalves(a: seq<Str>, lo: int, mid: int, hi: int)
    requires 0 <= lo <= mid <= hi <= |a|
    ensures a[lo..hi][..mid - lo] == a[lo..mid]
    ensures a[lo..hi][mid - lo..] == a[mid..hi]
  {
  }

  // ---------------------------------------------------------------------
  // The measure of the character-wise recursions

  /** Every string of `a[lo..hi]` is at most `n` bytes long. */
  predicate BoundedIn(a: seq<Str>, lo: int, hi: int, n: int)
  {
    0 <= lo <= hi <= |a| && forall k :: lo <= k < hi ==> |a[k]| <= n
  }

  /** Length of the longest string in `s` (0 when `s` is empty). */
  function MaxLen(s: seq<Str>): nat
  {
    if s == [] then 0
    else
      var m := MaxLen(s[1..]);
      if |s[0]| >= m then |s[0]| else m
  }

  /** The longest length bounds every string. */
  lemma {:induction false} MaxLenBound(s: seq<Str>)
    ensures BoundedIn(s, 0, |s|, MaxLen(s))
  {
    if s != [] {
      MaxLenBound(s[1..]);
      forall k | 0 <= k < |s| ensures |s[k]| <= MaxLen(s) {
        if k > 0 {
          assert s[k] == s[1..][k - 1];
        }
      }
    }
  }

  /** A bound on a part of a range. */
  lemma BoundedWithin(a: seq<Str>, lo: int, hi: int, x: int, y: int, n: int)
    requires BoundedIn(a, lo, hi, n) && lo <= x <= y <= hi
    ensures BoundedIn(a, x, y, n)
  {
  }

  /** A bound on a range that lies outside the changed range carries over. */
  lemma BoundKept(a: seq<Str>, b: seq<Str>, lo: int, hi: int, x: int, y: int, n: int)
    requires SameOutside(a, b, lo, hi) && (y <= lo || hi <= x)
    requires BoundedIn(a, x, y, n)
    ensures BoundedIn(b, x, y, n)
  {
  }

  /** A bound also holds when raised. */
  lemma BoundRaised(a: seq<Str>, lo: int, hi: int, n: int, m: int)
    requires BoundedIn(a, lo, hi, n) && n <= m
    ensures BoundedIn(a, lo, hi, m)
  {
  }
}
